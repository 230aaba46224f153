/**
 * The download header of a generated file: printing, parsing, and the filenames that survive both.
 * `canonical` stands for the Unicode rules, normalisation form C and the absence of invisible
 * formatting characters; nothing here depends on what it accepts.
 */
module Disposition {
  import opened Options
  import opened JsText
  import Utf8
  import opened Percent

  const MAX_FILENAME_BYTES := 255
  const HEAD := "attachment; filename=\""
  const MIDDLE := "; filename*=UTF-8''"

  type UnicodeRules = string -> bool

  predicate Control(c: char) {
    c < ' ' || '\U{007F}' <= c <= '\U{009F}'
  }

  predicate ValidFilename(f: string, canonical: UnicodeRules) {
    && canonical(f) && Trimmed(f)
    && f != "" && f != "." && f != ".."
    && (forall c :: c in f ==> !Control(c) && c != '/' && c != '\\')
    && |Utf8.Encode(f)| <= MAX_FILENAME_BYTES
  }

  function AsciiFilename(f: string): (r: string)
    ensures |r| == |f|
  {
    seq(|f|, k requires 0 <= k < |f| => if f[k] > '~' then '_' else f[k])
  }

  /** A quotation mark gets a backslash. */
  function EscapeQuote(c: char): string {
    if c == '"' then "\\\"" else [c]
  }

  function EscapeQuotes(s: string): string {
    if s == "" then "" else EscapeQuote(s[0]) + EscapeQuotes(s[1..])
  }

  function UnescapeQuotes(s: string): string {
    if s == "" then ""
    else if |s| >= 2 && s[0] == '\\' && s[1] == '"' then "\"" + UnescapeQuotes(s[2..])
    else [s[0]] + UnescapeQuotes(s[1..])
  }

  predicate Mark(c: char) { c in {'!', '\'', '(', ')', '*'} }

  /** The marks `encodeURIComponent` leaves alone but RFC 8187 does not. */
  function EscapeMarks(s: string): string {
    if s == "" then "" else (if Mark(s[0]) then Escape(s[0] as int) else [s[0]]) + EscapeMarks(s[1..])
  }

  /** The fallback as it stands between the quotation marks, with the closing one. */
  function Quoted(f: string): string {
    EscapeQuotes(AsciiFilename(f)) + "\""
  }

  /** `None` where the source throws. */
  function Format(f: string, canonical: UnicodeRules): Option<string> {
    if !ValidFilename(f, canonical) then None else
    Some(HEAD + Quoted(f) + MIDDLE + EscapeMarks(EncodeUriComponent(f)))
  }

  // ----- parsing -----

  function LowerChar(c: char): char {
    if 'A' <= c <= 'Z' then (c as int - 'A' as int + 'a' as int) as char else c
  }

  function Lower(s: string): string {
    seq(|s|, k requires 0 <= k < |s| => LowerChar(s[k]))
  }

  /** `s` begins with `literal`, letters compared without case. */
  predicate StartsWith(s: string, literal: string) {
    |literal| <= |s| && Lower(s[..|literal|]) == Lower(literal)
  }

  /** The quoted text up to its closing quotation mark, escapes kept; and what follows the mark. */
  function ReadQuoted(s: string): Option<(string, string)> {
    if s == "" then None
    else if s[0] == '"' then Some(("", s[1..]))
    else if s[0] == '\\' then
      if |s| < 2 || s[1] != '"' then None else
      match ReadQuoted(s[2..])
      case None => None
      case Some((text, rest)) => Some(("\\\"" + text, rest))
    else
      match ReadQuoted(s[1..])
      case None => None
      case Some((text, rest)) => Some(([s[0]] + text, rest))
  }

  function Parse(value: string, canonical: UnicodeRules): Option<string> {
    if !StartsWith(value, HEAD) then None else
    match ReadQuoted(value[|HEAD|..])
    case None => None
    case Some((fallback, rest)) =>
      if !StartsWith(rest, MIDDLE) then None else
      var encoded := rest[|MIDDLE|..];
      if encoded == "" || ';' in encoded then None else
      match DecodeUriComponent(encoded)
      case None => None
      case Some(f) =>
        if ValidFilename(f, canonical) && UnescapeQuotes(fallback) == AsciiFilename(f) then Some(f) else None
  }

  // ----- quoting -----

  predicate NoBackslash(s: string) { forall c :: c in s ==> c != '\\' }

  lemma NoneFurther(s: string)
    requires NoBackslash(s) && s != ""
    ensures s[0] != '\\' && NoBackslash(s[1..])
  {
    assert s[0] in s && forall c :: c in s[1..] ==> c in s;
  }

  /** One character's escaping is unescaped, and read, before what follows. */
  lemma UnescapesOne(c: char, after: string)
    requires c != '\\'
    ensures UnescapeQuotes(EscapeQuote(c) + after) == [c] + UnescapeQuotes(after)
  {
    assert (EscapeQuote(c) + after)[|EscapeQuote(c)|..] == after;
  }

  lemma ReadsOne(c: char, text: string, after: string, rest: string)
    requires c != '\\' && ReadQuoted(after) == Some((text, rest))
    ensures ReadQuoted(EscapeQuote(c) + after) == Some((EscapeQuote(c) + text, rest))
  {
    assert (EscapeQuote(c) + after)[|EscapeQuote(c)|..] == after;
  }

  lemma {:induction false} UnescapesEscaped(s: string)
    requires NoBackslash(s)
    ensures UnescapeQuotes(EscapeQuotes(s)) == s
  {
    if s != "" {
      NoneFurther(s);
      UnescapesEscaped(s[1..]);
      UnescapesOne(s[0], EscapeQuotes(s[1..]));
      assert [s[0]] + s[1..] == s;
    }
  }

  lemma Regroup(a: string, b: string, c: string)
    ensures a + b + c == a + (b + c)
  {}

  lemma ReadsClosing(rest: string)
    ensures ReadQuoted("\"" + rest) == Some(("", rest))
  {
    assert ("\"" + rest)[1..] == rest;
  }

  lemma {:induction false} ReadsEscaped(s: string, rest: string)
    requires NoBackslash(s)
    ensures ReadQuoted(EscapeQuotes(s) + ("\"" + rest)) == Some((EscapeQuotes(s), rest))
  {
    if s == "" {
      ReadsClosing(rest);
      assert "" + ("\"" + rest) == "\"" + rest;
    } else {
      NoneFurther(s);
      ReadsEscaped(s[1..], rest);
      ReadsOne(s[0], EscapeQuotes(s[1..]), EscapeQuotes(s[1..]) + ("\"" + rest), rest);
      Regroup(EscapeQuote(s[0]), EscapeQuotes(s[1..]), "\"" + rest);
    }
  }

  lemma {:induction false} QuotedSplits(s: string)
    requires ReadQuoted(s).Some?
    ensures s == ReadQuoted(s).value.0 + "\"" + ReadQuoted(s).value.1
  {
    if s[0] == '\\' {
      QuotedSplits(s[2..]);
      assert s == s[..2] + s[2..] && s[..2] == "\\\"";
    } else if s[0] != '"' {
      QuotedSplits(s[1..]);
      assert s == [s[0]] + s[1..];
    }
  }

  /** Quoted text is the escaping of what it unescapes to. */
  lemma {:induction false} QuotedIsEscaped(s: string)
    requires ReadQuoted(s).Some?
    ensures var text := ReadQuoted(s).value.0;
            text == EscapeQuotes(UnescapeQuotes(text))
  {
    var text := ReadQuoted(s).value.0;
    if s[0] == '\\' {
      QuotedIsEscaped(s[2..]);
      var inner := ReadQuoted(s[2..]).value.0;
      assert text[2..] == inner;
      assert ("\"" + UnescapeQuotes(inner))[1..] == UnescapeQuotes(inner);
    } else if s[0] != '"' {
      QuotedIsEscaped(s[1..]);
      var inner := ReadQuoted(s[1..]).value.0;
      assert text[1..] == inner;
      assert ([s[0]] + UnescapeQuotes(inner))[1..] == UnescapeQuotes(inner);
    }
  }

  // ----- encoding -----

  function AttrPlain(): char -> bool {
    (c: char) => Unreserved(c) && !Mark(c)
  }

  lemma {:induction false} EscapeMarksJoins(a: string, b: string)
    ensures EscapeMarks(a + b) == EscapeMarks(a) + EscapeMarks(b)
  {
    if a == "" { assert a + b == b; }
    else {
      assert (a + b)[1..] == a[1..] + b;
      EscapeMarksJoins(a[1..], b);
    }
  }

  lemma {:induction false} NoMarks(a: string)
    requires forall c :: c in a ==> !Mark(c)
    ensures EscapeMarks(a) == a
  {
    if a != "" {
      assert a[0] in a;
      NoMarks(a[1..]);
    }
  }

  lemma MarkEncoded(c: char)
    ensures EscapeMarks(EncodeOne(c, Unreserved)) == EncodeOne(c, AttrPlain())
  {
    if Unreserved(c) {
      assert [c][1..] == "" && EscapeMarks([c]) == if Mark(c) then Escape(c as int) else [c];
      if Mark(c) {
        assert Utf8.EncodeChar(c) == [c as int];
        assert [c as int][1..] == [];
      }
    } else {
      EscapedAlphabet(Utf8.EncodeChar(c));
      NoMarks(EscapeAll(Utf8.EncodeChar(c)));
    }
  }

  /** Encoding and then escaping the marks is encoding with the marks not kept. */
  lemma {:induction false} MarksEncoded(f: string)
    ensures EscapeMarks(EncodeUriComponent(f)) == EncodeKeeping(f, AttrPlain())
  {
    if f != "" {
      MarksEncoded(f[1..]);
      EscapeMarksJoins(EncodeOne(f[0], Unreserved), EncodeUriComponent(f[1..]));
      MarkEncoded(f[0]);
    }
  }

  lemma EncodedName(f: string)
    requires f != ""
    ensures var encoded := EscapeMarks(EncodeUriComponent(f));
            && DecodeUriComponent(encoded) == Some(f) && encoded != ""
            && forall c :: c in encoded ==> Letter(c) || Digit(c) || c in {'-', '_', '.', '~', '%'}
  {
    MarksEncoded(f);
    UriRoundTrip(f, AttrPlain());
    EncodedAlphabet(f, AttrPlain());
  }

  // ----- the header -----

  predicate Printable(s: string) {
    forall k :: 0 <= k < |s| ==> ' ' <= s[k] <= '~'
  }

  lemma AsciiKeeps(f: string, canonical: UnicodeRules)
    requires ValidFilename(f, canonical)
    ensures NoBackslash(AsciiFilename(f)) && Printable(AsciiFilename(f))
  {
    var a := AsciiFilename(f);
    forall k | 0 <= k < |a| ensures ' ' <= a[k] <= '~' && a[k] != '\\' { assert f[k] in f; }
  }

  predicate Assembled(value: string, head: string, quoted: string, middle: string, f: string) {
    var at := |head| + |quoted|;
    && StartsWith(value, head) && |value| > at + |middle|
    && value[|head|..at] == quoted && StartsWith(value[at..], middle)
    && ';' !in value[at + |middle|..] && DecodeUriComponent(value[at + |middle|..]) == Some(f)
  }

  /** What makes a header parse to `f`: the two literals in any case, the escaped fallback, and any encoding of `f`. */
  predicate Says(value: string, f: string) {
    Assembled(value, HEAD, Quoted(f), MIDDLE, f)
  }

  /** A text from `from` on, cut after `part`. */
  lemma CutAfter(value: string, from: nat, escaped: string, at: nat)
    requires from <= at <= |value| && at == from + |escaped| + 1
    ensures value[from..at] == escaped + "\"" <==> value[from..] == escaped + ("\"" + value[at..])
  {
    assert value[from..] == value[from..at] + value[at..];
    assert escaped + ("\"" + value[at..]) == escaped + "\"" + value[at..];
  }

  lemma SaysParses(value: string, f: string, canonical: UnicodeRules)
    requires ValidFilename(f, canonical) && Says(value, f)
    ensures Parse(value, canonical) == Some(f)
  {
    var escaped := EscapeQuotes(AsciiFilename(f));
    var at := |HEAD| + |escaped| + 1;
    AsciiKeeps(f, canonical);
    ReadsEscaped(AsciiFilename(f), value[at..]);
    UnescapesEscaped(AsciiFilename(f));
    CutAfter(value, |HEAD|, escaped, at);
    assert value[at..][|MIDDLE|..] == value[at + |MIDDLE|..];
  }

  lemma PartsOf(value: string, head: string, quoted: string, middle: string, rest: string, f: string)
    requires StartsWith(value, head) && value[|head|..] == quoted + rest && StartsWith(rest, middle)
    requires var encoded := rest[|middle|..]; encoded != "" && ';' !in encoded && DecodeUriComponent(encoded) == Some(f)
    ensures Assembled(value, head, quoted, middle, f)
  {
    var at := |head| + |quoted|;
    assert value[|head|..at] == value[|head|..][..|quoted|] == quoted;
    assert value[at..] == value[|head|..][|quoted|..] == rest;
    assert value[at + |middle|..] == rest[|middle|..];
  }

  lemma ParsedSays(value: string, f: string, canonical: UnicodeRules)
    requires Parse(value, canonical) == Some(f)
    ensures Says(value, f)
  {
    var tail := value[|HEAD|..];
    QuotedSplits(tail);
    QuotedIsEscaped(tail);
    PartsOf(value, HEAD, Quoted(f), MIDDLE, ReadQuoted(tail).value.1, f);
  }

  /** A header is accepted exactly when it says one valid filename twice over, consistently. */
  lemma ParsesExactly(value: string, f: string, canonical: UnicodeRules)
    ensures Parse(value, canonical) == Some(f) <==> ValidFilename(f, canonical) && Says(value, f)
  {
    if ValidFilename(f, canonical) && Says(value, f) { SaysParses(value, f, canonical); }
    if Parse(value, canonical) == Some(f) { ParsedSays(value, f, canonical); }
  }

  lemma PartsAssemble(head: string, quoted: string, middle: string, encoded: string, f: string)
    requires encoded != "" && ';' !in encoded && DecodeUriComponent(encoded) == Some(f)
    ensures Assembled(head + quoted + middle + encoded, head, quoted, middle, f)
  {
    var value, at := head + quoted + middle + encoded, |head| + |quoted|;
    assert value[..|head|] == head && value[|head|..at] == quoted && value[at..] == middle + encoded;
    assert value[at..][..|middle|] == middle && value[at + |middle|..] == encoded;
  }

  /** Every valid filename survives its header. */
  lemma FormatRoundTrip(f: string, canonical: UnicodeRules)
    requires ValidFilename(f, canonical)
    ensures Format(f, canonical).Some? && Parse(Format(f, canonical).value, canonical) == Some(f)
  {
    EncodedName(f);
    PartsAssemble(HEAD, Quoted(f), MIDDLE, EscapeMarks(EncodeUriComponent(f)), f);
    SaysParses(Format(f, canonical).value, f, canonical);
  }

  /** A parsed filename is valid, and its own header says it again. */
  lemma ParsedSurvives(value: string, canonical: UnicodeRules)
    requires Parse(value, canonical).Some?
    ensures var f := Parse(value, canonical).value;
            && ValidFilename(f, canonical) && Format(f, canonical).Some?
            && Parse(Format(f, canonical).value, canonical) == Some(f)
  {
    FormatRoundTrip(Parse(value, canonical).value, canonical);
  }

  // ----- the grammar -----

  /** Text of a quoted-string, which takes in no quotation mark or backslash. */
  predicate QdText(c: char) {
    c == '\t' || c == ' ' || c == '!' || '#' <= c <= '[' || ']' <= c <= '~'
  }

  /** What may follow a backslash. */
  predicate Quotable(c: char) {
    c == '\t' || ' ' <= c <= '~'
  }

  predicate QuotedText(s: string) {
    s == "" || (if s[0] == '\\' then |s| >= 2 && Quotable(s[1]) && QuotedText(s[2..])
                else QdText(s[0]) && QuotedText(s[1..]))
  }

  /** The quoted-string of RFC 7230, section 3.2.6, that RFC 6266 takes a filename as. */
  predicate QuotedString(s: string) {
    |s| >= 2 && s[0] == '"' && s[|s| - 1] == '"' && QuotedText(s[1..|s| - 1])
  }

  /** The attr-char of RFC 8187, section 3.2. */
  predicate AttrChar(c: char) {
    Letter(c) || Digit(c) || c in {'!', '#', '$', '&', '+', '-', '.', '^', '_', '`', '|', '~'}
  }

  predicate ValueChars(s: string) {
    s == "" || (if s[0] == '%' then |s| >= 3 && HexValue(s[1]).Some? && HexValue(s[2]).Some? && ValueChars(s[3..])
                else AttrChar(s[0]) && ValueChars(s[1..]))
  }

  const CHARSET := "UTF-8''"

  /** The ext-value of RFC 8187, section 3.2, in UTF-8 and without a language. */
  predicate ExtValue(s: string) {
    CHARSET <= s && ValueChars(s[|CHARSET|..])
  }

  lemma {:induction false} EscapesToQuotedText(s: string)
    requires forall c :: c in s ==> ' ' <= c <= '~' && c != '\\'
    ensures QuotedText(EscapeQuotes(s))
  {
    if s != "" {
      assert s[0] in s && forall c :: c in s[1..] ==> c in s;
      EscapesToQuotedText(s[1..]);
      var rest := EscapeQuotes(s[1..]);
      if s[0] == '"' { assert ("\\\"" + rest)[2..] == rest; } else { assert ([s[0]] + rest)[1..] == rest; }
    }
  }

  lemma EscapeIsValueChars(byte: Utf8.Byte, tail: string)
    requires ValueChars(tail)
    ensures ValueChars(Escape(byte) + tail)
  {
    EscapeRoundTrip(byte, tail);
    assert (Escape(byte) + tail)[3..] == tail;
  }

  lemma {:induction false} EscapesAreValueChars(bytes: seq<Utf8.Byte>, rest: string)
    requires ValueChars(rest)
    ensures ValueChars(EscapeAll(bytes) + rest)
  {
    if bytes == [] { assert EscapeAll(bytes) + rest == rest; }
    else {
      EscapesAreValueChars(bytes[1..], rest);
      EscapeIsValueChars(bytes[0], EscapeAll(bytes[1..]) + rest);
      assert EscapeAll(bytes) + rest == Escape(bytes[0]) + (EscapeAll(bytes[1..]) + rest);
    }
  }

  lemma {:induction false} EncodesToValueChars(f: string)
    ensures ValueChars(EncodeKeeping(f, AttrPlain()))
  {
    if f != "" {
      var rest := EncodeKeeping(f[1..], AttrPlain());
      EncodesToValueChars(f[1..]);
      if AttrPlain()(f[0]) { assert ([f[0]] + rest)[1..] == rest; }
      else { EscapesAreValueChars(Utf8.EncodeChar(f[0]), rest); }
    }
  }

  lemma Framed(q: string, head: string, middle: string, mark: string, v: string)
    ensures (head + mark) + (q + mark) + (middle + CHARSET) + v == head + (mark + q + mark) + middle + (CHARSET + v)
  {}

  /** The quoted fallback and the extended value, as they stand in the header. */
  function Fallback(f: string): string {
    "\"" + EscapeQuotes(AsciiFilename(f)) + "\""
  }

  function Extended(f: string): string {
    CHARSET + EscapeMarks(EncodeUriComponent(f))
  }

  lemma FallbackIsQuotedString(f: string, canonical: UnicodeRules)
    requires ValidFilename(f, canonical)
    ensures QuotedString(Fallback(f))
  {
    var a := AsciiFilename(f);
    AsciiKeeps(f, canonical);
    forall c | c in a ensures ' ' <= c <= '~' && c != '\\' {
      var k :| 0 <= k < |a| && a[k] == c;
    }
    EscapesToQuotedText(a);
    assert Fallback(f)[1..|Fallback(f)| - 1] == EscapeQuotes(a);
  }

  lemma ExtendedIsExtValue(f: string)
    ensures ExtValue(Extended(f))
  {
    MarksEncoded(f);
    EncodesToValueChars(f);
    assert Extended(f)[|CHARSET|..] == EscapeMarks(EncodeUriComponent(f));
  }

  /**
   * The header is an attachment with a filename parameter that is a quoted-string, as RFC 6266, section
   * 4.3, asks for clients without extended values, and a filename* parameter that is an ext-value of RFC
   * 8187, section 3.2.
   */
  lemma HeaderFollowsGrammar(f: string, canonical: UnicodeRules)
    requires ValidFilename(f, canonical)
    ensures Format(f, canonical) == Some("attachment; filename=" + Fallback(f) + "; filename*=" + Extended(f))
    ensures QuotedString(Fallback(f)) && ExtValue(Extended(f))
  {
    FallbackIsQuotedString(f, canonical);
    ExtendedIsExtValue(f);
    Framed(EscapeQuotes(AsciiFilename(f)), "attachment; filename=", "; filename*=", "\"",
           EscapeMarks(EncodeUriComponent(f)));
    assert HEAD == "attachment; filename=" + "\"" && MIDDLE == "; filename*=" + CHARSET;
  }

  lemma PrintableJoins(a: string, b: string)
    requires Printable(a) && Printable(b)
    ensures Printable(a + b)
  {}

  lemma EncodedPrintable(f: string)
    requires f != ""
    ensures Printable(EscapeMarks(EncodeUriComponent(f)))
  {
    EncodedName(f);
    var encoded := EscapeMarks(EncodeUriComponent(f));
    forall k | 0 <= k < |encoded| ensures ' ' <= encoded[k] <= '~' { assert encoded[k] in encoded; }
  }

  lemma FourParts(a: string, b: string, c: string, d: string)
    requires Printable(a) && Printable(b) && Printable(c) && Printable(d)
    ensures Printable(a + b + c + d)
  {
    PrintableJoins(a, b);
    PrintableJoins(a + b, c);
    PrintableJoins(a + b + c, d);
  }

  lemma {:induction false} EscapedPrintable(s: string)
    requires Printable(s)
    ensures Printable(EscapeQuotes(s))
  {
    if s != "" {
      EscapedPrintable(s[1..]);
      PrintableJoins(if s[0] == '"' then "\\\"" else [s[0]], EscapeQuotes(s[1..]));
    }
  }

  lemma LiteralsPrintable()
    ensures Printable(HEAD) && Printable(MIDDLE)
  {}

  lemma QuotedPrintable(f: string, canonical: UnicodeRules)
    requires ValidFilename(f, canonical)
    ensures Printable(Quoted(f))
  {
    AsciiKeeps(f, canonical);
    EscapedPrintable(AsciiFilename(f));
    PrintableJoins(EscapeQuotes(AsciiFilename(f)), "\"");
  }

  /** The header is printable ASCII throughout. */
  lemma HeaderIsPrintable(f: string, canonical: UnicodeRules)
    requires ValidFilename(f, canonical)
    ensures Printable(Format(f, canonical).value)
  {
    LiteralsPrintable();
    QuotedPrintable(f, canonical);
    EncodedPrintable(f);
    FourParts(HEAD, Quoted(f), MIDDLE, EscapeMarks(EncodeUriComponent(f)));
  }

  // ----- characters -----

  /** The fallback keeps every ASCII character below 127 and puts an underscore for each other one. */
  lemma FallbackCharacters(f: string, k: nat)
    requires k < |f|
    ensures |AsciiFilename(f)| == |f| && AsciiFilename(f)[k] == if f[k] as int <= 126 then f[k] else '_'
  {}

  lemma {:induction false} QuotesEscapedApart(a: string, b: string)
    ensures EscapeQuotes(a + b) == EscapeQuotes(a) + EscapeQuotes(b)
  {
    if a == "" { assert a + b == b; }
    else {
      assert (a + b)[1..] == a[1..] + b;
      QuotesEscapedApart(a[1..], b);
    }
  }

  /** Nothing but quotation marks is escaped, each with one backslash. */
  lemma {:induction false} QuotesEscaped(a: string)
    ensures '"' !in a ==> EscapeQuotes(a) == a
    ensures EscapeQuotes("\"") == "\\\""
  {
    if a != "" { QuotesEscaped(a[1..]); }
    assert "\""[1..] == "";
  }

  /** The literals of a header may be in either case of their ASCII letters. */
  lemma StartsWithExactly(s: string, literal: string)
    ensures StartsWith(s, literal) <==>
            |literal| <= |s| && forall k :: 0 <= k < |literal| ==>
              || s[k] == literal[k]
              || (97 <= s[k] as int <= 122 && literal[k] as int == s[k] as int - 32)
              || (97 <= literal[k] as int <= 122 && s[k] as int == literal[k] as int - 32)
  {
    if |literal| <= |s| {
      var front := s[..|literal|];
      forall k | 0 <= k < |literal| ensures front[k] == s[k] && Lower(front)[k] == LowerChar(s[k]) {}
      if StartsWith(s, literal) {
        forall k | 0 <= k < |literal| ensures LowerChar(s[k]) == LowerChar(literal[k]) {
          assert Lower(front)[k] == Lower(literal)[k];
        }
      }
    }
  }

  /** `encodeURIComponent` keeps these five marks, which the header escapes. */
  lemma MarksAre(c: char)
    ensures Mark(c) <==> c as int in {33, 39, 40, 41, 42}
    ensures Mark(c) ==> EscapeMarks([c]) == ['%', '2', "0123456789ABCDEF"[c as int % 16]]
  {
    var n := c as int;
    assert c == n as char && [c][1..] == "";
  }

  /** A name a file can be saved under: no separator, no control character, at most 255 bytes. */
  predicate Savable(f: string) {
    && f !in {"", ".", ".."} && |Utf8.Encode(f)| <= 255
    && !IsSpace(f[0]) && !IsSpace(f[|f| - 1])
    && forall k :: 0 <= k < |f| ==>
         f[k] as int >= 32 && !(127 <= f[k] as int <= 159) && f[k] as int !in {47, 92}
  }

  /** A header is printed for exactly the canonical names that can be saved, and parses only to such a name. */
  lemma FormatsExactly(f: string, canonical: UnicodeRules)
    ensures Format(f, canonical).Some? <==> canonical(f) && Savable(f)
    ensures forall value :: Parse(value, canonical) == Some(f) ==> canonical(f) && Savable(f)
  {
    forall c: char ensures (Control(c) || c == '/' || c == '\\') <==>
                           (c as int < 32 || 127 <= c as int <= 159 || c as int in {47, 92}) {
      var n := c as int;
      assert c == n as char;
    }
    forall value | Parse(value, canonical) == Some(f) ensures Format(f, canonical).Some? {
      ParsesExactly(value, f, canonical);
    }
    assert forall k :: 0 <= k < |f| ==> f[k] in f;
  }
}
