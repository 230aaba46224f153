/** `encodeURIComponent` and `decodeURIComponent`. */
module Percent {
  import opened Options
  import opened JsText
  import opened Utf8

  /** The characters `encodeURIComponent` leaves alone. */
  predicate Unreserved(c: char) {
    Letter(c) || Digit(c) || c in {'-', '_', '.', '!', '~', '*', '\'', '(', ')'}
  }

  function HexDigit(n: int): char
    requires 0 <= n < 16
  {
    (if n < 10 then '0' as int + n else 'A' as int + n - 10) as char
  }

  function HexValue(c: char): Option<int> {
    if Digit(c) then Some(c as int - '0' as int)
    else if 'A' <= c <= 'F' then Some(c as int - 'A' as int + 10)
    else if 'a' <= c <= 'f' then Some(c as int - 'a' as int + 10)
    else None
  }

  function Escape(b: Byte): (r: string)
    ensures |r| == 3
  {
    ['%', HexDigit(b / 16), HexDigit(b % 16)]
  }

  function EscapeAll(bytes: seq<Byte>): string {
    if bytes == [] then "" else Escape(bytes[0]) + EscapeAll(bytes[1..])
  }

  /** One character, kept when `plain` allows it. */
  function EncodeOne(c: char, plain: char -> bool): string {
    if plain(c) then [c] else EscapeAll(Utf8.EncodeChar(c))
  }

  function EncodeKeeping(s: string, plain: char -> bool): string {
    if s == "" then "" else EncodeOne(s[0], plain) + EncodeKeeping(s[1..], plain)
  }

  function EncodeUriComponent(s: string): string {
    EncodeKeeping(s, Unreserved)
  }

  /** The byte escaped at the front. */
  function Unescape(t: string): Option<Byte> {
    if |t| >= 3 && t[0] == '%' && HexValue(t[1]).Some? && HexValue(t[2]).Some? then
      Some(HexValue(t[1]).value * 16 + HexValue(t[2]).value)
    else None
  }

  /** The first `n` bytes, each escaped. */
  function UnescapeAll(t: string, n: nat): Option<seq<Byte>> {
    if n == 0 then Some([]) else
    match Unescape(t)
    case None => None
    case Some(b) =>
      match UnescapeAll(t[3..], n - 1)
      case None => None
      case Some(rest) => Some([b] + rest)
  }

  /** `None` where `decodeURIComponent` throws. */
  function DecodeUriComponent(t: string): Option<string>
    decreases |t|
  {
    if t == "" then Some("")
    else if t[0] != '%' then
      match DecodeUriComponent(t[1..])
      case None => None
      case Some(rest) => Some([t[0]] + rest)
    else match Unescape(t)
      case None => None
      case Some(first) =>
        var n := Utf8.Length(first);
        match UnescapeAll(t, n)
        case None => None
        case Some(bytes) =>
          if n == 0 || |t| < 3 * n then None else
          match Utf8.DecodeChar(bytes)
          case None => None
          case Some(c) =>
            match DecodeUriComponent(t[3 * n..])
            case None => None
            case Some(rest) => Some([c] + rest)
  }

  lemma EscapeRoundTrip(b: Byte, rest: string)
    ensures Unescape(Escape(b) + rest) == Some(b)
  {
    assert b == b / 16 * 16 + b % 16;
    assert HexValue(HexDigit(b / 16)) == Some(b / 16) && HexValue(HexDigit(b % 16)) == Some(b % 16);
  }

  lemma {:induction false} EscapeAllRoundTrip(bytes: seq<Byte>, rest: string)
    ensures |EscapeAll(bytes)| == 3 * |bytes|
    ensures UnescapeAll(EscapeAll(bytes) + rest, |bytes|) == Some(bytes)
    ensures bytes != [] ==> EscapeAll(bytes)[0] == '%' && Unescape(EscapeAll(bytes) + rest) == Some(bytes[0])
  {
    if bytes != [] {
      var tail := EscapeAll(bytes[1..]) + rest;
      assert EscapeAll(bytes) + rest == Escape(bytes[0]) + tail;
      EscapeRoundTrip(bytes[0], tail);
      EscapeAllRoundTrip(bytes[1..], rest);
      assert (Escape(bytes[0]) + tail)[3..] == tail;
      assert [bytes[0]] + bytes[1..] == bytes;
    }
  }

  /** Decoding undoes encoding, whatever is kept, as long as the percent sign is not. */
  lemma {:induction false} UriRoundTrip(s: string, plain: char -> bool)
    requires !plain('%')
    ensures DecodeUriComponent(EncodeKeeping(s, plain)) == Some(s)
  {
    if s != "" {
      var rest := EncodeKeeping(s[1..], plain);
      var t := EncodeKeeping(s, plain);
      UriRoundTrip(s[1..], plain);
      assert s == [s[0]] + s[1..];
      if plain(s[0]) {
        assert t[1..] == rest;
      } else {
        var bytes := Utf8.EncodeChar(s[0]);
        EscapeAllRoundTrip(bytes, rest);
        Utf8.CharRoundTrip(s[0]);
        assert t[3 * |bytes|..] == rest;
      }
    }
  }

  /** `t` spells `s`: every character is itself, or its UTF-8 bytes escaped, in either case of hexadecimal. */
  predicate Spells(t: string, s: string)
    decreases |s|
  {
    if s == "" then t == "" else
    var bytes := Utf8.EncodeChar(s[0]);
    || (t != "" && t[0] != '%' && t[0] == s[0] && Spells(t[1..], s[1..]))
    || (|t| >= 3 * |bytes| && t[0] == '%' && UnescapeAll(t, |bytes|) == Some(bytes) && Spells(t[3 * |bytes|..], s[1..]))
  }

  lemma {:induction false} UnescapesInOrder(t: string, n: nat)
    requires UnescapeAll(t, n).Some?
    ensures |UnescapeAll(t, n).value| == n
    ensures n > 0 ==> Unescape(t) == Some(UnescapeAll(t, n).value[0])
  {
    if n > 0 { UnescapesInOrder(t[3..], n - 1); }
  }

  lemma {:induction false} DecodesEscape(t: string, s: string)
    requires t != "" && t[0] == '%' && s != ""
    ensures DecodeUriComponent(t) == Some(s) <==> Spells(t, s)
    decreases |t|, 0
  {
    var bytes := Utf8.EncodeChar(s[0]);
    Utf8.CharRoundTrip(s[0]);
    assert s == [s[0]] + s[1..];
    if |t| >= 3 * |bytes| { DecodesExactly(t[3 * |bytes|..], s[1..]); }
    if DecodeUriComponent(t) == Some(s) {
      var n := Utf8.Length(Unescape(t).value);
      var read := UnescapeAll(t, n).value;
      UnescapesInOrder(t, n);
      Utf8.CharDecodesOnlyItself(read);
      assert read == bytes;
    }
    if Spells(t, s) {
      UnescapesInOrder(t, |bytes|);
    }
  }

  /** Decoding accepts exactly the spellings of a text. */
  lemma {:induction false} DecodesExactly(t: string, s: string)
    ensures DecodeUriComponent(t) == Some(s) <==> Spells(t, s)
    decreases |t|
  {
    if t == "" {
    } else if t[0] != '%' {
      if s != "" {
        DecodesExactly(t[1..], s[1..]);
        assert s == [s[0]] + s[1..];
      }
    } else if s != "" {
      DecodesEscape(t, s);
    }
  }

  lemma EncodeUriInjective(s: string, t: string)
    requires EncodeUriComponent(s) == EncodeUriComponent(t)
    ensures s == t
  {
    UriRoundTrip(s, Unreserved);
    UriRoundTrip(t, Unreserved);
  }

  lemma {:induction false} EscapedAlphabet(bytes: seq<Byte>)
    ensures forall c :: c in EscapeAll(bytes) ==> c == '%' || Digit(c) || 'A' <= c <= 'F'
  {
    if bytes != [] { EscapedAlphabet(bytes[1..]); }
  }

  /** Encoded text is made of kept characters and escapes. */
  lemma {:induction false} EncodedAlphabet(s: string, plain: char -> bool)
    ensures forall c :: c in EncodeKeeping(s, plain) ==> plain(c) || c == '%' || Digit(c) || 'A' <= c <= 'F'
  {
    if s != "" {
      EncodedAlphabet(s[1..], plain);
      if !plain(s[0]) { EscapedAlphabet(Utf8.EncodeChar(s[0])); }
    }
  }

  // ----- how a text is encoded -----

  lemma {:induction false} EncodesPiecewise(s: string, t: string, plain: char -> bool)
    ensures EncodeKeeping(s + t, plain) == EncodeKeeping(s, plain) + EncodeKeeping(t, plain)
  {
    if s == "" { assert s + t == t; }
    else {
      assert (s + t)[1..] == s[1..] + t;
      EncodesPiecewise(s[1..], t, plain);
    }
  }

  lemma {:induction false} KeepsPlainText(s: string, plain: char -> bool)
    requires forall c :: c in s ==> plain(c)
    ensures EncodeKeeping(s, plain) == s
  {
    if s != "" {
      KeepsPlainText(s[1..], plain);
      assert s == [s[0]] + s[1..] && s[0] in s;
    }
  }

  /** Each byte is a percent sign and two digits, in upper case. */
  lemma {:induction false} EscapesEachByte(bytes: seq<Byte>, k: nat)
    requires k < |bytes|
    ensures |EscapeAll(bytes)| == 3 * |bytes|
    ensures EscapeAll(bytes)[3 * k..3 * k + 3]
            == ['%', "0123456789ABCDEF"[bytes[k] / 16], "0123456789ABCDEF"[bytes[k] % 16]]
  {
    EscapeAllRoundTrip(bytes, "");
    if k > 0 {
      EscapesEachByte(bytes[1..], k - 1);
      assert EscapeAll(bytes)[3 * k..3 * k + 3] == EscapeAll(bytes[1..])[3 * (k - 1)..3 * (k - 1) + 3];
    }
  }

  /** A character that is not kept becomes the escapes of its UTF-8 bytes. */
  lemma EscapesOthers(c: char, plain: char -> bool, k: nat)
    requires !plain(c) && k < |Utf8.EncodeChar(c)|
    ensures var b, t := Utf8.EncodeChar(c)[k], EncodeKeeping([c], plain);
            && |t| == 3 * |Utf8.EncodeChar(c)|
            && t[3 * k..3 * k + 3] == ['%', "0123456789ABCDEF"[b / 16], "0123456789ABCDEF"[b % 16]]
  {
    EscapesEachByte(Utf8.EncodeChar(c), k);
    assert EncodeKeeping([c], plain) == EscapeAll(Utf8.EncodeChar(c)) + "";
  }

  /** `encodeURIComponent` keeps letters, digits and nine marks, by code point. */
  lemma UnreservedAre(c: char)
    ensures Unreserved(c) <==>
            || 65 <= c as int <= 90 || 97 <= c as int <= 122 || 48 <= c as int <= 57
            || c as int in {33, 39, 40, 41, 42, 45, 46, 95, 126}
  {
    var n := c as int;
    assert c == n as char;
  }

  /** Either case of a hexadecimal digit is read, and nothing else. */
  lemma HexDigitsRead(c: char, n: int)
    ensures HexValue(c) == Some(n) <==>
            0 <= n < 16 && (c == "0123456789ABCDEF"[n] || c == "0123456789abcdef"[n])
  {}
}
