/** JavaScript's white space, and the trimming built on it. */
module JsText {

  predicate IsSpace(c: char) {
    || '\t' <= c <= '\r' || c == ' ' || c == '\U{00A0}' || c == '\U{1680}'
    || '\U{2000}' <= c <= '\U{200A}' || c in {'\U{2028}', '\U{2029}', '\U{202F}', '\U{205F}', '\U{3000}', '\U{FEFF}'}
  }

  predicate Digit(c: char) { '0' <= c <= '9' }

  predicate Letter(c: char) { 'a' <= c <= 'z' || 'A' <= c <= 'Z' }

  predicate HexLower(c: char) { Digit(c) || 'a' <= c <= 'f' }

  function TrimStart(s: string): string {
    if s != "" && IsSpace(s[0]) then TrimStart(s[1..]) else s
  }

  function TrimEnd(s: string): string {
    if s != "" && IsSpace(s[|s| - 1]) then TrimEnd(s[..|s| - 1]) else s
  }

  function Trim(s: string): string {
    TrimEnd(TrimStart(s))
  }

  predicate Trimmed(s: string) {
    s == "" || (!IsSpace(s[0]) && !IsSpace(s[|s| - 1]))
  }

  predicate AllSpace(s: string) {
    forall c :: c in s ==> IsSpace(c)
  }

  lemma {:induction false} TrimStartSplits(s: string) returns (space: string)
    ensures s == space + TrimStart(s) && AllSpace(space)
    ensures TrimStart(s) == "" || !IsSpace(TrimStart(s)[0])
  {
    space := "";
    if s != "" && IsSpace(s[0]) {
      var rest := TrimStartSplits(s[1..]);
      space := [s[0]] + rest;
    }
  }

  lemma {:induction false} TrimEndSplits(s: string) returns (space: string)
    ensures s == TrimEnd(s) + space && AllSpace(space)
    ensures TrimEnd(s) == "" || !IsSpace(TrimEnd(s)[|TrimEnd(s)| - 1])
    decreases |s|
  {
    space := "";
    if s != "" && IsSpace(s[|s| - 1]) {
      var rest := TrimEndSplits(s[..|s| - 1]);
      space := rest + [s[|s| - 1]];
    }
  }

  /** Trimming cuts white space off both ends and leaves none there. */
  lemma TrimSplits(s: string) returns (before: string, after: string)
    ensures s == before + Trim(s) + after && AllSpace(before) && AllSpace(after) && Trimmed(Trim(s))
  {
    before := TrimStartSplits(s);
    after := TrimEndSplits(TrimStart(s));
  }

  lemma {:induction false} TrimStartSkips(space: string, s: string)
    requires AllSpace(space)
    ensures TrimStart(space + s) == TrimStart(s)
  {
    if space == "" { assert space + s == s; }
    else {
      assert (space + s)[1..] == space[1..] + s && space[0] in space;
      TrimStartSkips(space[1..], s);
    }
  }

  /** Only the trimmed middle of a string can be what trimming leaves. */
  lemma TrimmedIsFixed(s: string)
    ensures Trimmed(s) <==> Trim(s) == s
  {
    var before, after := TrimSplits(s);
    if Trimmed(s) && s != "" { assert TrimStart(s) == s; }
  }

  /** The character classes, by code point. */
  lemma ClassesAre(c: char)
    ensures Digit(c) <==> 48 <= c as int <= 57
    ensures HexLower(c) <==> 48 <= c as int <= 57 || 97 <= c as int <= 102
    ensures Letter(c) <==> 65 <= c as int <= 90 || 97 <= c as int <= 122
    ensures IsSpace(c) <==>
            c as int in {9, 10, 11, 12, 13, 32, 0xA0, 0x1680, 0x2000, 0x2001, 0x2002, 0x2003, 0x2004, 0x2005, 0x2006,
                         0x2007, 0x2008, 0x2009, 0x200A, 0x2028, 0x2029, 0x202F, 0x205F, 0x3000, 0xFEFF}
  {
    var n := c as int;
    assert c == n as char;
  }
}
