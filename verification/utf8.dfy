/** UTF-8 as a prefix code on characters, and the byte order of encoded strings. */
module Utf8 {
  import opened Options

  type Byte = x: int | 0 <= x < 0x100

  function EncodeChar(c: char): (r: seq<Byte>)
    ensures 1 <= |r| <= 4
  {
    var n := c as int;
    if n < 0x80 then [n]
    else if n < 0x800 then [0xC0 + n / 64, 0x80 + n % 64]
    else if n < 0x1_0000 then [0xE0 + n / 64 / 64, 0x80 + n / 64 % 64, 0x80 + n % 64]
    else [0xF0 + n / 64 / 64 / 64, 0x80 + n / 64 / 64 % 64, 0x80 + n / 64 % 64, 0x80 + n % 64]
  }

  function Encode(s: string): seq<Byte> {
    if s == "" then [] else EncodeChar(s[0]) + Encode(s[1..])
  }

  /** How many bytes the character whose first byte is `b` takes; 0 when none starts with `b`. */
  function Length(b: Byte): (n: nat)
    ensures n <= 4
  {
    if b < 0x80 then 1 else if b < 0xC0 then 0 else if b < 0xE0 then 2
    else if b < 0xF0 then 3 else if b < 0xF8 then 4 else 0
  }

  predicate Continuation(b: Byte) { 0x80 <= b < 0xC0 }

  /** The bits of `b` below its marker. */
  function Bits(b: Byte, marker: int): int { (b as int) - marker }

  /** The number a sequence of one to four bytes spells. */
  function Scalar(bytes: seq<Byte>): int
    requires 1 <= |bytes| <= 4
  {
    match |bytes|
    case 1 => Bits(bytes[0], 0)
    case 2 => Bits(bytes[0], 0xC0) * 64 + Bits(bytes[1], 0x80)
    case 3 => (Bits(bytes[0], 0xE0) * 64 + Bits(bytes[1], 0x80)) * 64 + Bits(bytes[2], 0x80)
    case _ =>
      ((Bits(bytes[0], 0xF0) * 64 + Bits(bytes[1], 0x80)) * 64 + Bits(bytes[2], 0x80)) * 64 + Bits(bytes[3], 0x80)
  }

  /** The character encoded by exactly these bytes: overlong forms, surrogates and values too large are refused. */
  function DecodeChar(bytes: seq<Byte>): Option<char> {
    if bytes == [] || Length(bytes[0]) != |bytes| then None
    else if exists k :: 1 <= k < |bytes| && !Continuation(bytes[k]) then None else
    var n := Scalar(bytes);
    var least := match |bytes| case 1 => 0 case 2 => 0x80 case 3 => 0x800 case _ => 0x1_0000;
    if n < least || 0xD800 <= n < 0xE000 || n >= 0x11_0000 then None else Some(n as char)
  }

  lemma CharRoundTrip(c: char)
    ensures DecodeChar(EncodeChar(c)) == Some(c)
    ensures Length(EncodeChar(c)[0]) == |EncodeChar(c)|
  {
    var n := c as int;
    var m := n / 64;
    assert n == m * 64 + n % 64 && m == m / 64 * 64 + m % 64;
    assert m / 64 == m / 64 / 64 * 64 + m / 64 % 64;
  }

  lemma SixBits(high: int, low: int)
    ensures 0 <= low < 64 ==> (high * 64 + low) / 64 == high && (high * 64 + low) % 64 == low
  {}

  /** No byte string but a character's own encoding decodes to it. */
  lemma CharDecodesOnlyItself(bytes: seq<Byte>)
    requires DecodeChar(bytes).Some?
    ensures EncodeChar(DecodeChar(bytes).value) == bytes
  {
    if |bytes| == 2 {
      SixBits(Bits(bytes[0], 0xC0), Bits(bytes[1], 0x80));
    } else if |bytes| == 3 {
      var high := Bits(bytes[0], 0xE0) * 64 + Bits(bytes[1], 0x80);
      SixBits(high, Bits(bytes[2], 0x80));
      SixBits(Bits(bytes[0], 0xE0), Bits(bytes[1], 0x80));
    } else if |bytes| == 4 {
      var high := Bits(bytes[0], 0xF0) * 64 + Bits(bytes[1], 0x80);
      SixBits(high * 64 + Bits(bytes[2], 0x80), Bits(bytes[3], 0x80));
      SixBits(high, Bits(bytes[2], 0x80));
      SixBits(Bits(bytes[0], 0xF0), Bits(bytes[1], 0x80));
    }
  }

  lemma {:induction false} EncodeInjective(s: string, t: string)
    ensures Encode(s) == Encode(t) ==> s == t
  {
    if s == "" || t == "" { return; }
    var a, b := EncodeChar(s[0]), EncodeChar(t[0]);
    CharRoundTrip(s[0]);
    CharRoundTrip(t[0]);
    EncodeInjective(s[1..], t[1..]);
    if Encode(s) == Encode(t) {
      assert a[0] == Encode(s)[0] == b[0];
      assert a == Encode(s)[..|a|] && b == Encode(t)[..|b|];
      assert Encode(s[1..]) == Encode(s)[|a|..] && Encode(t[1..]) == Encode(t)[|b|..];
    }
  }

  // ----- byte order -----

  predicate LexLe(a: seq<Byte>, b: seq<Byte>) {
    a == [] || (b != [] && (a[0] < b[0] || (a[0] == b[0] && LexLe(a[1..], b[1..]))))
  }

  lemma {:induction false} LexTotal(a: seq<Byte>, b: seq<Byte>)
    ensures LexLe(a, b) || LexLe(b, a)
    ensures LexLe(a, b) && LexLe(b, a) ==> a == b
  {
    if a != [] && b != [] {
      LexTotal(a[1..], b[1..]);
      assert a == [a[0]] + a[1..] && b == [b[0]] + b[1..];
    }
  }

  lemma {:induction false} LexTransitive(a: seq<Byte>, b: seq<Byte>, c: seq<Byte>)
    requires LexLe(a, b) && LexLe(b, c)
    ensures LexLe(a, c)
  {
    if a != [] && a[0] == b[0] && b[0] == c[0] { LexTransitive(a[1..], b[1..], c[1..]); }
  }

  /** A common prefix does not decide the order. */
  lemma {:induction false} LexPrefix(p: seq<Byte>, a: seq<Byte>, b: seq<Byte>)
    ensures LexLe(p + a, p + b) <==> LexLe(a, b)
  {
    if p == [] { assert p + a == a && p + b == b; }
    else {
      assert (p + a)[1..] == p[1..] + a && (p + b)[1..] == p[1..] + b;
      LexPrefix(p[1..], a, b);
    }
  }

  /** Two byte strings that agree up to `i` are ordered by what follows. */
  lemma Differ(a: seq<Byte>, b: seq<Byte>, i: nat)
    requires i <= |a| && i <= |b| && a[..i] == b[..i]
    ensures LexLe(a, b) <==> LexLe(a[i..], b[i..])
    ensures LexLe(b, a) <==> LexLe(b[i..], a[i..])
    ensures a == b <==> a[i..] == b[i..]
  {
    assert a == a[..i] + a[i..] && b == b[..i] + b[i..];
    LexPrefix(a[..i], a[i..], b[i..]);
    LexPrefix(a[..i], b[i..], a[i..]);
  }

  /** `a` is a prefix of `b`, or smaller in the first byte that differs. */
  lemma {:induction false} LexMeans(a: seq<Byte>, b: seq<Byte>)
    ensures LexLe(a, b) <==> a <= b || exists i :: 0 <= i < |a| && i < |b| && a[..i] == b[..i] && a[i] < b[i]
    decreases |a|
  {
    if a != [] && b != [] && a[0] == b[0] {
      LexMeans(a[1..], b[1..]);
      assert a == [a[0]] + a[1..] && b == [b[0]] + b[1..];
      if i :| 0 <= i < |a| && i < |b| && a[..i] == b[..i] && a[i] < b[i] {
        assert a[1..][..i - 1] == a[..i][1..] && b[1..][..i - 1] == b[..i][1..];
        assert a[1..][i - 1] < b[1..][i - 1];
      }
      if i :| 0 <= i < |a[1..]| && i < |b[1..]| && a[1..][..i] == b[1..][..i] && a[1..][i] < b[1..][i] {
        assert a[..i + 1] == [a[0]] + a[1..][..i] && b[..i + 1] == [b[0]] + b[1..][..i];
        assert a[i + 1] < b[i + 1];
      }
    } else if a != [] && b != [] && a[0] < b[0] {
      assert a[..0] == b[..0];
    }
  }

  /** The comparator of two strings' bytes: its sign is their lexicographic order, and 0 is equality. */
  method CompareBytes(a: seq<Byte>, b: seq<Byte>) returns (r: int)
    ensures r <= 0 <==> LexLe(a, b)
    ensures r >= 0 <==> LexLe(b, a)
    ensures r == 0 <==> a == b
  {
    var len := if |a| < |b| then |a| else |b|;
    for i := 0 to len
      invariant a[..i] == b[..i]
    {
      if a[i] != b[i] {
        Differ(a, b, i);
        return Bits(a[i], b[i]);
      }
      assert a[..i + 1] == a[..i] + [a[i]] && b[..i + 1] == b[..i] + [b[i]];
    }
    Differ(a, b, len);
    return |a| - |b|;
  }

  // ----- byte order is the order of code points -----

  predicate CodePointsLe(s: string, t: string) {
    s == "" || (t != "" && (s[0] as int < t[0] as int || (s[0] == t[0] && CodePointsLe(s[1..], t[1..]))))
  }

  lemma HighAndLow(n: nat, m: nat)
    requires n < m
    ensures n / 64 < m / 64 || (n / 64 == m / 64 && n % 64 < m % 64)
  {}

  lemma FewBytesFirst(c: char, d: char)
    requires |EncodeChar(c)| < |EncodeChar(d)|
    ensures EncodeChar(c)[0] < EncodeChar(d)[0]
  {}

  lemma SmallerCharSmallerBytes(c: char, d: char) returns (i: nat)
    requires c as int < d as int
    ensures var a, b := EncodeChar(c), EncodeChar(d); i < |a| && i < |b| && a[..i] == b[..i] && a[i] < b[i]
  {
    var n, m := c as int, d as int;
    var a, b := EncodeChar(c), EncodeChar(d);
    HighAndLow(n, m);
    if n / 64 < m / 64 { HighAndLow(n / 64, m / 64); }
    if n / 64 / 64 < m / 64 / 64 { HighAndLow(n / 64 / 64, m / 64 / 64); }
    if |a| < |b| {
      FewBytesFirst(c, d);
      return 0;
    }
    i := if a[0] < b[0] then 0 else if a[1] < b[1] then 1 else if a[2] < b[2] then 2 else 3;
  }

  lemma LexFromDifference(a: seq<Byte>, x: seq<Byte>, b: seq<Byte>, y: seq<Byte>, i: nat)
    requires i < |a| && i < |b| && a[..i] == b[..i] && a[i] < b[i]
    ensures LexLe(a + x, b + y) && !LexLe(b + y, a + x)
  {
    assert (a + x)[..i] == a[..i] && (b + y)[..i] == b[..i];
    Differ(a + x, b + y, i);
  }

  /** Comparing encoded bytes is comparing code points. */
  lemma {:induction false} ByteOrderIsCodePointOrder(s: string, t: string)
    ensures LexLe(Encode(s), Encode(t)) <==> CodePointsLe(s, t)
  {
    if s != "" && t != "" {
      var a, b := EncodeChar(s[0]), EncodeChar(t[0]);
      if s[0] == t[0] {
        ByteOrderIsCodePointOrder(s[1..], t[1..]);
        LexPrefix(a, Encode(s[1..]), Encode(t[1..]));
      } else if s[0] as int < t[0] as int {
        var i := SmallerCharSmallerBytes(s[0], t[0]);
        LexFromDifference(a, Encode(s[1..]), b, Encode(t[1..]), i);
      } else {
        var i := SmallerCharSmallerBytes(t[0], s[0]);
        LexFromDifference(b, Encode(t[1..]), a, Encode(s[1..]), i);
      }
    }
  }

  /** One character of each length, as RFC 3629, section 7, prints such sequences. */
  lemma EncodedSamples()
    ensures EncodeChar('A') == [0x41] && EncodeChar('\U{391}') == [0xCE, 0x91]
    ensures EncodeChar('\U{2262}') == [0xE2, 0x89, 0xA2] && EncodeChar('\U{233B4}') == [0xF0, 0xA3, 0x8E, 0xB4]
  {
    assert 'A' as int == 0x41 && '\U{391}' as int == 0x391;
    assert '\U{2262}' as int == 0x2262 && '\U{233B4}' as int == 0x233B4;
  }
}
