/**
 * The `sig1` request signature: the canonical string it covers, the header that carries it, and its
 * verification. The keyed hash is an arbitrary function to 32 bytes.
 */
module ServiceAuth {
  import opened Options
  import opened JsText
  import Utf8
  import opened Delimited
  import opened CanonicalQuery

  const SIG1_PREFIX := "sig1"
  const TOKEN_VALIDITY_MS := 300_000
  const MAX_EXACT := 9_007_199_254_740_992

  type Mac = (string, string) -> seq<Utf8.Byte>

  ghost predicate Digests(mac: Mac) {
    forall data, secret :: |mac(data, secret)| == 32
  }

  /** What the signature covers, besides the timestamp and the nonce. */
  datatype Request = Request(service: string, verb: string, pathname: string, query: seq<Entry>,
                             bodySha256Hex: string, actor: string)

  // ----- numbers and bytes as text -----

  function DigitOf(n: nat): char
    requires n < 10
  {
    ('0' as int + n) as char
  }

  function Decimal(n: nat): string {
    if n < 10 then [DigitOf(n)] else Decimal(n / 10) + [DigitOf(n % 10)]
  }

  predicate AllDigits(s: string) {
    forall c :: c in s ==> Digit(c)
  }

  function Value(s: string): nat
    requires AllDigits(s)
  {
    if s == "" then 0 else
    assert Digit(s[|s| - 1]);
    Value(s[..|s| - 1]) * 10 + (s[|s| - 1] as int - '0' as int)
  }

  /** The double nearest to an integer of at most sixteen digits, ties to the even mantissa. */
  function ToNumber(n: nat): nat {
    if n <= MAX_EXACT || n % 2 == 0 then n else if n % 4 == 1 then n - 1 else n + 1
  }

  function Abs(x: int): nat { if x < 0 then -x else x }

  /** No double of this size is nearer, and of two equally near ones it is the one with the even mantissa. */
  lemma NearestDouble(n: nat, double: nat)
    requires n <= 2 * MAX_EXACT && (double <= MAX_EXACT || double % 2 == 0)
    ensures ToNumber(n) <= MAX_EXACT || ToNumber(n) % 2 == 0
    ensures Abs(n - ToNumber(n)) <= Abs(n - double)
    ensures Abs(n - ToNumber(n)) == Abs(n - double) && double != ToNumber(n) ==> ToNumber(n) % 4 == 0
  {}

  function HexOf(n: nat): char
    requires n < 16
  {
    (if n < 10 then '0' as int + n else 'a' as int + n - 10) as char
  }

  function BytesToHex(bytes: seq<Utf8.Byte>): string {
    if bytes == [] then "" else [HexOf(bytes[0] / 16), HexOf(bytes[0] % 16)] + BytesToHex(bytes[1..])
  }

  predicate AllHex(s: string) {
    forall c :: c in s ==> HexLower(c)
  }

  function UpperChar(c: char): char {
    if 'a' <= c <= 'z' then (c as int - 'a' as int + 'A' as int) as char else c
  }

  function Upper(s: string): string {
    seq(|s|, k requires 0 <= k < |s| => UpperChar(s[k]))
  }

  lemma {:induction false} DecimalRoundTrip(n: nat)
    ensures AllDigits(Decimal(n)) && Value(Decimal(n)) == n
    ensures 1 <= |Decimal(n)|
  {
    var d := Decimal(n);
    if n >= 10 {
      DecimalRoundTrip(n / 10);
      assert d[..|d| - 1] == Decimal(n / 10);
    } else {
      assert d[..0] == "";
    }
  }

  /** The digits of a number, by place. */
  lemma {:induction false} ValueByPlace(s: string, d: char)
    requires AllDigits(s) && '0' <= d <= '9'
    ensures AllDigits(s + [d]) && Value(s + [d]) == 10 * Value(s) + (d as int - 48)
  {
    assert (s + [d])[..|s|] == s;
  }

  function Power10(k: nat): nat {
    if k == 0 then 1 else 10 * Power10(k - 1)
  }

  lemma {:induction false} DecimalLength(n: nat, k: nat)
    requires k >= 1 && n < Power10(k)
    ensures |Decimal(n)| <= k
  {
    if n >= 10 { DecimalLength(n / 10, k - 1); }
  }

  lemma {:induction false} HexShape(bytes: seq<Utf8.Byte>)
    ensures |BytesToHex(bytes)| == 2 * |bytes| && AllHex(BytesToHex(bytes))
  {
    if bytes != [] { HexShape(bytes[1..]); }
  }

  /** Each byte is two lower-case digits, the high one first. */
  lemma {:induction false} HexOfEachByte(bytes: seq<Utf8.Byte>, k: nat)
    requires k < |bytes|
    ensures |BytesToHex(bytes)| == 2 * |bytes|
    ensures BytesToHex(bytes)[2 * k..2 * k + 2]
            == ["0123456789abcdef"[bytes[k] / 16], "0123456789abcdef"[bytes[k] % 16]]
  {
    HexShape(bytes);
    if k > 0 {
      HexOfEachByte(bytes[1..], k - 1);
      assert BytesToHex(bytes)[2 * k..2 * k + 2] == BytesToHex(bytes[1..])[2 * (k - 1)..2 * (k - 1) + 2];
    }
  }

  /** Upper-casing moves the 26 ASCII letters by 32 and leaves every other character alone. */
  lemma UpperMoves(s: string, k: nat)
    requires k < |s|
    ensures |Upper(s)| == |s|
    ensures Upper(s)[k] as int == if 97 <= s[k] as int <= 122 then s[k] as int - 32 else s[k] as int
  {}

  lemma SameHexSameByte(x: Utf8.Byte, y: Utf8.Byte)
    ensures HexOf(x / 16) == HexOf(y / 16) && HexOf(x % 16) == HexOf(y % 16) ==> x == y
  {
    assert x == x / 16 * 16 + x % 16 && y == y / 16 * 16 + y % 16;
  }

  lemma {:induction false} HexInjective(a: seq<Utf8.Byte>, b: seq<Utf8.Byte>)
    requires BytesToHex(a) == BytesToHex(b)
    ensures a == b
  {
    HexShape(a);
    HexShape(b);
    if a != [] {
      var s := BytesToHex(a);
      assert s[2..] == BytesToHex(a[1..]) && s[2..] == BytesToHex(b[1..]);
      HexInjective(a[1..], b[1..]);
      assert s[0] == HexOf(a[0] / 16) == HexOf(b[0] / 16) && s[1] == HexOf(a[0] % 16) == HexOf(b[0] % 16);
      SameHexSameByte(a[0], b[0]);
      assert a == [a[0]] + a[1..] && b == [b[0]] + b[1..];
    }
  }

  lemma SameHexSameBytes(a: seq<Utf8.Byte>, b: seq<Utf8.Byte>)
    ensures BytesToHex(a) == BytesToHex(b) <==> a == b
  {
    if BytesToHex(a) == BytesToHex(b) { HexInjective(a, b); }
  }

  // ----- the canonical string -----

  function Fields(p: Request, timestampMs: nat, nonce: string): seq<string> {
    [SIG1_PREFIX, p.service, Decimal(timestampMs), nonce, Upper(p.verb), p.pathname,
     CanonicalizeQuery(p.query), p.bodySha256Hex, p.actor]
  }

  function CanonicalString(p: Request, timestampMs: nat, nonce: string): string {
    Join(Fields(p, timestampMs, nonce), '\n')
  }

  /** Every field before the actor is one line. The query's canonical form always is. */
  predicate OneLineEach(p: Request, nonce: string) {
    '\n' !in p.service && '\n' !in nonce && '\n' !in p.verb && '\n' !in p.pathname && '\n' !in p.bodySha256Hex
  }

  lemma FieldsAreFree(p: Request, timestampMs: nat, nonce: string)
    requires OneLineEach(p, nonce)
    ensures Free(Fields(p, timestampMs, nonce), 8, '\n')
  {
    DecimalRoundTrip(timestampMs);
    CanonicalQueryIsOneLine(p.query);
    forall k | 0 <= k < |p.verb| ensures Upper(p.verb)[k] != '\n' { assert p.verb[k] in p.verb; }
  }

  /** A field on a line of its own. */
  function Line(field: string, rest: string): string {
    field + "\n" + rest
  }

  lemma FirstLine(fields: seq<string>)
    requires |fields| > 1
    ensures Join(fields, '\n') == Line(fields[0], Join(fields[1..], '\n'))
  {}

  /** What is signed: the version, then each field on a line of its own, and the actor last, even when empty. */
  lemma CanonicalLayout(p: Request, timestampMs: nat, nonce: string)
    ensures CanonicalString(p, timestampMs, nonce) ==
            Line("sig1", Line(p.service, Line(Decimal(timestampMs), Line(nonce, Line(Upper(p.verb), Line(p.pathname,
              Line(CanonicalizeQuery(p.query), Line(p.bodySha256Hex, p.actor))))))))
  {
    var f := Fields(p, timestampMs, nonce);
    forall k | 0 <= k < 8 ensures Join(f[k..], '\n') == Line(f[k], Join(f[k + 1..], '\n')) {
      FirstLine(f[k..]);
      assert f[k..][1..] == f[k + 1..];
    }
    assert f[0..] == f && f[8..] == [p.actor];
    assert Join(f, '\n') == Line(f[0], Join(f[1..], '\n'));
    assert Join(f[1..], '\n') == Line(f[1], Join(f[2..], '\n'));
    assert Join(f[2..], '\n') == Line(f[2], Join(f[3..], '\n'));
    assert Join(f[3..], '\n') == Line(f[3], Join(f[4..], '\n'));
    assert Join(f[4..], '\n') == Line(f[4], Join(f[5..], '\n'));
    assert Join(f[5..], '\n') == Line(f[5], Join(f[6..], '\n'));
    assert Join(f[6..], '\n') == Line(f[6], Join(f[7..], '\n'));
    assert Join(f[7..], '\n') == Line(f[7], Join(f[8..], '\n'));
  }

  /**
   * Two requests are signed alike exactly when every signed field agrees, the method up to case and the
   * query up to the order of its entries.
   */
  lemma CanonicalStringsAgree(p: Request, pTime: nat, pNonce: string, q: Request, qTime: nat, qNonce: string)
    requires OneLineEach(p, pNonce) && OneLineEach(q, qNonce) && NulFree(p.query) && NulFree(q.query)
    ensures CanonicalString(p, pTime, pNonce) == CanonicalString(q, qTime, qNonce) <==>
            && p.service == q.service && pTime == qTime && pNonce == qNonce && Upper(p.verb) == Upper(q.verb)
            && p.pathname == q.pathname && multiset(p.query) == multiset(q.query)
            && p.bodySha256Hex == q.bodySha256Hex && p.actor == q.actor
  {
    var a, b := Fields(p, pTime, pNonce), Fields(q, qTime, qNonce);
    CanonicalFormsAgree(p.query, q.query);
    DecimalRoundTrip(pTime);
    DecimalRoundTrip(qTime);
    FieldsAreFree(p, pTime, pNonce);
    FieldsAreFree(q, qTime, qNonce);
    if Join(a, '\n') == Join(b, '\n') {
      JoinInjective(a, b, '\n');
      assert a[1] == b[1] && a[2] == b[2] && a[3] == b[3] && a[4] == b[4];
      assert a[5] == b[5] && a[6] == b[6] && a[7] == b[7] && a[8] == b[8];
    }
  }

  // ----- the header -----

  function Sign(p: Request, secret: string, timestampMs: nat, nonce: string, mac: Mac): string {
    BytesToHex(mac(CanonicalString(p, timestampMs, nonce), secret))
  }

  datatype Headers = Headers(service: string, signature: string, actor: Option<string>, traceId: Option<string>)

  function SignatureHeader(timestamp: string, nonce: string, signature: string): string {
    Join([SIG1_PREFIX, timestamp, nonce, signature], '.')
  }

  /** An actor header is sent only when an actor is asserted. */
  function BuildHeaders(p: Request, secret: string, timestampMs: nat, nonceBytes: seq<Utf8.Byte>, traceId: string,
                        mac: Mac): Headers {
    var nonce := BytesToHex(nonceBytes);
    Headers(p.service, SignatureHeader(Decimal(timestampMs), nonce, Sign(p, secret, timestampMs, nonce, mac)),
            if p.actor == "" then None else Some(p.actor), if traceId == "" then None else Some(traceId))
  }

  datatype Failure = Format | Expired | Mismatch

  datatype Parsed = Parsed(timestampMs: nat, nonce: string, signature: string)

  function ParseSignatureHeader(header: string, nowMs: int): Result<Parsed, Failure> {
    var parts := Split(header, '.');
    if |parts| != 4 || parts[0] != SIG1_PREFIX then Err(Format)
    else if !(1 <= |parts[1]| <= 16 && AllDigits(parts[1])) then Err(Format)
    else var timestampMs := ToNumber(Value(parts[1]));
         if timestampMs == 0 then Err(Format)
         else if !(1 <= |parts[2]| <= 64 && AllHex(parts[2]) && |parts[3]| == 64 && AllHex(parts[3])) then Err(Format)
         else if Abs(nowMs - timestampMs) > TOKEN_VALIDITY_MS then Err(Expired)
         else Ok(Parsed(timestampMs, parts[2], parts[3]))
  }

  function VerifySignature(header: string, p: Request, secret: string, nowMs: int, mac: Mac)
    : Result<(nat, string), Failure>
  {
    match ParseSignatureHeader(header, nowMs)
    case Err(e) => Err(e)
    case Ok(parsed) =>
      if parsed.signature != Sign(p, secret, parsed.timestampMs, parsed.nonce, mac) then Err(Mismatch)
      else Ok((parsed.timestampMs, parsed.nonce))
  }

  /** What the header's grammar allows: four parts, and a timestamp that is not zero. */
  predicate WellFormed(timestamp: string, nonce: string, signature: string) {
    && 1 <= |timestamp| <= 16 && (forall c :: c in timestamp ==> '0' <= c <= '9') && AllDigits(timestamp)
    && ToNumber(Value(timestamp)) > 0
    && 1 <= |nonce| <= 64 && (forall c :: c in nonce ==> '0' <= c <= '9' || 'a' <= c <= 'f')
    && |signature| == 64 && (forall c :: c in signature ==> '0' <= c <= '9' || 'a' <= c <= 'f')
  }

  lemma Dotted(a: string, b: string, c: string, d: string)
    ensures Join([a, b, c, d], '.') == a + "." + b + "." + c + "." + d
  {
    assert [a, b, c, d][1..] == [b, c, d] && [b, c, d][1..] == [c, d] && [c, d][1..] == [d];
    assert c + "." + d == Join([c, d], '.');
    assert a + "." + (b + "." + (c + "." + d)) == a + "." + b + "." + c + "." + d;
  }

  lemma HeaderLayout(timestamp: string, nonce: string, signature: string)
    ensures SignatureHeader(timestamp, nonce, signature) == "sig1." + timestamp + "." + nonce + "." + signature
  {
    Dotted(SIG1_PREFIX, timestamp, nonce, signature);
    assert SIG1_PREFIX + "." == "sig1.";
  }

  lemma HeaderSplits(timestamp: string, nonce: string, signature: string)
    requires WellFormed(timestamp, nonce, signature)
    ensures Split(SignatureHeader(timestamp, nonce, signature), '.') == [SIG1_PREFIX, timestamp, nonce, signature]
  {
    SplitUndoesJoin([SIG1_PREFIX, timestamp, nonce, signature], '.');
  }

  /** Parsing undoes printing while the timestamp is fresh, and refuses exactly the other headers. */
  lemma ParseAcceptsExactly(header: string, nowMs: int, parsed: Parsed)
    ensures ParseSignatureHeader(header, nowMs) == Ok(parsed) <==>
            exists timestamp :: WellFormed(timestamp, parsed.nonce, parsed.signature)
                                && header == "sig1." + timestamp + "." + parsed.nonce + "." + parsed.signature
                                && parsed.timestampMs == ToNumber(Value(timestamp))
                                && -300_000 <= nowMs - parsed.timestampMs <= 300_000
  {
    if ParseSignatureHeader(header, nowMs) == Ok(parsed) {
      var parts := Split(header, '.');
      JoinUndoesSplit(header, '.');
      assert parts == [SIG1_PREFIX, parts[1], parsed.nonce, parsed.signature];
      HeaderLayout(parts[1], parsed.nonce, parsed.signature);
      assert WellFormed(parts[1], parsed.nonce, parsed.signature);
    }
    if timestamp :| WellFormed(timestamp, parsed.nonce, parsed.signature)
                    && header == "sig1." + timestamp + "." + parsed.nonce + "." + parsed.signature
                    && parsed.timestampMs == ToNumber(Value(timestamp))
                    && -300_000 <= nowMs - parsed.timestampMs <= 300_000 {
      HeaderLayout(timestamp, parsed.nonce, parsed.signature);
      HeaderSplits(timestamp, parsed.nonce, parsed.signature);
    }
  }

  lemma ParseWellFormed(timestamp: string, nonce: string, signature: string, nowMs: int)
    requires WellFormed(timestamp, nonce, signature)
    ensures var t := ToNumber(Value(timestamp));
            ParseSignatureHeader(SignatureHeader(timestamp, nonce, signature), nowMs)
              == if nowMs - t > 300_000 || t - nowMs > 300_000 then Err(Expired) else Ok(Parsed(t, nonce, signature))
  {
    HeaderSplits(timestamp, nonce, signature);
  }

  /** A header is refused for its form exactly when it is no printing of well-formed parts, and else for its age. */
  lemma ParseRefusesExactly(header: string, nowMs: int)
    ensures ParseSignatureHeader(header, nowMs) == Err(Format) <==>
            forall timestamp: string, nonce: string, signature: string | WellFormed(timestamp, nonce, signature) ::
              header != SignatureHeader(timestamp, nonce, signature)
    ensures ParseSignatureHeader(header, nowMs) != Err(Mismatch)
  {
    if timestamp: string, nonce: string, signature: string :|
         WellFormed(timestamp, nonce, signature) && header == SignatureHeader(timestamp, nonce, signature) {
      ParseWellFormed(timestamp, nonce, signature, nowMs);
    }
    if ParseSignatureHeader(header, nowMs) != Err(Format) {
      var parts := Split(header, '.');
      JoinUndoesSplit(header, '.');
      assert parts == [SIG1_PREFIX, parts[1], parts[2], parts[3]];
      assert WellFormed(parts[1], parts[2], parts[3]);
    }
  }

  lemma JudgesWellFormed(timestamp: string, nonce: string, signature: string, q: Request, secret: string, nowMs: int,
                         mac: Mac)
    requires WellFormed(timestamp, nonce, signature)
    ensures var t := ToNumber(Value(timestamp));
            VerifySignature(SignatureHeader(timestamp, nonce, signature), q, secret, nowMs, mac) ==
              if nowMs - t > 300_000 || t - nowMs > 300_000 then Err(Expired)
              else if signature == Sign(q, secret, t, nonce, mac) then Ok((t, nonce))
              else Err(Mismatch)
  {
    ParseWellFormed(timestamp, nonce, signature, nowMs);
  }

  /** What a signer prints is well formed, and its timestamp reads back as itself. */
  lemma PrintsWellFormed(t: nat, nonceBytes: seq<Utf8.Byte>, digest: seq<Utf8.Byte>)
    requires 0 < t <= MAX_EXACT && 1 <= |nonceBytes| <= 32 && |digest| == 32
    ensures WellFormed(Decimal(t), BytesToHex(nonceBytes), BytesToHex(digest)) && ToNumber(Value(Decimal(t))) == t
  {
    HexShape(nonceBytes);
    HexShape(digest);
    DecimalRoundTrip(t);
    assert Power10(4) == 10_000;
    assert Power10(8) == 10_000 * Power10(4);
    assert Power10(12) == 10_000 * Power10(8);
    assert Power10(16) == 10_000 * Power10(12);
    DecimalLength(t, 16);
  }

  /** The headers sent: an actor or a trace ID only when there is one. */
  lemma HeadersLayout(p: Request, secret: string, t: nat, nonceBytes: seq<Utf8.Byte>, traceId: string, mac: Mac)
    ensures var h, nonce := BuildHeaders(p, secret, t, nonceBytes, traceId, mac), BytesToHex(nonceBytes);
            && h.service == p.service
            && h.signature == "sig1." + Decimal(t) + "." + nonce + "."
                              + BytesToHex(mac(CanonicalString(p, t, nonce), secret))
            && (if p.actor == "" then h.actor.None? else h.actor == Some(p.actor))
            && (if traceId == "" then h.traceId.None? else h.traceId == Some(traceId))
  {
    var nonce := BytesToHex(nonceBytes);
    HeaderLayout(Decimal(t), nonce, BytesToHex(mac(CanonicalString(p, t, nonce), secret)));
  }

  /**
   * A header made at `t` is judged at `later` for any request: expired outside the validity window,
   * whoever made it; inside it, accepted exactly when that request's own digest is the signed one.
   */
  lemma BuiltHeaderJudged(p: Request, q: Request, secret: string, t: nat, later: int, nonceBytes: seq<Utf8.Byte>,
                          traceId: string, mac: Mac)
    requires Digests(mac) && 0 < t <= MAX_EXACT && 1 <= |nonceBytes| <= 32
    ensures var nonce := BytesToHex(nonceBytes);
            VerifySignature(BuildHeaders(p, secret, t, nonceBytes, traceId, mac).signature, q, secret, later, mac) ==
              if later - t > 300_000 || t - later > 300_000 then Err(Expired)
              else if mac(CanonicalString(p, t, nonce), secret) == mac(CanonicalString(q, t, nonce), secret)
              then Ok((t, nonce))
              else Err(Mismatch)
  {
    var nonce := BytesToHex(nonceBytes);
    var digest, other := mac(CanonicalString(p, t, nonce), secret), mac(CanonicalString(q, t, nonce), secret);
    PrintsWellFormed(t, nonceBytes, digest);
    JudgesWellFormed(Decimal(t), nonce, BytesToHex(digest), q, secret, later, mac);
    SameHexSameBytes(digest, other);
    assert BuildHeaders(p, secret, t, nonceBytes, traceId, mac).signature
           == SignatureHeader(Decimal(t), nonce, BytesToHex(digest));
    assert Sign(q, secret, t, nonce, mac) == BytesToHex(other);
  }

  /** What a request may change without its signature noticing: the method's case and the query's order. */
  predicate SameSigned(p: Request, q: Request) {
    && p == q.(verb := p.verb, query := p.query)
    && Upper(p.verb) == Upper(q.verb) && multiset(p.query) == multiset(q.query)
  }

  /** The request that was signed, its query reordered and its method's case changed, verifies exactly while fresh. */
  lemma SignedRequestVerifiesWhileFresh(p: Request, q: Request, secret: string, t: nat, later: int,
                                        nonceBytes: seq<Utf8.Byte>, traceId: string, mac: Mac)
    requires Digests(mac) && 0 < t <= MAX_EXACT && 1 <= |nonceBytes| <= 32
    requires SameSigned(p, q) && NulFree(p.query)
    ensures var h := BuildHeaders(p, secret, t, nonceBytes, traceId, mac);
            VerifySignature(h.signature, q, secret, later, mac) ==
              if -300_000 <= later - t <= 300_000 then Ok((t, BytesToHex(nonceBytes))) else Err(Expired)
    ensures (if BuildHeaders(p, secret, t, nonceBytes, traceId, mac).actor.Some?
             then BuildHeaders(p, secret, t, nonceBytes, traceId, mac).actor.value else "") == p.actor
  {
    var nonce := BytesToHex(nonceBytes);
    forall e | e in q.query ensures '\0' !in e.0 { assert e in multiset(p.query); }
    CanonicalFormsAgree(p.query, q.query);
    assert Fields(p, t, nonce) == Fields(q, t, nonce);
    BuiltHeaderJudged(p, q, secret, t, later, nonceBytes, traceId, mac);
  }

  // ----- constant-time comparison -----

  lemma DifferenceAccumulates(result: bv16, x: bv16, y: bv16)
    ensures result | (x ^ y) == 0 <==> result == 0 && x == y
  {}

  /** The accumulated differences of two strings' code units are zero exactly when they are equal. */
  method TimingSafeEqual(a: seq<bv16>, b: seq<bv16>) returns (equal: bool)
    ensures equal <==> a == b
  {
    if |a| != |b| { return false; }
    var result: bv16 := 0;
    for i := 0 to |a|
      invariant result == 0 <==> forall k :: 0 <= k < i ==> a[k] == b[k]
    {
      DifferenceAccumulates(result, a[i], b[i]);
      result := result | (a[i] ^ b[i]);
    }
    return result == 0;
  }
}
