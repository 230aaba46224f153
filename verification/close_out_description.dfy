/** The status description of a review that ended with its status still pending, in UTF-16 code units. */
module CloseOutDescription {
  import opened Options
  import JsText

  /** A code unit; unpaired surrogates are text too. */
  type CodeUnit = x: int | 0 <= x < 0x1_0000

  type Text = seq<CodeUnit>

  /** Of characters that each take one code unit. */
  function Units(s: string): (r: Text)
    ensures |r| == |s|
  {
    seq(|s|, k requires 0 <= k < |s| => if s[k] as int < 0x1_0000 then s[k] as int else 0xFFFD)
  }

  const COMMIT_STATUS_DESCRIPTION_MAX_CHARS := 140
  const REVIEW_NOT_PUBLISHED_DESCRIPTION := Units("Review did not publish — push again to retry")
  const REVIEW_DID_NOT_FINISH_PREFIX := Units("Review did not finish: ")
  const ELLIPSIS := Units("…")

  /** JavaScript's white space has no surrogates. */
  predicate IsSpace(u: CodeUnit) {
    !(0xD800 <= u < 0xE000) && JsText.IsSpace(u as char)
  }

  predicate Blank(t: Text) {
    forall u :: u in t ==> IsSpace(u)
  }

  function TrimStart(t: Text): Text {
    if t != [] && IsSpace(t[0]) then TrimStart(t[1..]) else t
  }

  function TrimEnd(t: Text): Text {
    if t != [] && IsSpace(t[|t| - 1]) then TrimEnd(t[..|t| - 1]) else t
  }

  function Trim(t: Text): Text {
    TrimEnd(TrimStart(t))
  }

  lemma {:induction false} TrimStartCuts(t: Text)
    ensures Blank(t) <==> TrimStart(t) == []
    ensures TrimStart(t) != [] ==> !IsSpace(TrimStart(t)[0]) && TrimStart(t)[0] in t
  {
    if t != [] {
      assert t == [t[0]] + t[1..];
      if IsSpace(t[0]) { TrimStartCuts(t[1..]); }
    }
  }

  lemma {:induction false} TrimEndKeepsFirst(t: Text)
    requires t != [] && !IsSpace(t[0])
    ensures TrimEnd(t) != []
    decreases |t|
  {
    if IsSpace(t[|t| - 1]) { TrimEndKeepsFirst(t[..|t| - 1]); }
  }

  lemma BlankIffTrimmedAway(t: Text)
    ensures Trim(t) == [] <==> Blank(t)
  {
    TrimStartCuts(t);
    if TrimStart(t) != [] { TrimEndKeepsFirst(TrimStart(t)); }
  }

  /** At most what GitHub allows; the last character tells that some are missing. */
  function Cut(t: Text): Text {
    if |t| <= COMMIT_STATUS_DESCRIPTION_MAX_CHARS then t else t[..COMMIT_STATUS_DESCRIPTION_MAX_CHARS - 1] + ELLIPSIS
  }

  function Describe(success: bool, error: Option<Text>): Text {
    var reason := if error.Some? then Trim(error.value) else [];
    if success || reason == [] then REVIEW_NOT_PUBLISHED_DESCRIPTION else
    Cut(REVIEW_DID_NOT_FINISH_PREFIX + reason)
  }

  /** GitHub accepts it, and it is the generic one exactly for a success or a blank reason. */
  lemma DescriptionFits(success: bool, error: Option<Text>)
    ensures |Describe(success, error)| <= COMMIT_STATUS_DESCRIPTION_MAX_CHARS
    ensures Describe(success, error) == REVIEW_NOT_PUBLISHED_DESCRIPTION
            <==> success || error.None? || Blank(error.value)
  {
    if error.Some? { BlankIffTrimmedAway(error.value); }
    assert REVIEW_NOT_PUBLISHED_DESCRIPTION[15] == 'p' as int && REVIEW_DID_NOT_FINISH_PREFIX[15] == 'f' as int;
  }

  lemma ShowsAsMuch(p: Text, reason: Text)
    requires |p| < COMMIT_STATUS_DESCRIPTION_MAX_CHARS
    ensures var shown := COMMIT_STATUS_DESCRIPTION_MAX_CHARS - 1 - |p|;
            && (|reason| <= shown ==> Cut(p + reason)[|p|..] == reason)
            && (|reason| > shown ==> |Cut(p + reason)| == COMMIT_STATUS_DESCRIPTION_MAX_CHARS)
            && (|reason| > shown ==> Cut(p + reason)[|p|..|p| + shown] == reason[..shown])
  {}

  /** Two failures with one description had reasons that agree as far as the description shows them. */
  lemma DescriptionShowsReason(a: Text, b: Text)
    requires !Blank(a) && !Blank(b) && Describe(false, Some(a)) == Describe(false, Some(b))
    ensures var shown := COMMIT_STATUS_DESCRIPTION_MAX_CHARS - 1 - |REVIEW_DID_NOT_FINISH_PREFIX|;
            Trim(a) == Trim(b) ||
            (|Trim(a)| > shown && |Trim(b)| > shown && Trim(a)[..shown] == Trim(b)[..shown])
  {
    BlankIffTrimmedAway(a);
    BlankIffTrimmedAway(b);
    ShowsAsMuch(REVIEW_DID_NOT_FINISH_PREFIX, Trim(a));
    ShowsAsMuch(REVIEW_DID_NOT_FINISH_PREFIX, Trim(b));
  }

  lemma {:induction false} TrimStartSplits(t: Text) returns (before: Text)
    ensures t == before + TrimStart(t) && Blank(before)
  {
    before := [];
    if t != [] && IsSpace(t[0]) {
      var rest := TrimStartSplits(t[1..]);
      before := [t[0]] + rest;
    }
  }

  lemma {:induction false} TrimEndSplits(t: Text) returns (after: Text)
    ensures t == TrimEnd(t) + after && Blank(after)
    ensures TrimEnd(t) != [] ==> !IsSpace(TrimEnd(t)[|TrimEnd(t)| - 1])
    decreases |t|
  {
    after := [];
    if t != [] && IsSpace(t[|t| - 1]) {
      var rest := TrimEndSplits(t[..|t| - 1]);
      after := rest + [t[|t| - 1]];
    }
  }

  /**
   * A failure with a reason is described by that reason without the white space around it, behind the
   * prefix: whole when both fit in 140 code units, and otherwise its first units and an ellipsis.
   */
  lemma DescriptionIs(error: Text) returns (before: Text, reason: Text, after: Text)
    requires !Blank(error)
    ensures error == before + reason + after && Blank(before) && Blank(after)
    ensures reason != [] && !IsSpace(reason[0]) && !IsSpace(reason[|reason| - 1])
    ensures var d, full := Describe(false, Some(error)), Units("Review did not finish: ") + reason;
            if |reason| <= 117 then d == full else |d| == 140 && d[..139] == full[..139] && d[139] == 0x2026
  {
    BlankIffTrimmedAway(error);
    TrimStartCuts(error);
    before := TrimStartSplits(error);
    after := TrimEndSplits(TrimStart(error));
    reason := Trim(error);
    assert TrimStart(error)[..|reason|] == reason;
    assert ELLIPSIS == [0x2026];
  }

  lemma SpacesAre(u: CodeUnit)
    ensures IsSpace(u) <==>
            u in {9, 10, 11, 12, 13, 32, 0xA0, 0x1680, 0x2000, 0x2001, 0x2002, 0x2003, 0x2004, 0x2005, 0x2006, 0x2007,
                  0x2008, 0x2009, 0x200A, 0x2028, 0x2029, 0x202F, 0x205F, 0x3000, 0xFEFF}
  {
    if !(0xD800 <= u < 0xE000) { JsText.ClassesAre(u as char); }
  }
}
