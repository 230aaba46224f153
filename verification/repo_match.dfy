/**
 * Which repository a comment names. Texts and names are already in lower case. A name counts only
 * where it stands alone: not where path characters, or periods leading to them, extend it.
 */
module RepoMatch {
  import opened Options
  import opened JsText

  predicate PathChar(c: char) {
    Letter(c) || Digit(c) || c in {'_', '/', '-'}
  }

  predicate PathAt(text: string, k: int) {
    0 <= k < |text| && PathChar(text[k])
  }

  predicate DotsIn(text: string, from: int, to: int) {
    forall k :: from <= k < to ==> 0 <= k < |text| && text[k] == '.'
  }

  /** A run of periods, possibly empty, leads from just before `at` to a path character. */
  predicate ExtendsLeft(text: string, at: int) {
    exists k :: 0 <= k < at && PathAt(text, k) && DotsIn(text, k + 1, at)
  }

  /** A run of periods, possibly empty, leads from `end` to a path character. */
  predicate ExtendsRight(text: string, end: int) {
    exists k :: end <= k < |text| && PathAt(text, k) && DotsIn(text, end, k)
  }

  predicate RunChar(c: char) { PathChar(c) || c == '.' }

  lemma NothingBefore(text: string, a: int, at: int)
    requires 0 <= a <= at <= |text| && DotsIn(text, a, at) && (a > 0 ==> !RunChar(text[a - 1]))
    ensures !ExtendsLeft(text, at)
  {
    forall k | 0 <= k < at ensures !(PathAt(text, k) && DotsIn(text, k + 1, at)) {
      if k >= a { assert text[k] == '.'; } else { assert text[a - 1] != '.'; }
    }
  }

  lemma NothingAfter(text: string, end: int, b: int)
    requires 0 <= end <= b <= |text| && DotsIn(text, end, b) && (b < |text| ==> !RunChar(text[b]))
    ensures !ExtendsRight(text, end)
  {
    forall k | end <= k < |text| ensures !(PathAt(text, k) && DotsIn(text, end, k)) {
      if k < b { assert text[k] == '.'; } else { assert text[b] != '.'; }
    }
  }

  /** Whether the neighbour at `index`, away from the name in `direction`, extends the path. */
  method ExtendsRepositoryPath(text: string, index: int, direction: int) returns (extended: bool)
    requires direction == -1 || direction == 1
    requires if direction == -1 then -1 <= index < |text| else 0 <= index <= |text|
    ensures direction == -1 ==> extended == ExtendsLeft(text, index + 1)
    ensures direction == 1 ==> extended == ExtendsRight(text, index)
  {
    if !(0 <= index < |text|) { return false; }
    if PathChar(text[index]) {
      assert PathAt(text, index) && DotsIn(text, index + 1, index + 1) && DotsIn(text, index, index);
      return true;
    }
    if text[index] != '.' { return false; }
    var cursor := index + direction;
    while 0 <= cursor < |text| && text[cursor] == '.'
      invariant -1 <= cursor <= |text|
      invariant direction == -1 ==> cursor < index && DotsIn(text, cursor + 1, index + 1)
      invariant direction == 1 ==> index < cursor && DotsIn(text, index, cursor)
      decreases if direction == 1 then |text| - cursor else cursor
    {
      cursor := cursor + direction;
    }
    extended := 0 <= cursor < |text| && PathChar(text[cursor]);
    if extended { assert PathAt(text, cursor); }
    else if direction == -1 { NothingBefore(text, cursor + 1, index + 1); }
    else { NothingAfter(text, index, cursor); }
  }

  // ----- occurrences -----

  predicate Occurs(text: string, name: string, at: int) {
    0 <= at <= |text| - |name| && text[at..at + |name|] == name
  }

  predicate Unextended(text: string, name: string, at: int) {
    Occurs(text, name, at) && !ExtendsLeft(text, at) && !ExtendsRight(text, at + |name|)
  }

  predicate Named(text: string, name: string) {
    exists at :: 0 <= at <= |text| && Unextended(text, name, at)
  }

  /** The first occurrence at or after `from`. */
  method IndexOf(text: string, name: string, from: nat) returns (at: Option<nat>)
    requires name != ""
    ensures at.Some? ==> from <= at.value && Occurs(text, name, at.value)
                         && forall k :: from <= k < at.value ==> !Occurs(text, name, k)
    ensures at.None? ==> forall k :: from <= k ==> !Occurs(text, name, k)
  {
    var k := from;
    while k + |name| <= |text|
      invariant from <= k
      invariant forall j :: from <= j < k ==> !Occurs(text, name, j)
    {
      if text[k..k + |name|] == name { return Some(k); }
      k := k + 1;
    }
    return None;
  }

  /** The occurrence loop. It ends because the name is not empty. */
  method IsNamed(haystack: string, needle: string) returns (named: bool)
    requires needle != ""
    ensures named <==> Named(haystack, needle)
  {
    var at := IndexOf(haystack, needle, 0);
    while at.Some?
      invariant at.Some? ==> Occurs(haystack, needle, at.value)
      invariant forall k :: 0 <= k < (if at.Some? then at.value else |haystack| + 1) ==>
                              !Unextended(haystack, needle, k)
      decreases if at.Some? then |haystack| + 1 - at.value else 0
    {
      var end := at.value + |needle|;
      var before := ExtendsRepositoryPath(haystack, at.value - 1, -1);
      var after := ExtendsRepositoryPath(haystack, end, 1);
      if !before && !after {
        assert Unextended(haystack, needle, at.value);
        return true;
      }
      at := IndexOf(haystack, needle, at.value + 1);
    }
    return false;
  }

  /** The one repository a comment names; none when it names several, or the same one is listed twice. */
  method MatchExplicitRepo(text: string, fullNames: seq<string>) returns (r: Option<nat>)
    requires forall k :: 0 <= k < |fullNames| ==> fullNames[k] != ""
    ensures r.Some? ==> r.value < |fullNames| && Named(text, fullNames[r.value])
                        && forall k :: 0 <= k < |fullNames| && k != r.value ==> !Named(text, fullNames[k])
    ensures r.None? ==> forall j :: 0 <= j < |fullNames| && Named(text, fullNames[j]) ==>
                          exists k :: 0 <= k < |fullNames| && k != j && Named(text, fullNames[k])
  {
    var named: seq<nat> := [];
    for i := 0 to |fullNames|
      invariant forall j :: 0 <= j < |named| ==> named[j] < i && Named(text, fullNames[named[j]])
      invariant forall j, k :: 0 <= j < k < |named| ==> named[j] < named[k]
      invariant forall k :: 0 <= k < i && Named(text, fullNames[k]) ==> k in named
    {
      var found := IsNamed(text, fullNames[i]);
      if found { named := named + [i]; }
    }
    if |named| == 1 { return Some(named[0]); }
    forall j | 0 <= j < |fullNames| && Named(text, fullNames[j])
      ensures exists k :: 0 <= k < |fullNames| && k != j && Named(text, fullNames[k])
    {
      var other := if named[0] == j then named[1] else named[0];
      assert other != j && Named(text, fullNames[other]);
    }
    return None;
  }

  // ----- what a name stands for -----

  /** Names of path characters and periods that begin and end with a path character. */
  predicate RepoName(name: string) {
    && name != "" && PathChar(name[0]) && PathChar(name[|name| - 1])
    && forall c :: c in name ==> PathChar(c) || c == '.'
  }

  /** The maximal stretch of path characters and periods from `a` to `b`. */
  predicate Token(text: string, a: int, b: int) {
    && 0 <= a < b <= |text|
    && (forall k :: a <= k < b ==> RunChar(text[k]))
    && (a > 0 ==> !RunChar(text[a - 1])) && (b < |text| ==> !RunChar(text[b]))
  }

  /** A whole token, without the periods around it, is the name. */
  predicate StandsAlone(text: string, name: string, at: int, a: int, b: int) {
    && Token(text, a, b) && a <= at && at + |name| <= b && Occurs(text, name, at)
    && DotsIn(text, a, at) && DotsIn(text, at + |name|, b)
  }

  /** Stepping over a run character never loses an extension. */
  lemma OverOneMore(text: string, k: int)
    requires 0 <= k < |text| && RunChar(text[k])
    ensures ExtendsLeft(text, k) || PathAt(text, k) ==> ExtendsLeft(text, k + 1)
    ensures ExtendsRight(text, k + 1) || PathAt(text, k) ==> ExtendsRight(text, k)
  {
    if PathAt(text, k) {
      assert DotsIn(text, k + 1, k + 1) && DotsIn(text, k, k);
    } else {
      if j :| 0 <= j < k && PathAt(text, j) && DotsIn(text, j + 1, k) { assert DotsIn(text, j + 1, k + 1); }
      if j :| k + 1 <= j < |text| && PathAt(text, j) && DotsIn(text, k + 1, j) { assert DotsIn(text, k, j); }
    }
  }

  /** Where the periods before an unextended position begin. */
  lemma {:induction false} DotsBefore(text: string, at: int) returns (a: int)
    requires 0 <= at <= |text| && !ExtendsLeft(text, at)
    ensures 0 <= a <= at && DotsIn(text, a, at) && (a > 0 ==> !RunChar(text[a - 1]))
    decreases at
  {
    a := at;
    if at > 0 && RunChar(text[at - 1]) {
      OverOneMore(text, at - 1);
      a := DotsBefore(text, at - 1);
    }
  }

  lemma {:induction false} DotsAfter(text: string, end: int) returns (b: int)
    requires 0 <= end <= |text| && !ExtendsRight(text, end)
    ensures end <= b <= |text| && DotsIn(text, end, b) && (b < |text| ==> !RunChar(text[b]))
    decreases |text| - end
  {
    b := end;
    if end < |text| && RunChar(text[end]) {
      OverOneMore(text, end);
      b := DotsAfter(text, end + 1);
    }
  }

  /** An occurrence is unextended exactly when it is a whole token, stripped of its outer periods. */
  lemma UnextendedIsWholeToken(text: string, name: string, at: int)
    requires RepoName(name)
    ensures Unextended(text, name, at) <==> exists a, b :: StandsAlone(text, name, at, a, b)
  {
    if Unextended(text, name, at) {
      var a := DotsBefore(text, at);
      var b := DotsAfter(text, at + |name|);
      forall k | a <= k < b ensures RunChar(text[k]) {
        if at <= k < at + |name| {
          assert text[k] == text[at..at + |name|][k - at];
          assert name[k - at] in name;
        }
      }
      assert StandsAlone(text, name, at, a, b);
    }
    if a, b :| StandsAlone(text, name, at, a, b) {
      NothingBefore(text, a, at);
      NothingAfter(text, at + |name|, b);
    }
  }

  /** Inside a name, going back over periods always meets a path character of the name. */
  lemma {:induction false} InsideIsExtended(text: string, name: string, at: int, inside: int)
    requires RepoName(name) && Occurs(text, name, at) && at < inside <= at + |name|
    ensures ExtendsLeft(text, inside)
    decreases inside
  {
    assert text[inside - 1] == text[at..at + |name|][inside - 1 - at] == name[inside - 1 - at];
    assert name[inside - 1 - at] in name;
    OverOneMore(text, inside - 1);
    if text[inside - 1] == '.' { InsideIsExtended(text, name, at, inside - 1); }
  }

  /** Unextended occurrences of two names, of the same one or of two, are apart: no name counts inside another. */
  lemma UnextendedNeverOverlap(text: string, name: string, at: int, other: string, otherAt: int)
    requires RepoName(name) && RepoName(other) && at < otherAt
    requires Unextended(text, name, at) && Unextended(text, other, otherAt)
    ensures at + |name| < otherAt
  {
    if otherAt <= at + |name| { InsideIsExtended(text, name, at, otherAt); }
  }

  lemma {:induction false} ReachesPathChar(text: string, other: string, at: int, from: int)
    requires RepoName(other) && Occurs(text, other, at) && at <= from < at + |other|
    ensures ExtendsRight(text, from)
    decreases at + |other| - from
  {
    assert text[from] == text[at..at + |other|][from - at] == other[from - at];
    assert other[from - at] in other;
    OverOneMore(text, from);
    if text[from] == '.' { ReachesPathChar(text, other, at, from + 1); }
  }

  lemma {:induction false} LongerExtends(text: string, name: string, other: string, at: int)
    requires RepoName(other) && Occurs(text, other, at) && 0 < |name| < |other|
    ensures ExtendsRight(text, at + |name|)
  {
    ReachesPathChar(text, other, at, at + |name|);
  }

  /** Two different names are never both named at one place. */
  lemma OneNamePerPlace(text: string, name: string, other: string, at: int)
    requires RepoName(name) && RepoName(other)
    requires Unextended(text, name, at) && Unextended(text, other, at)
    ensures name == other
  {
    if |name| < |other| { LongerExtends(text, name, other, at); }
    if |other| < |name| { LongerExtends(text, other, name, at); }
  }

  /** A comment names a repository exactly when the repository's name is one of its tokens. */
  lemma NamedIffToken(text: string, name: string)
    requires RepoName(name)
    ensures Named(text, name) <==> exists at, a, b :: StandsAlone(text, name, at, a, b)
  {
    if Named(text, name) {
      var at :| 0 <= at <= |text| && Unextended(text, name, at);
      UnextendedIsWholeToken(text, name, at);
    }
    if at, a, b :| StandsAlone(text, name, at, a, b) { UnextendedIsWholeToken(text, name, at); }
  }

  /** The path characters are ASCII letters and digits, the underscore, the slash and the dash. */
  lemma PathCharsAre(c: char)
    ensures PathChar(c) <==>
            || 48 <= c as int <= 57 || 65 <= c as int <= 90 || 97 <= c as int <= 122 || c as int in {45, 47, 95}
  {
    var n := c as int;
    assert c == n as char;
  }
}
