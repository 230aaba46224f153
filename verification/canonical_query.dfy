/** A request's query in the form its signature covers. */
module CanonicalQuery {
  import opened StableSort
  import Utf8
  import opened Percent
  import opened Delimited

  /** A decoded key and value. */
  type Entry = (string, string)

  function SortKey(e: Entry): seq<Utf8.Byte> {
    Utf8.Encode(e.0 + "\0" + e.1)
  }

  function EntryLe(): (Entry, Entry) -> bool {
    (a: Entry, b: Entry) => Utf8.LexLe(SortKey(a), SortKey(b))
  }

  function PrintEntry(e: Entry): string {
    EncodeUriComponent(e.0) + "=" + EncodeUriComponent(e.1)
  }

  function PrintAll(entries: seq<Entry>): (r: seq<string>)
    ensures |r| == |entries| && forall k :: 0 <= k < |r| ==> r[k] == PrintEntry(entries[k])
  {
    seq(|entries|, k requires 0 <= k < |entries| => PrintEntry(entries[k]))
  }

  function CanonicalizeQuery(entries: seq<Entry>): string {
    Join(PrintAll(Sort(entries, EntryLe())), '&')
  }

  lemma EntryLeIsPreorder()
    ensures TotalPreorder(EntryLe())
  {
    var le := EntryLe();
    forall a, b ensures le(a, b) || le(b, a) { Utf8.LexTotal(SortKey(a), SortKey(b)); }
    forall a, b, c | le(a, b) && le(b, c) ensures le(a, c) {
      Utf8.LexTransitive(SortKey(a), SortKey(b), SortKey(c));
    }
  }

  lemma TiedMeansSameKey(x: Entry, y: Entry)
    ensures Tied(x, EntryLe())(y) <==> SortKey(x) == SortKey(y)
  {
    Utf8.LexTotal(SortKey(x), SortKey(y));
  }

  // ----- printing loses nothing -----

  lemma EncodedIsFree(s: string)
    ensures forall c :: c in EncodeUriComponent(s) ==> c !in {'=', '&', '\n'}
  {
    EncodedAlphabet(s, Unreserved);
  }

  lemma EntryPrintsUniquely(a: Entry, b: Entry)
    ensures PrintEntry(a) == PrintEntry(b) ==> a == b
    ensures '&' !in PrintEntry(a) && '\n' !in PrintEntry(a) && '=' in PrintEntry(a)
  {
    EncodedIsFree(a.0);
    EncodedIsFree(a.1);
    EncodedIsFree(b.0);
    if PrintEntry(a) == PrintEntry(b) {
      FirstPart(EncodeUriComponent(a.0), EncodeUriComponent(a.1),
                EncodeUriComponent(b.0), EncodeUriComponent(b.1), '=');
      EncodeUriInjective(a.0, b.0);
      EncodeUriInjective(a.1, b.1);
    }
  }

  lemma PrintedNonEmpty(s: seq<Entry>)
    ensures Join(PrintAll(s), '&') == "" <==> s == []
  {
    if s != [] { EntryPrintsUniquely(s[0], s[0]); }
  }

  lemma QueryPrintsUniquely(s: seq<Entry>, t: seq<Entry>)
    requires Join(PrintAll(s), '&') == Join(PrintAll(t), '&')
    ensures s == t
  {
    PrintedNonEmpty(s);
    PrintedNonEmpty(t);
    if s != [] && t != [] {
      forall k | 0 <= k < |s| ensures '&' !in PrintAll(s)[k] { EntryPrintsUniquely(s[k], s[k]); }
      forall k | 0 <= k < |t| ensures '&' !in PrintAll(t)[k] { EntryPrintsUniquely(t[k], t[k]); }
      SplitUndoesJoin(PrintAll(s), '&');
      SplitUndoesJoin(PrintAll(t), '&');
      forall k | 0 <= k < |s| ensures s[k] == t[k] {
        assert PrintAll(s)[k] == PrintAll(t)[k];
        EntryPrintsUniquely(s[k], t[k]);
      }
    }
  }

  lemma {:induction false} JoinedIsFree(parts: seq<string>, sep: char, c: char)
    requires c != sep && forall k :: 0 <= k < |parts| ==> c !in parts[k]
    ensures c !in Join(parts, sep)
  {
    if |parts| > 1 {
      assert forall k :: 0 <= k < |parts| - 1 ==> parts[1..][k] == parts[k + 1];
      JoinedIsFree(parts[1..], sep, c);
    }
  }

  lemma CanonicalQueryIsOneLine(entries: seq<Entry>)
    ensures '\n' !in CanonicalizeQuery(entries)
  {
    var sorted := Sort(entries, EntryLe());
    forall k | 0 <= k < |sorted| ensures '\n' !in PrintAll(sorted)[k] { EntryPrintsUniquely(sorted[k], sorted[k]); }
    JoinedIsFree(PrintAll(sorted), '&', '\n');
  }

  // ----- the order of the entries -----

  /** The comparator of two entries: its sign is the byte order of key, NUL and value. */
  method CompareEntries(a: Entry, b: Entry) returns (r: int)
    ensures r <= 0 <==> Utf8.LexLe(Utf8.Encode(a.0 + "\0" + a.1), Utf8.Encode(b.0 + "\0" + b.1))
    ensures r >= 0 <==> Utf8.LexLe(Utf8.Encode(b.0 + "\0" + b.1), Utf8.Encode(a.0 + "\0" + a.1))
  {
    r := Utf8.CompareBytes(Utf8.Encode(a.0 + "\0" + a.1), Utf8.Encode(b.0 + "\0" + b.1));
  }

  /** One entry put where the comparator says it belongs: before the first it does not come after. */
  method InsertEntry(x: Entry, s: seq<Entry>) returns (r: seq<Entry>)
    ensures r == Insert(x, s, EntryLe())
  {
    var k := 0;
    while k < |s|
      invariant k <= |s| && forall i :: 0 <= i < k ==> !EntryLe()(x, s[i])
    {
      var order := CompareEntries(x, s[k]);
      if order <= 0 { break; }
      k := k + 1;
    }
    InsertPassesOver(x, s, EntryLe(), k);
    r := s[..k] + [x] + s[k..];
    assert k < |s| ==> s[k..][0] == s[k];
  }

  /** The entries in the comparator's order, ties as they stood; then each printed. */
  method Canonicalize(entries: seq<Entry>) returns (r: string)
    ensures r == CanonicalizeQuery(entries)
  {
    var sorted: seq<Entry> := [];
    var n := |entries|;
    while n > 0
      invariant 0 <= n <= |entries| && sorted == Sort(entries[n..], EntryLe())
    {
      n := n - 1;
      sorted := InsertEntry(entries[n], sorted);
      assert entries[n..][1..] == entries[n + 1..];
    }
    assert entries[0..] == entries;
    r := Join(PrintAll(sorted), '&');
  }

  /** Each entry as key, equals sign and value, with an ampersand in between. */
  function Printed(t: seq<Entry>): string {
    if t == [] then ""
    else EncodeUriComponent(t[0].0) + "=" + EncodeUriComponent(t[0].1)
         + if |t| == 1 then "" else "&" + Printed(t[1..])
  }

  lemma {:induction false} PrintedIsJoin(t: seq<Entry>)
    ensures Join(PrintAll(t), '&') == Printed(t)
  {
    if |t| == 1 {
      assert PrintAll(t) == [PrintEntry(t[0])];
    } else if |t| > 1 {
      PrintedIsJoin(t[1..]);
      assert PrintAll(t)[1..] == PrintAll(t[1..]);
    }
  }

  /** The entries with the same key, NUL and value as `x`. */
  function LikeEntry(x: Entry): Entry -> bool {
    (y: Entry) => y.0 + "\0" + y.1 == x.0 + "\0" + x.1
  }

  lemma LikeEntriesStay(s: seq<Entry>, x: Entry)
    ensures Filter(Sort(s, EntryLe()), LikeEntry(x)) == Filter(s, LikeEntry(x))
  {
    EntryLeIsPreorder();
    SortFilter(s, EntryLe(), LikeEntry(x));
    FilterContents(s, LikeEntry(x));
    forall y | y in Filter(s, LikeEntry(x)) ensures Tied(x, EntryLe())(y) { TiedMeansSameKey(x, y); }
    TiedAlreadySorted(Filter(s, LikeEntry(x)), EntryLe(), x);
  }

  /**
   * The canonical form prints the query's own entries with the bytes of key, NUL and value ascending, and
   * entries that have the same bytes in the order the query gives them.
   */
  lemma CanonicalInByteOrder(s: seq<Entry>) returns (t: seq<Entry>)
    ensures CanonicalizeQuery(s) == Printed(t) && multiset(t) == multiset(s)
    ensures forall i, j :: 0 <= i < j < |t| ==>
              Utf8.LexLe(Utf8.Encode(t[i].0 + "\0" + t[i].1), Utf8.Encode(t[j].0 + "\0" + t[j].1))
    ensures forall x: Entry :: Filter(t, LikeEntry(x)) == Filter(s, LikeEntry(x))
  {
    t := Sort(s, EntryLe());
    EntryLeIsPreorder();
    PrintedIsJoin(t);
    SortContents(s, EntryLe());
    SortSorted(s, EntryLe());
    forall i, j | 0 <= i < j < |t|
      ensures Utf8.LexLe(Utf8.Encode(t[i].0 + "\0" + t[i].1), Utf8.Encode(t[j].0 + "\0" + t[j].1))
    {
      assert EntryLe()(t[i], t[j]);
    }
    forall x: Entry ensures Filter(t, LikeEntry(x)) == Filter(s, LikeEntry(x)) { LikeEntriesStay(s, x); }
  }

  // ----- which queries agree -----

  /** Equal canonical forms hide nothing but order. */
  lemma EqualFormsSameEntries(s: seq<Entry>, t: seq<Entry>)
    requires CanonicalizeQuery(s) == CanonicalizeQuery(t)
    ensures multiset(s) == multiset(t)
  {
    QueryPrintsUniquely(Sort(s, EntryLe()), Sort(t, EntryLe()));
    SortContents(s, EntryLe());
    SortContents(t, EntryLe());
  }

  lemma SortKeepsNoTies(s: seq<Entry>)
    requires NoTies(s, EntryLe())
    ensures NoTies(Sort(s, EntryLe()), EntryLe())
  {
    SortContents(s, EntryLe());
    var sorted := Sort(s, EntryLe());
    forall x, y | x in sorted && y in sorted && EntryLe()(x, y) && EntryLe()(y, x) ensures x == y {
      assert x in multiset(sorted) && y in multiset(sorted);
    }
  }

  /** Entries no two different ones of which tie are canonicalized alike in every order. */
  lemma UntiedInAnyOrder(s: seq<Entry>, t: seq<Entry>)
    requires NoTies(s, EntryLe()) && multiset(s) == multiset(t)
    ensures CanonicalizeQuery(s) == CanonicalizeQuery(t)
  {
    EntryLeIsPreorder();
    SortSorted(s, EntryLe());
    SortSorted(t, EntryLe());
    SortContents(s, EntryLe());
    SortContents(t, EntryLe());
    SortKeepsNoTies(s);
    SortedSameContents(Sort(s, EntryLe()), Sort(t, EntryLe()), EntryLe());
  }

  lemma TiedSwap(s: seq<Entry>, x: Entry, y: Entry) returns (t: seq<Entry>)
    requires x in s && y in s && x != y && Tied(x, EntryLe())(y)
    ensures multiset(t) == multiset(s) && CanonicalizeQuery(t) != CanonicalizeQuery(s)
  {
    var a :| 0 <= a < |s| && s[a] == x;
    var b :| 0 <= b < |s| && s[b] == y;
    var i, j := if a < b then a else b, if a < b then b else a;
    EntryLeIsPreorder();
    t := s[i := s[j]][j := s[i]];
    SwappedTiesShow(s, i, j, EntryLe());
    if CanonicalizeQuery(t) == CanonicalizeQuery(s) { QueryPrintsUniquely(Sort(t, EntryLe()), Sort(s, EntryLe())); }
  }

  /** The order of a query's entries is irrelevant exactly when no two different entries share a sort key. */
  lemma OrderIrrelevantIffUntied(s: seq<Entry>)
    ensures (forall t :: multiset(t) == multiset(s) ==> CanonicalizeQuery(t) == CanonicalizeQuery(s))
            <==> forall x, y :: x in s && y in s && SortKey(x) == SortKey(y) ==> x == y
  {
    EntryLeIsPreorder();
    forall x: Entry, y: Entry ensures EntryLe()(x, y) && EntryLe()(y, x) <==> SortKey(x) == SortKey(y) {
      TiedMeansSameKey(x, y);
    }
    if NoTies(s, EntryLe()) {
      forall t | multiset(t) == multiset(s) ensures CanonicalizeQuery(t) == CanonicalizeQuery(s) {
        UntiedInAnyOrder(s, t);
      }
    } else {
      var x, y :| x in s && y in s && EntryLe()(x, y) && EntryLe()(y, x) && x != y;
      var t := TiedSwap(s, x, y);
      assert multiset(t) == multiset(s);
    }
  }

  predicate NulFree(entries: seq<Entry>) {
    forall e :: e in entries ==> '\0' !in e.0
  }

  lemma NulFreeKeysDiffer(x: Entry, y: Entry)
    requires '\0' !in x.0 && '\0' !in y.0 && SortKey(x) == SortKey(y)
    ensures x == y
  {
    Utf8.EncodeInjective(x.0 + "\0" + x.1, y.0 + "\0" + y.1);
    FirstPart(x.0, x.1, y.0, y.1, '\0');
  }

  /** With NUL-free keys, two queries have one canonical form exactly when their entries are the same. */
  lemma CanonicalFormsAgree(s: seq<Entry>, t: seq<Entry>)
    requires NulFree(s) && NulFree(t)
    ensures CanonicalizeQuery(s) == CanonicalizeQuery(t) <==> multiset(s) == multiset(t)
  {
    if CanonicalizeQuery(s) == CanonicalizeQuery(t) { EqualFormsSameEntries(s, t); }
    if multiset(s) == multiset(t) {
      forall x, y | x in s && y in s && EntryLe()(x, y) && EntryLe()(y, x) ensures x == y {
        TiedMeansSameKey(x, y);
        NulFreeKeysDiffer(x, y);
      }
      UntiedInAnyOrder(s, t);
    }
  }

  /** A NUL in a key makes the order show: these two entries tie. */
  lemma NulKeysKeepTheirOrder()
    ensures var x, y := ("a", "b\0c"), ("a\0b", "c");
            SortKey(x) == SortKey(y) && CanonicalizeQuery([x, y]) != CanonicalizeQuery([y, x])
  {
    var x, y := ("a", "b\0c"), ("a\0b", "c");
    assert x.0 + "\0" + x.1 == y.0 + "\0" + y.1;
    TiedMeansSameKey(x, y);
    EntryLeIsPreorder();
    SwappedTiesShow([x, y], 0, 1, EntryLe());
    assert [x, y][0 := y][1 := x] == [y, x];
    if CanonicalizeQuery([x, y]) == CanonicalizeQuery([y, x]) {
      QueryPrintsUniquely(Sort([x, y], EntryLe()), Sort([y, x], EntryLe()));
    }
  }
}
