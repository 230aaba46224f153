/** The two paged reads a review's decisions rest on: the pull request's approval and a head's status. */
module GithubReads {
  import opened Options

  const PAGE_SIZE := 100
  const REVIEWS_MAX_PAGES := 10

  // ----- approval -----

  /** `login` is absent for a deleted account. */
  datatype Review = Review(login: Option<string>, state: string)

  /** A verdict that changes a standing approval, by an author it can be attributed to. */
  predicate Bearing(r: Review) {
    r.login.Some? && r.login.value != "" && r.state in {"APPROVED", "CHANGES_REQUESTED", "DISMISSED"}
  }

  /** An author's latest verdict. */
  function Latest(history: seq<Review>, login: string): Option<string> {
    if history == [] then None else
    var last := history[|history| - 1];
    if Bearing(last) && last.login == Some(login) then Some(last.state) else Latest(history[..|history| - 1], login)
  }

  /** A known author's approval, after which the author's reviews are none of approvals, requests or dismissals. */
  predicate StandsAt(history: seq<Review>, i: nat) {
    && i < |history| && history[i].login.Some? && history[i].login.value != "" && history[i].state == "APPROVED"
    && forall j :: i < j < |history| && history[j].login == history[i].login ==>
         history[j].state !in {"APPROVED", "CHANGES_REQUESTED", "DISMISSED"}
  }

  predicate StandingApproval(history: seq<Review>) {
    exists i :: 0 <= i < |history| && StandsAt(history, i)
  }

  lemma {:induction false} LatestIsLast(history: seq<Review>, login: string)
    ensures Latest(history, login).Some? ==>
              exists i :: 0 <= i < |history| && Bearing(history[i]) && history[i].login == Some(login)
                          && history[i].state == Latest(history, login).value
                          && forall j :: i < j < |history| && Bearing(history[j]) ==> history[j].login != Some(login)
    ensures Latest(history, login).None? ==>
              forall i :: 0 <= i < |history| && Bearing(history[i]) ==> history[i].login != Some(login)
  {
    if history != [] {
      var n := |history| - 1;
      LatestIsLast(history[..n], login);
      assert forall i :: 0 <= i < n ==> history[..n][i] == history[i];
    }
  }

  /** A standing approval is an author whose latest verdict approves. */
  lemma StandingIffLatest(history: seq<Review>)
    ensures StandingApproval(history) <==> exists login :: Latest(history, login) == Some("APPROVED")
  {
    if StandingApproval(history) {
      var i :| 0 <= i < |history| && StandsAt(history, i);
      assert Bearing(history[i]);
      LatestIsLast(history, history[i].login.value);
    }
    if login :| Latest(history, login) == Some("APPROVED") {
      LatestIsLast(history, login);
      var i :| 0 <= i < |history| && Bearing(history[i]) && history[i].login == Some(login)
               && history[i].state == "APPROVED"
               && forall j :: i < j < |history| && Bearing(history[j]) ==> history[j].login != Some(login);
      assert StandsAt(history, i);
    }
  }

  /** What a page request answers: `None` for any failure, an unexpected body included. */
  type ReviewPages = nat -> Option<seq<Review>>

  /** Everything read from page `page` on, until a page is short or the cap is reached; `None` when a page fails. */
  function ReadFrom(pages: ReviewPages, page: nat): Option<seq<Review>>
    decreases REVIEWS_MAX_PAGES + 1 - page
  {
    if page > REVIEWS_MAX_PAGES then Some([]) else
    match pages(page)
    case None => None
    case Some(reviews) =>
      if |reviews| < PAGE_SIZE then Some(reviews) else
      match ReadFrom(pages, page + 1)
      case None => None
      case Some(rest) => Some(reviews + rest)
  }

  /** A page cannot be read, and every page before it was full. */
  predicate FailsAt(pages: ReviewPages, page: nat) {
    pages(page).None? && forall q :: 1 <= q < page ==> pages(q).Some? && |pages(q).value| >= 100
  }

  /** From page `page` on, full pages lead to one that cannot be read. */
  lemma {:induction false} ReadFailsFrom(pages: ReviewPages, page: nat)
    requires 1 <= page <= 11 && forall q :: 1 <= q < page ==> pages(q).Some? && |pages(q).value| >= 100
    ensures ReadFrom(pages, page).None? <==> exists p :: page <= p <= 10 && FailsAt(pages, p)
    decreases 11 - page
  {
    if page <= 10 && pages(page).Some? && |pages(page).value| >= 100 {
      ReadFailsFrom(pages, page + 1);
      assert !FailsAt(pages, page);
    } else if page <= 10 && pages(page).None? {
      assert FailsAt(pages, page);
    }
  }

  /** Reading fails exactly when one of the first ten pages cannot be read and every page before it was full. */
  lemma ReadFailsExactly(pages: ReviewPages)
    ensures ReadFrom(pages, 1).None? <==> exists p :: 1 <= p <= 10 && FailsAt(pages, p)
  {
    ReadFailsFrom(pages, 1);
  }

  ghost predicate Tracks(latest: map<string, string>, history: seq<Review>) {
    forall login :: (if login in latest then Some(latest[login]) else None) == Latest(history, login)
  }

  lemma TracksOneMore(latest: map<string, string>, history: seq<Review>, r: Review)
    requires Tracks(latest, history)
    ensures Tracks(if Bearing(r) then latest[r.login.value := r.state] else latest, history + [r])
  {
    assert (history + [r])[..|history|] == history;
  }

  /** Applies a page's verdicts, oldest first. */
  method ApplyPage(latest: map<string, string>, page: seq<Review>, ghost before: seq<Review>)
    returns (updated: map<string, string>)
    requires Tracks(latest, before)
    ensures Tracks(updated, before + page)
  {
    updated := latest;
    assert before + page[..0] == before;
    for i := 0 to |page|
      invariant Tracks(updated, before + page[..i])
    {
      TracksOneMore(updated, before + page[..i], page[i]);
      assert before + page[..i] + [page[i]] == before + page[..i + 1];
      if Bearing(page[i]) { updated := updated[page[i].login.value := page[i].state]; }
    }
    assert page[..|page|] == page;
  }

  method AnyApproved(latest: map<string, string>, ghost read: seq<Review>) returns (approved: Option<bool>)
    requires Tracks(latest, read)
    ensures approved == Some(StandingApproval(read))
  {
    StandingIffLatest(read);
    if login :| login in latest && latest[login] == "APPROVED" { assert Latest(read, login) == Some("APPROVED"); }
    if login :| Latest(read, login) == Some("APPROVED") { assert login in latest && latest[login] == "APPROVED"; }
    return Some("APPROVED" in latest.Values);
  }

  /** `None` when a page could not be read; otherwise whether the reviews read carry a standing approval. */
  method GetPullRequestApproval(pages: ReviewPages) returns (approved: Option<bool>)
    ensures approved.None? <==> ReadFrom(pages, 1).None?
    ensures approved.Some? ==> approved.value == StandingApproval(ReadFrom(pages, 1).value)
  {
    var latest: map<string, string> := map[];
    ghost var read: seq<Review> := [];
    var page := 1;
    assert ReadFrom(pages, 1).Some? ==> [] + ReadFrom(pages, 1).value == ReadFrom(pages, 1).value;
    while page <= REVIEWS_MAX_PAGES
      invariant 1 <= page <= REVIEWS_MAX_PAGES + 1
      invariant Tracks(latest, read)
      invariant ReadFrom(pages, 1)
                == if ReadFrom(pages, page).None? then None else Some(read + ReadFrom(pages, page).value)
    {
      var answer := pages(page);
      if answer.None? { return None; }
      latest := ApplyPage(latest, answer.value, read);
      if |answer.value| < PAGE_SIZE {
        approved := AnyApproved(latest, read + answer.value);
        return;
      }
      ghost var rest := ReadFrom(pages, page + 1);
      assert rest.Some? ==> read + (answer.value + rest.value) == read + answer.value + rest.value;
      read := read + answer.value;
      page := page + 1;
    }
    assert read + [] == read;
    approved := AnyApproved(latest, read);
  }

  // ----- a history served in pages -----

  function Min(a: nat, b: nat): nat { if a <= b then a else b }

  /** GitHub's page `page` of at most a hundred items. */
  function PageOf<T>(items: seq<T>, page: nat): seq<T>
    requires page >= 1
  {
    items[Min((page - 1) * 100, |items|)..Min(page * 100, |items|)]
  }

  predicate Serves(pages: ReviewPages, history: seq<Review>) {
    forall page :: 1 <= page <= 10 ==> pages(page) == Some(PageOf(history, page))
  }

  lemma {:induction false} ReadsFirstThousand(pages: ReviewPages, history: seq<Review>, page: nat)
    requires Serves(pages, history) && 1 <= page <= 11 && (page - 1) * 100 <= |history|
    ensures ReadFrom(pages, page) == Some(history[(page - 1) * 100..Min(1000, |history|)])
    decreases 11 - page
  {
    var a, b, c := (page - 1) * 100, page * 100, Min(1000, |history|);
    if page > 10 {
      assert a == 1000 == c && history[a..c] == [];
    } else if |history| < b {
      assert pages(page) == Some(PageOf(history, page)) && PageOf(history, page) == history[a..c];
    } else {
      ReadsFirstThousand(pages, history, page + 1);
      assert pages(page) == Some(PageOf(history, page)) && PageOf(history, page) == history[a..b];
      assert history[a..b] + history[b..c] == history[a..c];
    }
  }

  /** The answer for a history served whole is its first thousand reviews' standing approval. */
  lemma ApprovalOfHistory(pages: ReviewPages, history: seq<Review>)
    requires Serves(pages, history)
    ensures ReadFrom(pages, 1) == Some(history[..Min(1000, |history|)])
  {
    ReadsFirstThousand(pages, history, 1);
  }

  /** A review that bears no verdict, inserted anywhere, changes no approval. */
  lemma {:induction false} InsertedKeepsLatest(a: seq<Review>, x: Review, b: seq<Review>, login: string)
    requires !Bearing(x)
    ensures Latest(a + [x] + b, login) == Latest(a + b, login)
    decreases |b|
  {
    if b == [] {
      assert a + [x] + b == a + [x] && a + b == a && (a + [x])[..|a|] == a;
    } else {
      var n := |b| - 1;
      InsertedKeepsLatest(a, x, b[..n], login);
      assert (a + [x] + b)[..|a| + 1 + n] == a + [x] + b[..n] && (a + b)[..|a| + n] == a + b[..n];
    }
  }

  lemma SameVerdictsSameAnswer(a: seq<Review>, x: Review, b: seq<Review>)
    requires !Bearing(x)
    ensures StandingApproval(a + [x] + b) == StandingApproval(a + b)
  {
    StandingIffLatest(a + [x] + b);
    StandingIffLatest(a + b);
    if login :| Latest(a + b, login) == Some("APPROVED") { InsertedKeepsLatest(a, x, b, login); }
    if login :| Latest(a + [x] + b, login) == Some("APPROVED") { InsertedKeepsLatest(a, x, b, login); }
  }

  /**
   * A comment, a pending review or one of a deleted account, inserted among the first thousand, never changes
   * the answer while the history stays within a thousand; beyond, it only pushes the thousandth out of sight.
   */
  lemma CommentsChangeNothing(history: seq<Review>, k: nat, x: Review)
    requires k <= |history| && k < 1000
    requires x.login in {None, Some("")} || x.state !in {"APPROVED", "CHANGES_REQUESTED", "DISMISSED"}
    ensures var longer := history[..k] + [x] + history[k..];
            StandingApproval(longer[..Min(1000, |longer|)])
            == StandingApproval(history[..Min(999, |history|)])
  {
    var longer := history[..k] + [x] + history[k..];
    var n := Min(999, |history|);
    var kept := history[k..n];
    assert longer[..n + 1] == history[..k] + [x] + kept && history[..n] == history[..k] + kept;
    assert Min(1000, |longer|) == n + 1;
    SameVerdictsSameAnswer(history[..k], x, kept);
  }

  // ----- the status of a head -----

  const REVIEW_STATUS_CONTEXT := "open-inspect"

  datatype ContextStatus = ContextStatus(context: string, state: string)

  datatype StatusPage = StatusPage(statuses: seq<ContextStatus>, totalCount: Option<nat>)

  type StatusPages = nat -> Option<StatusPage>

  /** What one page settles: `GoOn` leaves the read to the next page. */
  datatype PageVerdict = Unreadable | Found(state: string) | Absent | GoOn

  /** The first index of the context in a page, or the page's length. */
  function FirstIndex(statuses: seq<ContextStatus>, context: string): (k: nat)
    ensures k <= |statuses| && (k < |statuses| ==> statuses[k].context == context)
    ensures forall j :: 0 <= j < k ==> statuses[j].context != context
  {
    if statuses == [] || statuses[0].context == context then 0 else 1 + FirstIndex(statuses[1..], context)
  }

  function Judge(page: nat, answer: Option<StatusPage>): PageVerdict {
    if answer.None? then Unreadable else
    var shown := answer.value.statuses;
    var k := FirstIndex(shown, REVIEW_STATUS_CONTEXT);
    if k < |shown| then Found(shown[k].state)
    else if |shown| < PAGE_SIZE || (answer.value.totalCount.Some? && page * PAGE_SIZE >= answer.value.totalCount.value)
    then Absent
    else GoOn
  }

  /** The page was answered, is full and not known to be the last, and shows nothing of the context. */
  predicate LeavesOpen(page: nat, answer: Option<StatusPage>) {
    && answer.Some? && |answer.value.statuses| >= 100
    && (answer.value.totalCount.Some? ==> page * 100 < answer.value.totalCount.value)
    && forall k :: 0 <= k < |answer.value.statuses| ==> answer.value.statuses[k].context != "open-inspect"
  }

  /** `page` is the first that settles the read. */
  predicate SettlesAt(pages: StatusPages, page: nat) {
    page >= 1 && !LeavesOpen(page, pages(page)) && forall q :: 1 <= q < page ==> LeavesOpen(q, pages(q))
  }

  /** What a page that was answered shows of the context: its first state there, or nothing. */
  predicate ShowsState(statuses: seq<ContextStatus>, state: Option<string>) {
    match state
    case Some(found) =>
      exists k :: 0 <= k < |statuses| && statuses[k] == ContextStatus("open-inspect", found)
                  && forall j :: 0 <= j < k ==> statuses[j].context != "open-inspect"
    case None => forall k :: 0 <= k < |statuses| ==> statuses[k].context != "open-inspect"
  }

  lemma JudgesPage(page: nat, answer: Option<StatusPage>)
    ensures Judge(page, answer).GoOn? <==> LeavesOpen(page, answer)
    ensures Judge(page, answer).Unreadable? <==> answer.None?
    ensures match Judge(page, answer)
            case Found(state) => ShowsState(answer.value.statuses, Some(state))
            case Absent => ShowsState(answer.value.statuses, None)
            case _ => true
  {
    if answer.Some? {
      var shown := answer.value.statuses;
      var k := FirstIndex(shown, REVIEW_STATUS_CONTEXT);
      if k < |shown| { assert shown[k] == ContextStatus("open-inspect", shown[k].state); }
    }
  }

  /**
   * Whatever each page shows, also when statuses change between the requests: the answer is that of the
   * first page that settles the read. The loop ends exactly when there is one; `last` is any page that settles it.
   */
  method GetReviewStatusState(pages: StatusPages, ghost last: nat) returns (state: Option<Option<string>>)
    requires last >= 1 && !LeavesOpen(last, pages(last))
    ensures exists page: nat :: SettlesAt(pages, page) && page <= last &&
              if pages(page).None? then state == None
              else state.Some? && ShowsState(pages(page).value.statuses, state.value)
  {
    var page := 1;
    while true
      invariant 1 <= page <= last && forall q :: 1 <= q < page ==> LeavesOpen(q, pages(q))
      decreases last - page
    {
      var verdict := Judge(page, pages(page));
      JudgesPage(page, pages(page));
      assert !verdict.GoOn? ==> SettlesAt(pages, page);
      match verdict {
        case Unreadable => return None;
        case Found(found) => return Some(Some(found));
        case Absent => return Some(None);
        case GoOn => page := page + 1;
      }
    }
  }

  /** Every page that is answered shows the same statuses, and its count, if it gives one, is theirs. */
  ghost predicate ServesStatuses(pages: StatusPages, statuses: seq<ContextStatus>) {
    forall page :: page >= 1 && pages(page).Some? ==>
      pages(page).value.statuses == PageOf(statuses, page) && pages(page).value.totalCount in {None, Some(|statuses|)}
  }

  /** Of statuses that do not change meanwhile, however many, some page always settles the read. */
  lemma SomePageSettles(pages: StatusPages, statuses: seq<ContextStatus>) returns (last: nat)
    requires ServesStatuses(pages, statuses)
    ensures last >= 1 && !LeavesOpen(last, pages(last))
  {
    last := |statuses| / 100 + 1;
    assert pages(last).Some? ==> |PageOf(statuses, last)| < 100;
  }

  lemma {:induction false} PagesBefore(pages: StatusPages, statuses: seq<ContextStatus>, page: nat)
    requires ServesStatuses(pages, statuses) && page >= 1 && forall q :: 1 <= q < page ==> LeavesOpen(q, pages(q))
    ensures (page - 1) * 100 <= |statuses|
    ensures forall j :: 0 <= j < (page - 1) * 100 ==> statuses[j].context != "open-inspect"
    decreases page
  {
    if page > 1 {
      PagesBefore(pages, statuses, page - 1);
      assert LeavesOpen(page - 1, pages(page - 1));
      var shown := PageOf(statuses, page - 1);
      assert pages(page - 1).value.statuses == shown;
      forall j | (page - 2) * 100 <= j < (page - 1) * 100 ensures statuses[j].context != "open-inspect" {
        assert shown[j - (page - 2) * 100] == statuses[j];
      }
    }
  }

  /** The page that settles the read shows the context, or has the last of the statuses. */
  lemma SettlingPage(pages: StatusPages, statuses: seq<ContextStatus>, page: nat) returns (from: nat)
    requires ServesStatuses(pages, statuses) && SettlesAt(pages, page) && pages(page).Some?
    ensures from == (page - 1) * 100
    ensures var shown := pages(page).value.statuses;
            && from + |shown| <= |statuses| && shown == statuses[from..from + |shown|]
            && (forall j :: 0 <= j < from ==> statuses[j].context != "open-inspect")
            && (from + |shown| == |statuses| || exists k :: 0 <= k < |shown| && shown[k].context == "open-inspect")
  {
    PagesBefore(pages, statuses, page);
    from := (page - 1) * 100;
    assert pages(page).value.statuses == PageOf(statuses, page);
  }

  /**
   * Of such statuses, the page that settles the read shows the context's first state wherever it is, and
   * nothing of it only when it is nowhere.
   */
  lemma SettledTruly(pages: StatusPages, statuses: seq<ContextStatus>, page: nat, state: Option<string>)
    requires ServesStatuses(pages, statuses) && SettlesAt(pages, page) && pages(page).Some?
    ensures ShowsState(pages(page).value.statuses, state) <==> ShowsState(statuses, state)
  {
    var from := SettlingPage(pages, statuses, page);
    var shown := pages(page).value.statuses;
    assert forall j :: 0 <= j < |shown| ==> shown[j] == statuses[from + j];
    if ShowsState(shown, state) && state.Some? {
      var k :| 0 <= k < |shown| && shown[k] == ContextStatus("open-inspect", state.value)
               && forall j :: 0 <= j < k ==> shown[j].context != "open-inspect";
      forall j | 0 <= j < from + k ensures statuses[j].context != "open-inspect" {
        if from <= j { assert shown[j - from] == statuses[j]; }
      }
      assert statuses[from + k] == shown[k];
    } else if ShowsState(shown, state) {
      forall j | 0 <= j < |statuses| ensures statuses[j].context != "open-inspect" {
        if from <= j { assert shown[j - from] == statuses[j]; }
      }
    }
    if ShowsState(statuses, state) && state.Some? {
      var k :| 0 <= k < |statuses| && statuses[k] == ContextStatus("open-inspect", state.value)
               && forall j :: 0 <= j < k ==> statuses[j].context != "open-inspect";
      if h :| 0 <= h < |shown| && shown[h].context == "open-inspect" {
        assert statuses[from + h].context == "open-inspect";
      }
      assert shown[k - from] == statuses[k];
    }
  }
}
