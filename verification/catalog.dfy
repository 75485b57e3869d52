/**
 The public listing and search of events (listApprovedEvents and searchEvents in
 src/controllers/event.controller.js). The catalog is the event collection in the
 order the store's sort on `date` yields; the model filters, skips and limits it.
 */
module Catalog {
  import opened Records

  predicate SortedByDate(c: seq<Event>) {
    forall i, j :: 0 <= i < j < |c| ==> c[i].date <= c[j].date
  }

  /** The approved events of the catalog, in catalog order. */
  function ApprovedOnly(c: seq<Event>): (r: seq<Event>)
    ensures forall x :: x in r <==> x in c && x.status == Approved
    ensures |r| <= |c|
    ensures SortedByDate(c) ==> SortedByDate(r)
  {
    if c == [] then []
    else
      var rest := ApprovedOnly(c[1..]);
      if SortedByDate(c) then
        TailSorted(c);
        if c[0].status == Approved then
          ConsSorted(c, rest);
          [c[0]] + rest
        else rest
      else if c[0].status == Approved then [c[0]] + rest else rest
  }

  /** The tail of a date-sorted list is date-sorted. */
  lemma TailSorted(c: seq<Event>)
    requires c != [] && SortedByDate(c)
    ensures SortedByDate(c[1..])
  {
    forall i, j | 0 <= i < j < |c[1..]|
      ensures c[1..][i].date <= c[1..][j].date
    {
      assert c[1..][i] == c[i + 1] && c[1..][j] == c[j + 1];
    }
  }

  /** Putting the head of a date-sorted list in front of a sorted selection of its tail keeps it sorted. */
  lemma ConsSorted(c: seq<Event>, rest: seq<Event>)
    requires c != [] && SortedByDate(c) && SortedByDate(rest)
    requires forall x :: x in rest ==> x in c[1..]
    ensures SortedByDate([c[0]] + rest)
  {
    forall j | 0 <= j < |rest|
      ensures c[0].date <= rest[j].date
    {
      assert rest[j] in c[1..];
      var k :| 0 <= k < |c[1..]| && c[1..][k] == rest[j];
      assert c[k + 1] == rest[j];
    }
    forall i, j | 0 <= i < j < |[c[0]] + rest|
      ensures ([c[0]] + rest)[i].date <= ([c[0]] + rest)[j].date
    {
      if i > 0 {
        assert ([c[0]] + rest)[i] == rest[i - 1] && ([c[0]] + rest)[j] == rest[j - 1];
      } else {
        assert ([c[0]] + rest)[j] == rest[j - 1];
      }
    }
  }

  /**
   Filtering keeps each event of the catalog or drops it on its own: it
   distributes over concatenation, so it keeps catalog order and multiplicity.
   */
  lemma {:induction false} ApprovedOnlyAppend(a: seq<Event>, b: seq<Event>)
    ensures ApprovedOnly(a + b) == ApprovedOnly(a) + ApprovedOnly(b)
    ensures forall x :: ApprovedOnly([x]) == if x.status == Approved then [x] else []
    decreases |a|
  {
    forall x
      ensures ApprovedOnly([x]) == if x.status == Approved then [x] else []
    {
      assert [x][1..] == [];
    }
    if a == [] {
      assert a + b == b;
    } else {
      assert (a + b)[0] == a[0];
      assert (a + b)[1..] == a[1..] + b;
      ApprovedOnlyAppend(a[1..], b);
    }
  }

  function Min(a: int, b: int): int {
    if a <= b then a else b
  }

  function Abs(a: int): nat {
    if a < 0 then -a else a
  }

  /**
   The window the store returns after skipping `skip` documents with limit `l`:
   a zero limit means no limit, a negative one is taken by its magnitude.
   */
  function Window(approved: seq<Event>, skip: nat, l: int): (r: seq<Event>)
    ensures skip >= |approved| ==> r == []
    ensures skip < |approved| ==>
      && skip + |r| <= |approved|
      && r == approved[skip..skip + |r|]
      && |r| == if l == 0 then |approved| - skip else Min(Abs(l), |approved| - skip)
  {
    var rest := if skip >= |approved| then [] else approved[skip..];
    var take := if l == 0 then |rest| else Min(Abs(l), |rest|);
    rest[..take]
  }

  /** A window of a date-sorted list is date-sorted and drawn from the list. */
  lemma WindowSorted(approved: seq<Event>, skip: nat, l: int)
    ensures forall x :: x in Window(approved, skip, l) ==> x in approved
    ensures SortedByDate(approved) ==> SortedByDate(Window(approved, skip, l))
  {
    var w := Window(approved, skip, l);
    if skip < |approved| {
      forall i | 0 <= i < |w|
        ensures w[i] == approved[skip + i]
      {
      }
    }
  }

  /**
   One page of approved events: `page` defaults to 1 and `limit` to 20; the store
   refuses a negative skip (500, `None` here).
   */
  function ListApproved(c: seq<Event>, page: Option<int>, limit: Option<int>): (r: Option<seq<Event>>)
    ensures var skip := (page.GetOr(1) - 1) * limit.GetOr(20);
      && (r.None? <==> skip < 0)
      && (r.Some? ==> r.value == Window(ApprovedOnly(c), skip, limit.GetOr(20)))
    ensures r.Some? ==> forall x :: x in r.value ==> x in c && x.status == Approved
    ensures r.Some? && limit.GetOr(20) != 0 ==> |r.value| <= Abs(limit.GetOr(20))
    ensures r.Some? && SortedByDate(c) ==> SortedByDate(r.value)
  {
    var skip := (page.GetOr(1) - 1) * limit.GetOr(20);
    if skip < 0 then None
    else
      WindowSorted(ApprovedOnly(c), skip, limit.GetOr(20));
      Some(Window(ApprovedOnly(c), skip, limit.GetOr(20)))
  }

  /** Two adjacent windows of the same positive size are one window twice as large. */
  lemma WindowsTile(approved: seq<Event>, skip: nat, l: int)
    requires l > 0
    ensures Window(approved, skip, l) + Window(approved, skip + l, l)
            == Window(approved, skip, 2 * l)
  {
    var n := |approved|;
    var b := Min(skip + l, n);
    var e := Min(skip + 2 * l, n);
    if skip < n {
      assert Window(approved, skip, l) == approved[skip..b];
      assert Window(approved, skip, 2 * l) == approved[skip..e];
      if skip + l < n {
        assert Window(approved, skip + l, l) == approved[b..e];
      }
      assert approved[skip..b] + approved[b..e] == approved[skip..e];
    }
  }

  /**
   Consecutive pages of the same size tile the approved list: page `p` followed
   by page `p + 1` is the window of twice the size that starts where page `p` does.
   */
  lemma PagesTile(c: seq<Event>, p: int, l: int)
    requires p >= 1 && l > 0
    ensures var first := ListApproved(c, Some(p), Some(l));
      var second := ListApproved(c, Some(p + 1), Some(l));
      && first.Some? && second.Some?
      && first.value + second.value == Window(ApprovedOnly(c), PageStart(p, l), 2 * l)
  {
    var approved := ApprovedOnly(c);
    var start := PageStart(p, l);
    var first := ListApproved(c, Some(p), Some(l));
    var second := ListApproved(c, Some(p + 1), Some(l));
    PageAt(c, p, l);
    PageAt(c, p + 1, l);
    NextPageStart(p, l);
    assert first.value == Window(approved, start, l);
    assert second.value == Window(approved, start + l, l);
    WindowsTile(approved, start, l);
  }

  /** Where page `p` of size `l` starts in the approved list. */
  function PageStart(p: int, l: int): nat
    requires p >= 1 && l > 0
  {
    NonNegativeProduct(p - 1, l);
    (p - 1) * l
  }

  lemma NonNegativeProduct(a: nat, b: nat)
    ensures a * b >= 0
  {
  }

  /** Page `p` of size `l` is the window at its start. */
  lemma PageAt(c: seq<Event>, p: int, l: int)
    requires p >= 1 && l > 0
    ensures ListApproved(c, Some(p), Some(l)) == Some(Window(ApprovedOnly(c), PageStart(p, l), l))
  {
    assert Some(p).GetOr(1) == p && Some(l).GetOr(20) == l;
  }

  /** The next page starts one limit further. */
  lemma NextPageStart(p: int, l: int)
    requires p >= 1 && l > 0
    ensures PageStart(p + 1, l) == PageStart(p, l) + l
  {
    assert (p + 1 - 1) * l == (p - 1) * l + l;
  }

  /** The optional filters of a search; regex matching of text and city is left abstract. */
  datatype SearchQuery = SearchQuery(category: Option<Category>, from: Option<int>, textMatch: Event -> bool)

  /** Search always restricts to approved events, on top of the optional filters. */
  predicate Matches(q: SearchQuery, e: Event) {
    && e.status == Approved
    && (q.category.Some? ==> e.category == q.category.value)
    && (q.from.Some? ==> e.date >= q.from.value)
    && q.textMatch(e)
  }

  /** The matching events of the catalog, in catalog order. */
  function AllMatching(c: seq<Event>, q: SearchQuery): (r: seq<Event>)
    ensures forall x :: x in r <==> x in c && Matches(q, x)
    ensures |r| <= |c|
  {
    if c == [] then []
    else if Matches(q, c[0]) then [c[0]] + AllMatching(c[1..], q)
    else AllMatching(c[1..], q)
  }

  /** Matching distributes over concatenation: a search keeps catalog order and multiplicity. */
  lemma {:induction false} AllMatchingAppend(a: seq<Event>, b: seq<Event>, q: SearchQuery)
    ensures AllMatching(a + b, q) == AllMatching(a, q) + AllMatching(b, q)
    ensures forall x :: AllMatching([x], q) == if Matches(q, x) then [x] else []
    decreases |a|
  {
    forall x
      ensures AllMatching([x], q) == if Matches(q, x) then [x] else []
    {
      assert [x][1..] == [];
    }
    if a == [] {
      assert a + b == b;
    } else {
      assert (a + b)[0] == a[0];
      assert (a + b)[1..] == a[1..] + b;
      AllMatchingAppend(a[1..], b, q);
    }
  }

  /** A search without filters finds exactly the approved events, in the same order as the listing. */
  lemma {:induction false} UnfilteredSearchIsListing(c: seq<Event>)
    ensures AllMatching(c, SearchQuery(None, None, (e: Event) => true)) == ApprovedOnly(c)
    decreases |c|
  {
    if c != [] {
      UnfilteredSearchIsListing(c[1..]);
    }
  }

  /** The cap searchEvents puts on its results. */
  const SearchCap := 100

  /** The first (at most) hundred matching events. */
  function Search(c: seq<Event>, q: SearchQuery): (r: seq<Event>)
    ensures |r| <= SearchCap
    ensures forall x :: x in r ==> x in c && x.status == Approved && Matches(q, x)
    ensures var all := AllMatching(c, q);
      && |r| == Min(SearchCap, |all|)
      && r == all[..|r|]
  {
    var all := AllMatching(c, q);
    var n := Min(SearchCap, |all|);
    assert forall x :: x in all[..n] ==> x in all;
    all[..n]
  }

  /** Every listed page is drawn from what a search without filters would find. */
  lemma ListedAreSearchable(c: seq<Event>, page: Option<int>, limit: Option<int>)
    requires ListApproved(c, page, limit).Some?
    ensures forall x :: x in ListApproved(c, page, limit).value ==>
      x in AllMatching(c, SearchQuery(None, None, (e: Event) => true))
  {
  }
}
