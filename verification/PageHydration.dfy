/**
 Filling in the pages of a NuGet registration: missing pages are fetched
 concurrently in any completion order, with the effect of fetching them one by one.
 */
module PageHydration {
  import opened Prelude

  const MAX_REGISTRATION_PAGES: nat := 64
  const REGISTRATION_PAGE_CONCURRENCY: nat := 8

  type Leaves = seq<string>

  /** A page with its address, if it has one as text, and its leaves, if they are inline. */
  datatype Page = Page(id: Option<string>, items: Option<Leaves>)

  datatype HydrationError = ItemsMissing | TooManyPages | PageHasNoId | FetchFailed(message: string) | PageHasNoItems

  /** What fetching a page gives: a failure, or a document that may have leaves. */
  type Fetched = Result<Option<Leaves>, string>

  /** The provider's answer to the fetch made for the page at a position. */
  type Provider = (nat, string) -> Fetched

  // ---- One page at a time ----

  function HydratePage(provider: Provider, i: nat, page: Page): Result<Page, HydrationError> {
    if page.items.Some? then Ok(page)
    else if page.id.None? then Err(PageHasNoId)
    else match provider(i, page.id.value)
      case Err(message) => Err(FetchFailed(message))
      case Ok(None) => Err(PageHasNoItems)
      case Ok(Some(leaves)) => Ok(page.(items := Some(leaves)))
  }

  /** From left to right, stopping at the first page that cannot be filled in. */
  function HydratePages(provider: Provider, pages: seq<Page>): Result<seq<Page>, HydrationError> {
    if pages == [] then Ok([])
    else
      var n := |pages| - 1;
      match HydratePages(provider, pages[..n])
      case Err(error) => Err(error)
      case Ok(front) =>
        match HydratePage(provider, n, pages[n])
        case Err(error) => Err(error)
        case Ok(page) => Ok(front + [page])
  }

  function Hydrate(provider: Provider, items: Option<seq<Page>>): Result<seq<Page>, HydrationError> {
    if items.None? then Err(ItemsMissing)
    else if |items.value| > MAX_REGISTRATION_PAGES then Err(TooManyPages)
    else HydratePages(provider, items.value)
  }

  lemma {:induction false} HydratePagesPointwise(provider: Provider, pages: seq<Page>)
    ensures HydratePages(provider, pages).Ok? <==>
      forall i :: 0 <= i < |pages| ==> HydratePage(provider, i, pages[i]).Ok?
    ensures HydratePages(provider, pages).Ok? ==> |HydratePages(provider, pages).value| == |pages|
    ensures HydratePages(provider, pages).Ok? ==> forall i :: 0 <= i < |pages| ==>
      HydratePage(provider, i, pages[i]) == Ok(HydratePages(provider, pages).value[i])
  {
    if pages != [] {
      HydratePagesPointwise(provider, pages[..|pages| - 1]);
    }
  }

  /** A page that is to be fetched, and what it is filled with. */
  ghost predicate Fillable(provider: Provider, i: nat, page: Page) {
    page.id.Some? && provider(i, page.id.value).Ok? && provider(i, page.id.value).value.Some?
  }

  /**
   A document of pages can be filled in exactly when it has at most 64, and each page
   has leaves of its own or an address at which its provider has leaves; each page
   then keeps its address and its own leaves, or gets the provider's.
   */
  lemma HydrateExactly(provider: Provider, items: Option<seq<Page>>)
    ensures Hydrate(provider, items).Ok? <==>
      && items.Some? && |items.value| <= 64
      && forall i :: 0 <= i < |items.value| ==> items.value[i].items.Some? || Fillable(provider, i, items.value[i])
    ensures Hydrate(provider, items).Ok? ==>
      var filled := Hydrate(provider, items).value;
      |filled| == |items.value| && forall i :: 0 <= i < |filled| ==>
        && filled[i].id == items.value[i].id
        && filled[i].items ==
             if items.value[i].items.Some? then items.value[i].items else provider(i, items.value[i].id.value).value
  {
    if items.Some? {
      HydratePagesPointwise(provider, items.value);
    }
  }

  lemma {:induction false} SamePages(provider: Provider, pages: seq<Page>, filled: seq<Page>)
    requires |filled| == |pages| && forall i :: 0 <= i < |pages| ==> HydratePage(provider, i, pages[i]) == Ok(filled[i])
    ensures HydratePages(provider, pages) == Ok(filled)
  {
    HydratePagesPointwise(provider, pages);
    var value := HydratePages(provider, pages).value;
    forall i | 0 <= i < |pages|
      ensures value[i] == filled[i]
    {
      assert HydratePage(provider, i, pages[i]) == Ok(value[i]);
    }
    assert value == filled;
  }

  // ---- All at once ----

  /** A fetch to make: the page's position and address. */
  datatype Request = Request(index: nat, id: string)

  datatype Arrival = Arrival(index: nat, leaves: Option<Leaves>)

  predicate IsMissing(pages: seq<Page>, i: int) {
    0 <= i < |pages| && pages[i].items.None?
  }

  predicate RequestOk(pages: seq<Page>, request: Request) {
    IsMissing(pages, request.index) && pages[request.index].id == Some(request.id)
  }

  ghost predicate Ascending(requests: seq<Request>) {
    forall j, k :: 0 <= j < k < |requests| ==> requests[j].index < requests[k].index
  }

  ghost predicate Requested(requests: seq<Request>, i: int) {
    exists k :: 0 <= k < |requests| && requests[k].index == i
  }

  /** The missing pages in order, or the error if one has no address. */
  method CollectRequests(pages: seq<Page>) returns (r: Result<seq<Request>, HydrationError>)
    ensures r.Err? <==> exists i :: IsMissing(pages, i) && pages[i].id.None?
    ensures r.Err? ==> r.error == PageHasNoId
    ensures r.Ok? ==> Ascending(r.value) && forall k :: 0 <= k < |r.value| ==> RequestOk(pages, r.value[k])
    ensures r.Ok? ==> forall i :: IsMissing(pages, i) ==> Requested(r.value, i)
  {
    var requests: seq<Request> := [];
    for index := 0 to |pages|
      invariant Ascending(requests)
      invariant forall k :: 0 <= k < |requests| ==> RequestOk(pages, requests[k]) && requests[k].index < index
      invariant forall i :: i < index && IsMissing(pages, i) ==> pages[i].id.Some? && Requested(requests, i)
    {
      if pages[index].items.None? {
        if pages[index].id.None? {
          assert IsMissing(pages, index);
          return Err(PageHasNoId);
        }
        ghost var before := requests;
        requests := requests + [Request(index, pages[index].id.value)];
        assert requests[|before|].index == index;
        forall i | i < index && IsMissing(pages, i)
          ensures Requested(requests, i)
        {
          assert Requested(before, i);
          var k :| 0 <= k < |before| && before[k].index == i;
          assert requests[k].index == i;
        }
      }
    }
    return Ok(requests);
  }

  /** This arrival answers that request. */
  ghost predicate Answers(provider: Provider, request: Request, arrival: Arrival) {
    arrival.index == request.index && provider(request.index, request.id) == Ok(arrival.leaves)
  }

  ghost predicate Arrived(provider: Provider, requests: seq<Request>, arrivals: seq<Arrival>, k: nat)
    requires k < |requests|
  {
    exists a :: a in arrivals && Answers(provider, requests[k], a)
  }

  /** An arrival comes from a request that has started and is no longer pending. */
  ghost predicate FromRequest(
    provider: Provider, requests: seq<Request>, next: nat, pending: set<nat>, arrival: Arrival)
  {
    exists k :: 0 <= k < next && k < |requests| && k !in pending && Answers(provider, requests[k], arrival)
  }

  ghost predicate FetchInv(
    provider: Provider, requests: seq<Request>, next: nat, pending: set<nat>, arrivals: seq<Arrival>)
  {
    && next <= |requests|
    && (forall k :: k in pending ==> k < next)
    && (forall k: nat :: k < next ==> k in pending || Arrived(provider, requests, arrivals, k))
    && (forall a :: a in arrivals ==> FromRequest(provider, requests, next, pending, a))
    && (forall i, j :: 0 <= i < j < |arrivals| ==> arrivals[i].index != arrivals[j].index)
  }

  lemma StartKeepsInv(provider: Provider, requests: seq<Request>, next: nat, pending: set<nat>, arrivals: seq<Arrival>)
    requires FetchInv(provider, requests, next, pending, arrivals) && next < |requests|
    ensures FetchInv(provider, requests, next + 1, pending + {next}, arrivals)
    ensures |pending + {next}| == |pending| + 1
  {
    forall a | a in arrivals
      ensures FromRequest(provider, requests, next + 1, pending + {next}, a)
    {
      assert FromRequest(provider, requests, next, pending, a);
    }
  }

  lemma ArriveKeepsInv(
    provider: Provider, requests: seq<Request>, next: nat, pending: set<nat>, arrivals: seq<Arrival>, k: nat, a: Arrival)
    requires FetchInv(provider, requests, next, pending, arrivals) && Ascending(requests)
    requires k in pending && Answers(provider, requests[k], a)
    ensures FetchInv(provider, requests, next, pending - {k}, arrivals + [a])
  {
    var after := arrivals + [a];
    forall j: nat | j < next
      ensures j in pending - {k} || Arrived(provider, requests, after, j)
    {
      if j == k {
        assert a in after;
      } else if j !in pending {
        assert Arrived(provider, requests, arrivals, j);
        var b :| b in arrivals && Answers(provider, requests[j], b);
        assert b in after;
      }
    }
    forall b | b in after
      ensures FromRequest(provider, requests, next, pending - {k}, b)
    {
      if b in arrivals {
        assert FromRequest(provider, requests, next, pending, b);
      }
    }
    forall i | 0 <= i < |arrivals|
      ensures arrivals[i].index != a.index
    {
      assert arrivals[i] in arrivals;
      assert FromRequest(provider, requests, next, pending, arrivals[i]);
    }
  }

  ghost predicate FailsWith(provider: Provider, request: Request, error: HydrationError) {
    provider(request.index, request.id).Err? && error == FetchFailed(provider(request.index, request.id).error)
  }

  /** Start fetches in order until eight are in flight or every request has been started. */
  method StartFetches(
      ghost provider: Provider, requests: seq<Request>, next: nat, pending: set<nat>, ghost arrivals: seq<Arrival>, peak: nat)
    returns (next': nat, pending': set<nat>, peak': nat)
    requires FetchInv(provider, requests, next, pending, arrivals)
    requires |pending| <= REGISTRATION_PAGE_CONCURRENCY && peak <= REGISTRATION_PAGE_CONCURRENCY
    requires next < |requests| || pending != {}
    ensures FetchInv(provider, requests, next', pending', arrivals)
    ensures next <= next' && |pending'| == |pending| + next' - next
    ensures pending' != {} && |pending'| <= REGISTRATION_PAGE_CONCURRENCY && peak' <= REGISTRATION_PAGE_CONCURRENCY
    ensures next' == |requests| || |pending'| == REGISTRATION_PAGE_CONCURRENCY
  {
    next', pending', peak' := next, pending, peak;
    while next' < |requests| && |pending'| < REGISTRATION_PAGE_CONCURRENCY
      invariant FetchInv(provider, requests, next', pending', arrivals)
      invariant next <= next' && |pending'| == |pending| + next' - next
      invariant |pending'| <= REGISTRATION_PAGE_CONCURRENCY && peak' <= REGISTRATION_PAGE_CONCURRENCY
      decreases |requests| - next'
    {
      StartKeepsInv(provider, requests, next', pending', arrivals);
      pending' := pending' + {next'};
      next' := next' + 1;
      peak' := Max(peak', |pending'|);
    }
  }

  /** Take whichever fetch finishes next: its answer arrives, or its failure ends everything. */
  method TakeArrival(
      provider: Provider, requests: seq<Request>, ghost next: nat, pending: set<nat>, arrivals: seq<Arrival>)
    returns (r: Result<seq<Arrival>, HydrationError>, pending': set<nat>)
    requires FetchInv(provider, requests, next, pending, arrivals) && Ascending(requests) && pending != {}
    ensures pending' < pending && |pending'| + 1 == |pending|
    ensures r.Ok? ==> FetchInv(provider, requests, next, pending', r.value) && |r.value| == |arrivals| + 1
    ensures r.Err? ==> exists k :: 0 <= k < next && FailsWith(provider, requests[k], r.error)
  {
    var k :| k in pending;
    pending' := pending - {k};
    var answer := provider(requests[k].index, requests[k].id);
    if answer.Err? {
      r := Err(FetchFailed(answer.error));
      assert FailsWith(provider, requests[k], r.error);
    } else {
      var arrival := Arrival(requests[k].index, answer.value);
      ArriveKeepsInv(provider, requests, next, pending, arrivals, k, arrival);
      r := Ok(arrivals + [arrival]);
    }
  }

  /**
   Keep up to eight fetches in flight and take whichever finishes next.  `started`
   lists the fetches made and `peak` is the most that were in flight at once.
   */
  method FetchAll(provider: Provider, requests: seq<Request>)
    returns (r: Result<seq<Arrival>, HydrationError>, started: seq<Request>, peak: nat)
    requires Ascending(requests)
    ensures started <= requests && peak <= 8
    ensures r.Ok? ==> started == requests && FetchInv(provider, requests, |requests|, {}, r.value)
    ensures r.Err? ==> exists k :: 0 <= k < |started| && FailsWith(provider, requests[k], r.error)
  {
    var pending: set<nat> := {};
    var next, arrivals := 0, [];
    started, peak := [], 0;
    while next < |requests| || pending != {}
      invariant FetchInv(provider, requests, next, pending, arrivals)
      invariant started == requests[..next]
      invariant |pending| <= REGISTRATION_PAGE_CONCURRENCY && peak <= REGISTRATION_PAGE_CONCURRENCY
      decreases 2 * (|requests| - next) + |pending|
    {
      next, pending, peak := StartFetches(provider, requests, next, pending, arrivals, peak);
      started := requests[..next];
      r, pending := TakeArrival(provider, requests, next, pending, arrivals);
      if r.Err? {
        return;
      }
      arrivals := r.value;
    }
    r := Ok(arrivals);
  }

  ghost predicate InOrder(arrivals: seq<Arrival>) {
    forall i, j :: 0 <= i < j < |arrivals| ==> arrivals[i].index < arrivals[j].index
  }

  /** Insert before the first arrival with a greater position. */
  function InsertByIndex(sorted: seq<Arrival>, a: Arrival): seq<Arrival> {
    if sorted == [] || a.index < sorted[0].index then [a] + sorted else [sorted[0]] + InsertByIndex(sorted[1..], a)
  }

  function SortByIndex(arrivals: seq<Arrival>): seq<Arrival> {
    if arrivals == [] then []
    else InsertByIndex(SortByIndex(arrivals[..|arrivals| - 1]), arrivals[|arrivals| - 1])
  }

  lemma {:induction false} InsertMembers(sorted: seq<Arrival>, a: Arrival)
    ensures forall x :: x in InsertByIndex(sorted, a) <==> x in sorted || x == a
    ensures |InsertByIndex(sorted, a)| == |sorted| + 1
  {
    if sorted != [] && a.index >= sorted[0].index {
      InsertMembers(sorted[1..], a);
      assert sorted == [sorted[0]] + sorted[1..];
    }
  }

  lemma {:induction false} InsertSorts(sorted: seq<Arrival>, a: Arrival)
    requires InOrder(sorted) && forall i :: 0 <= i < |sorted| ==> sorted[i].index != a.index
    ensures InOrder(InsertByIndex(sorted, a))
  {
    if sorted != [] && a.index >= sorted[0].index {
      InsertSorts(sorted[1..], a);
      InsertMembers(sorted[1..], a);
      var rest := InsertByIndex(sorted[1..], a);
      forall j | 0 <= j < |rest|
        ensures sorted[0].index < rest[j].index
      {
        assert rest[j] in rest;
      }
    }
  }

  lemma {:induction false} SortIsOrdered(arrivals: seq<Arrival>)
    requires forall i, j :: 0 <= i < j < |arrivals| ==> arrivals[i].index != arrivals[j].index
    ensures forall x :: x in SortByIndex(arrivals) <==> x in arrivals
    ensures InOrder(SortByIndex(arrivals))
  {
    if arrivals != [] {
      var n := |arrivals| - 1;
      SortIsOrdered(arrivals[..n]);
      var front := SortByIndex(arrivals[..n]);
      InsertMembers(front, arrivals[n]);
      forall i | 0 <= i < |front|
        ensures front[i].index != arrivals[n].index
      {
        assert front[i] in front;
      }
      InsertSorts(front, arrivals[n]);
      assert arrivals == arrivals[..n] + [arrivals[n]];
    }
  }

  /** Each arrival is the answer for a missing page, and every missing page has one. */
  ghost predicate Complete(provider: Provider, pages: seq<Page>, arrivals: seq<Arrival>) {
    && InOrder(arrivals)
    && (forall i :: 0 <= i < |arrivals| ==>
          IsMissing(pages, arrivals[i].index) && pages[arrivals[i].index].id.Some?
          && provider(arrivals[i].index, pages[arrivals[i].index].id.value) == Ok(arrivals[i].leaves))
    && (forall k :: IsMissing(pages, k) ==> exists i :: 0 <= i < |arrivals| && arrivals[i].index == k)
  }

  lemma ArrivalsAreComplete(provider: Provider, pages: seq<Page>, requests: seq<Request>, arrivals: seq<Arrival>)
    requires Ascending(requests) && forall k :: 0 <= k < |requests| ==> RequestOk(pages, requests[k])
    requires forall i :: IsMissing(pages, i) ==> Requested(requests, i)
    requires FetchInv(provider, requests, |requests|, {}, arrivals)
    ensures Complete(provider, pages, SortByIndex(arrivals))
  {
    var sorted := SortByIndex(arrivals);
    SortIsOrdered(arrivals);
    forall i | 0 <= i < |sorted|
      ensures IsMissing(pages, sorted[i].index) && pages[sorted[i].index].id.Some?
        && provider(sorted[i].index, pages[sorted[i].index].id.value) == Ok(sorted[i].leaves)
    {
      assert sorted[i] in sorted;
      assert FromRequest(provider, requests, |requests|, {}, sorted[i]);
    }
    forall i | IsMissing(pages, i)
      ensures exists j :: 0 <= j < |sorted| && sorted[j].index == i
    {
      assert Requested(requests, i);
      var k: nat :| k < |requests| && requests[k].index == i;
      assert Arrived(provider, requests, arrivals, k);
      var a :| a in arrivals && Answers(provider, requests[k], a);
      assert a in sorted;
    }
  }

  /** A registration document whose pages are filled in place. */
  class Document {
    var items: Option<seq<Page>>

    constructor (items: Option<seq<Page>>)
      ensures this.items == items
    {
      this.items := items;
    }

    /** Put the arrivals into their pages in page order. */
    method Fill(provider: Provider, arrivals: seq<Arrival>) returns (r: Result<(), HydrationError>)
      requires items.Some? && Complete(provider, items.value, arrivals)
      modifies this
      ensures r.Ok? <==> HydratePages(provider, old(items).value).Ok?
      ensures r.Ok? ==> items == Some(HydratePages(provider, old(items).value).value)
      ensures r.Err? ==> r.error == PageHasNoItems
    {
      ghost var pages := items.value;
      HydratePagesPointwise(provider, pages);
      for n := 0 to |arrivals|
        invariant items.Some? && |items.value| == |pages|
        invariant forall i :: 0 <= i < n ==>
          HydratePage(provider, arrivals[i].index, pages[arrivals[i].index]) == Ok(items.value[arrivals[i].index])
        invariant forall k :: 0 <= k < |pages| && (forall i :: 0 <= i < n ==> arrivals[i].index != k) ==>
          items.value[k] == pages[k]
      {
        var index := arrivals[n].index;
        if arrivals[n].leaves.None? {
          assert HydratePage(provider, index, pages[index]).Err?;
          return Err(PageHasNoItems);
        }
        items := Some(items.value[index := items.value[index].(items := arrivals[n].leaves)]);
      }
      forall k | 0 <= k < |pages|
        ensures HydratePage(provider, k, pages[k]) == Ok(items.value[k])
      {
        if IsMissing(pages, k) {
          var i :| 0 <= i < |arrivals| && arrivals[i].index == k;
        }
      }
      SamePages(provider, pages, items.value);
      return Ok(());
    }

    /**
     Whatever order fetches finish in: success exactly when filling one page at a
     time from the left succeeds, then with the same document; each missing page
     is fetched at most once, and no more than eight at a time.
     */
    method HydrateRegistrationPages(provider: Provider)
      returns (r: Result<(), HydrationError>, started: seq<Request>, peak: nat)
      modifies this
      ensures r.Ok? <==> Hydrate(provider, old(items)).Ok?
      ensures r.Ok? ==> items == Some(Hydrate(provider, old(items)).value)
      ensures Ascending(started) && peak <= 8
      ensures old(items).Some? ==> forall k :: 0 <= k < |started| ==> RequestOk(old(items).value, started[k])
      ensures old(items).None? ==> started == []
      ensures r.Ok? ==> forall i :: IsMissing(old(items).value, i) ==> Requested(started, i)
      ensures r.Err? && !r.error.PageHasNoItems? ==> items == old(items)
      ensures r.Err? && (r.error.ItemsMissing? || r.error.TooManyPages? || r.error.PageHasNoId?) ==> started == []
    {
      started, peak := [], 0;
      if items.None? {
        return Err(ItemsMissing), started, peak;
      }
      var pages := items.value;
      if |pages| > MAX_REGISTRATION_PAGES {
        return Err(TooManyPages), started, peak;
      }
      HydratePagesPointwise(provider, pages);
      var requests := CollectRequests(pages);
      if requests.Err? {
        ghost var i :| IsMissing(pages, i) && pages[i].id.None?;
        assert HydratePage(provider, i, pages[i]).Err?;
        return Err(requests.error), started, peak;
      }
      var arrivals;
      arrivals, started, peak := FetchAll(provider, requests.value);
      if arrivals.Err? {
        ghost var k :| 0 <= k < |started| && FailsWith(provider, requests.value[k], arrivals.error);
        assert RequestOk(pages, requests.value[k]);
        assert HydratePage(provider, requests.value[k].index, pages[requests.value[k].index]).Err?;
        return Err(arrivals.error), started, peak;
      }
      ArrivalsAreComplete(provider, pages, requests.value, arrivals.value);
      r := Fill(provider, SortByIndex(arrivals.value));
    }
  }
}
