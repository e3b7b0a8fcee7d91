/** The page walker behind `MealieClient.fetch_categories` and
    `MealieClient.fetch_recipes` (the two are the same loop over different
    endpoints). The server is a finite supply of decoded replies: `pages[k]`
    answers the request for page k + 1; a page past the supply is answered with
    an empty `items` page, as a server that has run out of data does. */
module Pager {
  import opened Base

  /** The fixed `pageSize` query parameter. */
  const PageSize: nat := 100

  /** One decoded reply to a page request. */
  datatype Reply<T> =
    | Paged(items: seq<T>, total: Option<int>)  // an object with "items" and, maybe, "total"
    | Bare(list: seq<T>)                         // a bare JSON array
    | Other                                      // any other JSON value (an object without "items", a string, ...)
    | Failed                                     // transport error or non-2xx status

  datatype PageRequest = PageRequest(page: nat, pageSize: nat)

  /** How a walk ends. `requests` counts the page requests made. `Hangs(k)`
      stands for the source's endless loop: page k matched no branch, and the
      deterministic server gives the same reply to every repeated request. */
  datatype Walked<T> =
    | Complete(items: seq<T>, requests: nat)
    | TransportError(requests: nat)
    | Hangs(requests: nat)

  /** The reply to the request for page `page` (1-based). */
  function Served<T>(pages: seq<Reply<T>>, page: nat): Reply<T>
  {
    if 1 <= page <= |pages| then pages[page - 1] else Paged([], None)
  }

  /** `data.get("total", 0)` */
  function TotalOrZero(total: Option<int>): int
  {
    match total
    case None => 0
    case Some(t) => t
  }

  function ItemsOf<T>(reply: Reply<T>): seq<T>
  {
    match reply
    case Paged(items, _) => items
    case Bare(list) => list
    case _ => []
  }

  /** The in-order concatenation of the items of the replies to pages 1..k. */
  function Gathered<T>(pages: seq<Reply<T>>, k: nat): seq<T>
  {
    if k == 0 then [] else Gathered(pages, k - 1) + ItemsOf(Served(pages, k))
  }

  /** After receiving page k the walk asks for page k + 1: the page is a
      non-empty `items` page and the count so far is below its total. */
  predicate Continues<T>(pages: seq<Reply<T>>, k: nat)
  {
    && Served(pages, k).Paged?
    && Served(pages, k).items != []
    && |Gathered(pages, k)| < TotalOrZero(Served(pages, k).total)
  }

  /** Page k is the first page after which the walk does not go on. */
  predicate IsFirstStop<T>(pages: seq<Reply<T>>, k: nat)
  {
    1 <= k && !Continues(pages, k) && forall j :: 1 <= j < k ==> Continues(pages, j)
  }

  /** What the walk yields when page k is its first stop. */
  function StopOutcome<T>(pages: seq<Reply<T>>, k: nat): Walked<T>
  {
    match Served(pages, k)
    case Failed => TransportError(k)
    case Other => Hangs(k)
    case _ => Complete(Gathered(pages, k), k)
  }

  /** The loop of mealie_client.py, from page `page` with `acc` accumulated. */
  function WalkFrom<T>(pages: seq<Reply<T>>, page: nat, acc: seq<T>): Walked<T>
    requires 1 <= page
    decreases |pages| + 1 - page
  {
    match Served(pages, page)
    case Failed => TransportError(page)
    case Other => Hangs(page)
    case Bare(list) => Complete(acc + list, page)
    case Paged(items, total) =>
      if items == [] then Complete(acc, page)
      else if |acc + items| >= TotalOrZero(total) then Complete(acc + items, page)
      else WalkFrom(pages, page + 1, acc + items)
  }

  function Walk<T>(pages: seq<Reply<T>>): Walked<T>
  {
    WalkFrom(pages, 1, [])
  }

  /** The walk as the source writes it: request a page, extend the
      accumulator, advance the page counter. */
  method FetchAll<T>(pages: seq<Reply<T>>) returns (r: Walked<T>, requests: seq<PageRequest>)
    ensures r == Walk(pages)
    ensures |requests| == r.requests
    ensures forall i :: 0 <= i < |requests| ==> requests[i] == PageRequest(i + 1, PageSize)
  {
    var acc: seq<T> := [];
    var page: nat := 1;
    requests := [];
    while true
      invariant 1 <= page <= |pages| + 1
      invariant WalkFrom(pages, page, acc) == Walk(pages)
      invariant |requests| == page - 1
      invariant forall i :: 0 <= i < |requests| ==> requests[i] == PageRequest(i + 1, PageSize)
      invariant |acc| >= page - 1
      decreases |pages| + 1 - page
    {
      requests := requests + [PageRequest(page, PageSize)];
      var reply := Served(pages, page);
      match reply {
        case Failed =>
          r := TransportError(page);
          return;
        case Other =>
          r := Hangs(page);
          return;
        case Bare(list) =>
          acc := acc + list;
          r := Complete(acc, page);
          return;
        case Paged(items, total) =>
          if items == [] {
            r := Complete(acc, page);
            return;
          }
          acc := acc + items;
          if |acc| >= TotalOrZero(total) {
            r := Complete(acc, page);
            return;
          }
          page := page + 1;
      }
    }
  }

  lemma {:induction false} WalkFromOutcome<T>(pages: seq<Reply<T>>, p: nat, k: nat)
    requires IsFirstStop(pages, k) && 1 <= p <= k
    ensures WalkFrom(pages, p, Gathered(pages, p - 1)) == StopOutcome(pages, k)
    decreases k - p
  {
    var acc := Gathered(pages, p - 1);
    assert Gathered(pages, p) == acc + ItemsOf(Served(pages, p));
    if p < k {
      assert Continues(pages, p);
      WalkFromOutcome(pages, p + 1, k);
    } else {
      match Served(pages, p)
      case Paged(items, total) =>
        if items == [] {
          assert acc + items == acc;
        }
      case _ =>
    }
  }

  /** Walk stops at the first page that does not continue it, and its outcome
      is then fixed by that page: a transport error, the hang, or every item
      received up to and including that page, in order. */
  lemma WalkOutcome<T>(pages: seq<Reply<T>>, k: nat)
    requires IsFirstStop(pages, k)
    ensures Walk(pages) == StopOutcome(pages, k)
  {
    WalkFromOutcome(pages, 1, k);
  }

  lemma {:induction false} FirstStopFrom<T>(pages: seq<Reply<T>>, p: nat) returns (k: nat)
    requires 1 <= p <= |pages| + 1
    requires forall j :: 1 <= j < p ==> Continues(pages, j)
    ensures p <= k <= |pages| + 1 && IsFirstStop(pages, k)
    decreases |pages| + 1 - p
  {
    if Continues(pages, p) {
      k := FirstStopFrom(pages, p + 1);
    } else {
      k := p;
    }
  }

  /** Every supply has a first stop, no later than the page just past the
      supply: so the walk always ends, after at most |pages| + 1 requests. */
  lemma FirstStopExists<T>(pages: seq<Reply<T>>) returns (k: nat)
    ensures 1 <= k <= |pages| + 1 && IsFirstStop(pages, k)
    ensures Walk(pages) == StopOutcome(pages, k)
  {
    k := FirstStopFrom(pages, 1);
    WalkOutcome(pages, k);
  }

  /** Every continuing page adds at least one item, so after the walk has
      gone past pages 1..k-1 at least k - 1 items are accumulated. */
  lemma {:induction false} ContinuingPagesGrow<T>(pages: seq<Reply<T>>, k: nat)
    requires 1 <= k
    requires forall j :: 1 <= j < k ==> Continues(pages, j)
    ensures |Gathered(pages, k - 1)| >= k - 1
  {
    if k > 1 {
      ContinuingPagesGrow(pages, k - 1);
      assert Continues(pages, k - 1);
    }
  }

  /** A bare list on page 1 is the whole result, after one request. */
  lemma WalkBareFirst<T>(pages: seq<Reply<T>>)
    requires pages != [] && pages[0].Bare?
    ensures Walk(pages) == Complete(pages[0].list, 1)
  {
    assert [] + pages[0].list == pages[0].list;
  }

  /** An empty first page (or an empty supply) gives [] after one request. */
  lemma WalkEmptyFirst<T>(pages: seq<Reply<T>>)
    requires pages == [] || (pages[0].Paged? && pages[0].items == [])
    ensures Walk(pages) == Complete([], 1)
  {
  }

  /** A missing total counts as 0, so a non-empty first page ends the walk. */
  lemma WalkMissingTotal<T>(pages: seq<Reply<T>>)
    requires pages != [] && pages[0].Paged? && pages[0].items != [] && pages[0].total == None
    ensures Walk(pages) == Complete(pages[0].items, 1)
  {
    assert [] + pages[0].items == pages[0].items;
  }

  /** A regular paginated collection: every page is a non-empty `items` page,
      the running count stays below the reported total until the last page,
      which reaches it. The walk returns the concatenation of all pages in
      order, and makes exactly one request per page. */
  lemma WalkAllPages<T>(pages: seq<Reply<T>>)
    requires pages != []
    requires forall j :: 0 <= j < |pages| ==> pages[j].Paged? && pages[j].items != []
    requires forall j :: 1 <= j < |pages| ==> |Gathered(pages, j)| < TotalOrZero(pages[j - 1].total)
    requires |Gathered(pages, |pages|)| >= TotalOrZero(pages[|pages| - 1].total)
    ensures Walk(pages) == Complete(Gathered(pages, |pages|), |pages|)
  {
    var n := |pages|;
    forall j | 1 <= j < n ensures Continues(pages, j) {
      assert Served(pages, j) == pages[j - 1];
    }
    assert Served(pages, n) == pages[n - 1];
    assert IsFirstStop(pages, n);
    WalkOutcome(pages, n);
  }
}
