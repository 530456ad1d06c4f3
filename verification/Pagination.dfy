/** Paged lists (src/common/utils/pagination.util.ts), with the skip and limit of the list queries. */
module Pagination {

  datatype Meta = Meta(
    total: nat, page: int, limit: nat, totalPages: nat, hasNextPage: bool, hasPreviousPage: bool)

  datatype Response<T> = Response(data: seq<T>, meta: Meta)

  /** The quotient rounded up. */
  function TotalPages(total: nat, limit: nat): (n: nat)
    requires limit > 0
  {
    (total + limit - 1) / limit
  }

  function CreatePaginatedResponse<T>(data: seq<T>, total: nat, page: int, limit: nat): Response<T>
    requires limit > 0
  {
    var totalPages := TotalPages(total, limit);
    Response(data, Meta(total, page, limit, totalPages, page < totalPages, page > 1))
  }

  function Min(a: nat, b: nat): nat {
    if a <= b then a else b
  }

  /** The slice a query returns for a page. */
  function Slice<T>(items: seq<T>, page: nat, limit: nat): seq<T>
    requires page >= 1
  {
    items[Min((page - 1) * limit, |items|)..Min((page - 1) * limit + limit, |items|)]
  }

  function Fetch<T>(items: seq<T>, page: nat, limit: nat): Response<T>
    requires page >= 1 && limit > 0
  {
    CreatePaginatedResponse(Slice(items, page, limit), |items|, page, limit)
  }

  /** The pages seen when starting at a page and following hasNextPage. */
  function Follow<T>(items: seq<T>, page: nat, limit: nat): seq<seq<T>>
    requires page >= 1 && limit > 0
    decreases TotalPages(|items|, limit) - page
  {
    var response := Fetch(items, page, limit);
    [response.data] + if response.meta.hasNextPage then Follow(items, page + 1, limit) else []
  }

  function Concat<T>(pages: seq<seq<T>>): seq<T> {
    if pages == [] then [] else pages[0] + Concat(pages[1..])
  }

  /** The page count is the least number of pages that holds every item. */
  lemma TotalPagesIsLeast(total: nat, limit: nat, n: nat)
    requires limit > 0
    ensures total <= n * limit <==> TotalPages(total, limit) <= n
  {
    var t := TotalPages(total, limit);
    var r := (total + limit - 1) % limit;
    assert total + limit - 1 == t * limit + r;
    if t <= n {
      assert t * limit <= n * limit;
    } else {
      assert (n + 1) * limit <= t * limit;
      assert (n + 1) * limit == n * limit + limit;
    }
  }

  /** A page holds something exactly if it is one of the counted pages. */
  lemma PageHoldsItemsIff<T>(items: seq<T>, page: nat, limit: nat)
    requires page >= 1 && limit > 0
    ensures Slice(items, page, limit) != [] <==> page <= TotalPages(|items|, limit)
  {
    hide TotalPages;
    TotalPagesIsLeast(|items|, limit, page - 1);
  }

  /** Every item is on exactly the page its position gives. */
  lemma ItemIsOnItsPage<T>(items: seq<T>, i: nat, limit: nat)
    requires i < |items| && limit > 0
    ensures var page := Slice(items, i / limit + 1, limit);
            i % limit < |page| && page[i % limit] == items[i]
  {
    assert i == i / limit * limit + i % limit;
  }

  /** A page before the last is full; the last takes what is left. */
  lemma PageIsFullOrLast<T>(items: seq<T>, page: nat, limit: nat)
    requires limit > 0 && page >= 1
    requires page == 1 || page <= TotalPages(|items|, limit)
    ensures var start := (page - 1) * limit;
            && start <= |items| && page * limit == start + limit
            && (page < TotalPages(|items|, limit) ==>
                  start + limit <= |items| && Slice(items, page, limit) == items[start..start + limit])
            && (page >= TotalPages(|items|, limit) ==> Slice(items, page, limit) == items[start..])
  {
    hide TotalPages;
    TotalPagesIsLeast(|items|, limit, page - 1);
    TotalPagesIsLeast(|items|, limit, page);
    assert page * limit == (page - 1) * limit + limit;
  }

  /** A response tells of a next page if that would hold something, and of a previous one but on the first. */
  lemma ResponseTells<T>(items: seq<T>, page: nat, limit: nat)
    requires limit > 0 && page >= 1
    ensures var r := Fetch(items, page, limit);
            && r.data == Slice(items, page, limit)
            && r.meta.total == |items| && r.meta.page == page && r.meta.limit == limit
            && (r.meta.hasNextPage <==> Slice(items, page + 1, limit) != [])
            && (r.meta.hasPreviousPage <==> page != 1)
            && (page <= r.meta.totalPages <==> Slice(items, page, limit) != [])
  {
    hide TotalPages;
    PageHoldsItemsIff(items, page, limit);
    PageHoldsItemsIff(items, page + 1, limit);
  }

  lemma FollowUnfolds<T>(items: seq<T>, page: nat, limit: nat)
    requires limit > 0 && page >= 1
    ensures var first, n := Slice(items, page, limit), TotalPages(|items|, limit);
            && (page < n ==> var rest := Follow(items, page + 1, limit);
                  && |Follow(items, page, limit)| == 1 + |rest|
                  && Concat(Follow(items, page, limit)) == first + Concat(rest))
            && (page >= n ==> |Follow(items, page, limit)| == 1 && Concat(Follow(items, page, limit)) == first)
  {
    hide TotalPages, Slice;
  }

  lemma {:induction false} FollowYieldsRest<T>(items: seq<T>, page: nat, limit: nat)
    requires limit > 0 && page >= 1
    requires page == 1 || page <= TotalPages(|items|, limit)
    ensures var n := TotalPages(|items|, limit);
            |Follow(items, page, limit)| == if n == 0 then 1 else n - page + 1
    ensures (page - 1) * limit <= |items|
    ensures Concat(Follow(items, page, limit)) == items[(page - 1) * limit..]
    decreases TotalPages(|items|, limit) - page
  {
    hide TotalPages, Follow, Slice, Concat;
    var start := (page - 1) * limit;
    PageIsFullOrLast(items, page, limit);
    FollowUnfolds(items, page, limit);
    if page < TotalPages(|items|, limit) {
      FollowYieldsRest(items, page + 1, limit);
      assert items[start..] == items[start..start + limit] + items[start + limit..];
    }
  }

  /** From the first page on, following hasNextPage sees every item once, in order, and stops after the last page. */
  lemma FollowingPagesPartitions<T>(items: seq<T>, limit: nat)
    requires limit > 0
    ensures var pages := Follow(items, 1, limit);
            Concat(pages) == items && |pages| == if items == [] then 1 else TotalPages(|items|, limit)
  {
    hide TotalPages;
    FollowYieldsRest(items, 1, limit);
    TotalPagesIsLeast(|items|, limit, 0);
    assert items[0..] == items;
  }
}
