/** Page requests, in-memory slices and upstream pages (src/pagination.rs). */
module Pagination {
  import opened Arithmetic
  import opened Text

  const USIZE_MAX: nat := 0xFFFF_FFFF_FFFF_FFFF
  const MAX_LIMIT: nat := 100

  type usize = n: nat | n <= USIZE_MAX

  datatype RequestError = ZeroPage | LimitOutOfRange | OffsetTooLarge

  datatype PageRequest = PageRequest(page: usize, limit: usize, offset: usize)

  function NewRequest(page: usize, limit: usize): Result<PageRequest, RequestError> {
    if page == 0 then Err(ZeroPage)
    else if !(1 <= limit <= MAX_LIMIT) then Err(LimitOutOfRange)
    else
      var offset := (page - 1) * limit;
      if offset > USIZE_MAX || offset > I64_MAX then Err(OffsetTooLarge)
      else Ok(PageRequest(page, limit, offset))
  }

  /** The requests there are: the fields are private, so each comes from `NewRequest`. */
  ghost predicate IsRequest(r: PageRequest) {
    NewRequest(r.page, r.limit) == Ok(r)
  }

  datatype Paged<T> = Paged(items: seq<T>, page: usize, limit: usize, total: Option<usize>, hasMore: bool)

  function SaturatingAdd(a: usize, b: nat): usize {
    if a + b > USIZE_MAX then USIZE_MAX else a + b
  }

  function Known<T>(items: seq<T>, r: PageRequest, total: usize): Paged<T> {
    Paged(items, r.page, r.limit, Some(total), SaturatingAdd(r.offset, |items|) < total)
  }

  /** `skip(offset).take(limit)`. */
  function Window<T>(list: seq<T>, offset: nat, limit: nat): seq<T> {
    var rest := if offset <= |list| then list[offset..] else [];
    if limit <= |rest| then rest[..limit] else rest
  }

  function Slice<T>(list: seq<T>, r: PageRequest): Paged<T>
    requires |list| <= USIZE_MAX
  {
    Known(Window(list, r.offset, r.limit), r, |list|)
  }

  // --- Upstream pages. ---

  /** One upstream answer: the items, and the total if the upstream gives one. */
  datatype Answer<T> = Answer(items: seq<T>, total: Option<usize>)

  datatype PageError<E> =
    | Upstream(error: E)
    | PageLimitExceeded
    | PageOffsetOverflow
    | IncompleteBeforeTotal
    | LookaheadLimitExceeded
    | IncompleteWithoutTotal

  /**
   * What `native_page` makes of the answers. The upstream may answer anything
   * and change from call to call: `fetch` is also told how many calls came before.
   */
  function NativePage<T, E>(r: PageRequest, fetch: (nat, usize, usize) -> Result<Answer<T>, E>)
    : Result<Paged<T>, PageError<E>>
  {
    match fetch(0, r.offset, r.limit)
    case Err(e) => Err(Upstream(e))
    case Ok(Answer(items, total)) =>
      if |items| > r.limit then Err(PageLimitExceeded)
      else if r.offset + |items| > USIZE_MAX then Err(PageOffsetOverflow)
      else
        var next: usize := r.offset + |items|;
        match total
        case Some(t) =>
          if next < t && |items| < r.limit then Err(IncompleteBeforeTotal)
          else Ok(Paged(items, r.page, r.limit, total, next < t))
        case None =>
          match fetch(1, next, 1)
          case Err(e) => Err(Upstream(e))
          case Ok(Answer(lookahead, _)) =>
            if |lookahead| > 1 then Err(LookaheadLimitExceeded)
            else if lookahead != [] && |items| < r.limit then Err(IncompleteWithoutTotal)
            else Ok(Paged(items, r.page, r.limit, total, lookahead != []))
  }

  /** An upstream that counts its calls; what it answers may depend on how many came before. */
  class Upstream<T, E> {
    const answers: (nat, usize, usize) -> Result<Answer<T>, E>
    var calls: nat

    constructor (answers: (nat, usize, usize) -> Result<Answer<T>, E>)
      ensures this.answers == answers && calls == 0
    {
      this.answers, this.calls := answers, 0;
    }

    method Fetch(offset: usize, limit: usize) returns (answer: Result<Answer<T>, E>)
      modifies this
      ensures calls == old(calls) + 1 && answer == answers(old(calls), offset, limit)
    {
      answer := answers(calls, offset, limit);
      calls := calls + 1;
    }
  }

  /** `native_page`: one fetch, and a second one for a single item when no total is given. */
  method ReadNativePage<T, E>(r: PageRequest, upstream: Upstream<T, E>) returns (page: Result<Paged<T>, PageError<E>>)
    modifies upstream
    ensures page == NativePage(r, AnswersFrom(upstream.answers, old(upstream.calls)))
    ensures old(upstream.calls) < upstream.calls <= old(upstream.calls) + 2
    ensures page.Ok? ==> (upstream.calls == old(upstream.calls) + 2 <==> page.value.total == None)
  {
    var first := upstream.Fetch(r.offset, r.limit);
    if first.Err? {
      return Err(Upstream(first.error));
    }
    var items, total := first.value.items, first.value.total;
    if |items| > r.limit {
      return Err(PageLimitExceeded);
    }
    if r.offset + |items| > USIZE_MAX {
      return Err(PageOffsetOverflow);
    }
    var next: usize := r.offset + |items|;
    var hasMore: bool;
    if total.Some? {
      hasMore := next < total.value;
      if hasMore && |items| < r.limit {
        return Err(IncompleteBeforeTotal);
      }
    } else {
      var second := upstream.Fetch(next, 1);
      if second.Err? {
        return Err(Upstream(second.error));
      }
      var lookahead := second.value.items;
      if |lookahead| > 1 {
        return Err(LookaheadLimitExceeded);
      }
      if lookahead != [] && |items| < r.limit {
        return Err(IncompleteWithoutTotal);
      }
      hasMore := lookahead != [];
    }
    return Ok(Paged(items, r.page, r.limit, total, hasMore));
  }

  /** The answers an upstream still has after some calls. */
  function AnswersFrom<T, E>(answers: (nat, usize, usize) -> Result<Answer<T>, E>, calls: nat)
    : (nat, usize, usize) -> Result<Answer<T>, E>
  {
    (call: nat, offset: usize, limit: usize) => answers(calls + call, offset, limit)
  }

  /** What the arithmetic needs to know about a request. */
  ghost predicate InRange(r: PageRequest) {
    1 <= r.page && 1 <= r.limit <= MAX_LIMIT && r.offset <= I64_MAX
  }

  lemma RequestIsInRange(r: PageRequest)
    requires IsRequest(r)
    ensures InRange(r) && r.offset == (r.page - 1) * r.limit
  {}

  lemma OneMore(k: nat, limit: nat)
    requires limit >= 1
    ensures (k + 1) * limit == k * limit + limit && k <= k * limit
  {}

  /** There is a request exactly for a page from 1 on, a limit from 1 to 100 and an offset that fits i64. */
  lemma RequestExactly(page: usize, limit: usize)
    ensures var r := NewRequest(page, limit);
            && (r.Ok? <==> page >= 1 && 1 <= limit <= 100 && (page - 1) * limit <= I64_MAX)
            && (r.Ok? ==> r.value.page == page && r.value.limit == limit && r.value.offset == (page - 1) * limit)
            && (r == Err(ZeroPage) <==> page == 0)
            && (r == Err(LimitOutOfRange) <==> page > 0 && (limit == 0 || limit > 100))
  {}

  /** The answers fit together: no more than was asked for, and a short page only at the end. */
  ghost predicate FitTogether<E, T>(r: PageRequest, fetch: (nat, usize, usize) -> Result<Answer<T>, E>) {
    && fetch(0, r.offset, r.limit).Ok?
    && var first := fetch(0, r.offset, r.limit).value;
       var n := |first.items|;
       && n <= r.limit && r.offset + n <= USIZE_MAX
       && match first.total
          case Some(total) => n == r.limit || r.offset + n >= total
          case None =>
            var second := fetch(1, r.offset + n, 1);
            second.Ok? && |second.value.items| <= 1 && (second.value.items == [] || n == r.limit)
  }

  /**
   * A native page is made exactly of answers that fit together: it has the
   * items and the total of the first one, and claims more exactly when the
   * total, or the one item behind it, says so. An upstream error is passed on.
   */
  lemma NativePageExactly<T, E>(r: PageRequest, fetch: (nat, usize, usize) -> Result<Answer<T>, E>)
    ensures var page, first := NativePage(r, fetch), fetch(0, r.offset, r.limit);
            && (page.Ok? <==> FitTogether(r, fetch))
            && (page.Ok? ==>
                  && page.value.items == first.value.items && page.value.total == first.value.total
                  && page.value.page == r.page && page.value.limit == r.limit
                  && var next := r.offset + |first.value.items|;
                     page.value.hasMore <==> match first.value.total
                                             case Some(total) => next < total
                                             case None => fetch(1, next, 1).value.items != [])
            && (first.Err? ==> page == Err(Upstream(first.error)))
            && (page.Err? && page.error.Upstream? && first.Ok? ==>
                  && first.value.total == None && r.offset + |first.value.items| <= USIZE_MAX
                  && fetch(1, r.offset + |first.value.items|, 1) == Err(page.error.error))
  {}

  /** An upstream that serves `list`, with or without a total, independently on each call. */
  ghost predicate Honest<T, E>(list: seq<T>, fetch: (nat, usize, usize) -> Result<Answer<T>, E>) {
    forall call: nat, offset: usize, limit: usize ::
      && fetch(call, offset, limit).Ok?
      && fetch(call, offset, limit).value.items == Window(list, offset, limit)
      && (fetch(call, offset, limit).value.total == None
          || (|list| <= USIZE_MAX && fetch(call, offset, limit).value.total == Some(|list|)))
  }

  lemma WindowLength<T>(list: seq<T>, offset: nat, limit: nat)
    ensures |Window(list, offset, limit)| ==
            if |list| <= offset then 0 else if |list| - offset < limit then |list| - offset else limit
  {}

  lemma HonestPage<T, E>(list: seq<T>, r: PageRequest, fetch: (nat, usize, usize) -> Result<Answer<T>, E>)
    requires InRange(r) && |list| <= USIZE_MAX && Honest(list, fetch)
    ensures var page, items := NativePage(r, fetch), Window(list, r.offset, r.limit);
            && page.Ok?
            && page.value == Paged(items, r.page, r.limit, page.value.total, r.offset + |items| < |list|)
  {
    var first := fetch(0, r.offset, r.limit).value;
    var items := first.items;
    WindowLength(list, r.offset, r.limit);
    assert items == Window(list, r.offset, r.limit);
    if first.total == None {
      var next: usize := r.offset + |items|;
      WindowLength(list, next, 1);
      assert fetch(1, next, 1).value.items == Window(list, next, 1);
    }
  }

  /** On an honest upstream a native page is the slice of the list it serves. */
  lemma NativePageRefinesSlice<T, E>(
    list: seq<T>, r: PageRequest, fetch: (nat, usize, usize) -> Result<Answer<T>, E>)
    requires IsRequest(r) && |list| <= USIZE_MAX && Honest(list, fetch)
    ensures var page, slice := NativePage(r, fetch), Slice(list, r);
            && page.Ok?
            && page.value.items == slice.items
            && page.value.hasMore == slice.hasMore
            && page.value.page == slice.page && page.value.limit == slice.limit
  {
    RequestIsInRange(r);
    HonestPage(list, r, fetch);
    WindowLength(list, r.offset, r.limit);
  }

  /**
   * Whatever the upstream answers: a page that claims more is full, so the
   * next page starts right after it, and a known total is never contradicted.
   */
  lemma NativePageNeverSkips<T, E>(r: PageRequest, fetch: (nat, usize, usize) -> Result<Answer<T>, E>)
    requires IsRequest(r)
    ensures NativePage(r, fetch) != Err(PageOffsetOverflow)
    ensures var page := NativePage(r, fetch);
            page.Ok? ==>
              && |page.value.items| <= r.limit
              && (page.value.total.Some? ==>
                    (page.value.hasMore <==> r.offset + |page.value.items| < page.value.total.value))
              && (page.value.hasMore ==>
                    && |page.value.items| == r.limit
                    && (r.page < USIZE_MAX ==>
                          match NewRequest(r.page + 1, r.limit)
                          case Ok(next) => next.offset == r.offset + |page.value.items|
                          case Err(e) => e == OffsetTooLarge && r.offset + r.limit > I64_MAX))
  {
    assert (r.page + 1 - 1) * r.limit == (r.page - 1) * r.limit + r.limit;
  }

  // --- Walking every page. ---

  /** Pages that agree with the slices of `list` on their items and on whether more follow. */
  ghost predicate Serves<T(!new)>(get: PageRequest -> Paged<T>, list: seq<T>) {
    && |list| <= USIZE_MAX
    && forall r {:trigger IsRequest(r)} :: IsRequest(r) ==>
         get(r).items == Slice(list, r).items && get(r).hasMore == Slice(list, r).hasMore
  }

  datatype Walked<T> = Walked(items: seq<T>, pages: nat)

  /** Read `page` and the pages after it while more follow; `None` when a request is refused. */
  function Walk<T>(get: PageRequest -> Paged<T>, limit: usize, page: usize): Option<Walked<T>>
    decreases USIZE_MAX - page
  {
    match NewRequest(page, limit)
    case Err(_) => None
    case Ok(r) =>
      var p := get(r);
      if !p.hasMore then Some(Walked(p.items, 1))
      else if page == USIZE_MAX then None
      else
        match Walk(get, limit, page + 1)
        case None => None
        case Some(later) => Some(Walked(p.items + later.items, later.pages + 1))
  }

  function CeilDiv(n: nat, d: nat): nat
    requires d > 0
  {
    (n + d - 1) / d
  }

  /** Pages needed for `n` items: one at least, and one more for each full page before the last. */
  function PageCount(n: nat, limit: nat): nat
    requires limit > 0
  {
    if n <= limit then 1 else 1 + PageCount(n - limit, limit)
  }

  lemma {:induction false} PageCountIsCeiling(n: nat, limit: nat)
    requires limit > 0
    ensures PageCount(n, limit) == if n == 0 then 1 else CeilDiv(n, limit)
  {
    CeilStep(n, limit);
    if n > limit {
      PageCountIsCeiling(n - limit, limit);
    }
  }

  lemma CeilStep(n: nat, d: nat)
    requires 0 < d
    ensures n <= d ==> CeilDiv(n, d) == if n == 0 then 0 else 1
    ensures n > d ==> CeilDiv(n, d) == CeilDiv(n - d, d) + 1
  {
    if n == 0 {
      SmallQuotient(d - 1, d);
    } else {
      DropBlock(n + d - 1, d);
      if n <= d {
        SmallQuotient(n - 1, d);
      }
    }
  }

  /** The request after `r`, while its offset is representable. */
  lemma NextRequest(r: PageRequest)
    requires IsRequest(r) && r.offset + r.limit <= I64_MAX
    ensures r.page <= r.offset + 1
    ensures IsRequest(PageRequest(r.page + 1, r.limit, r.offset + r.limit))
  {
    OneMore(r.page - 1, r.limit);
    var next := PageRequest(r.page + 1, r.limit, r.offset + r.limit);
    assert (next.page - 1) * next.limit == next.offset;
  }

  /** One page of the walk: its items and whether it ends there. */
  lemma PageAt<T(!new)>(get: PageRequest -> Paged<T>, list: seq<T>, r: PageRequest)
    requires Serves(get, list) && |list| <= I64_MAX && IsRequest(r) && r.offset <= |list|
    ensures var more := |list| - r.offset > r.limit;
            && get(r).hasMore == more
            && get(r).items == if more then list[r.offset..r.offset + r.limit] else list[r.offset..]
  {
    WindowLength(list, r.offset, r.limit);
    var rest := list[r.offset..];
    if r.limit <= |rest| {
      assert rest[..r.limit] == list[r.offset..r.offset + r.limit];
    }
  }

  ghost predicate WalksTo<T>(get: PageRequest -> Paged<T>, limit: usize, page: usize, items: seq<T>, pages: nat) {
    Walk(get, limit, page) == Some(Walked(items, pages))
  }

  lemma WalkOn<T>(get: PageRequest -> Paged<T>, r: PageRequest, items: seq<T>, pages: nat)
    requires IsRequest(r) && get(r).hasMore && r.page < USIZE_MAX
    requires WalksTo(get, r.limit, r.page + 1, items, pages)
    ensures WalksTo(get, r.limit, r.page, get(r).items + items, pages + 1)
  {}

  lemma WalkEnds<T>(get: PageRequest -> Paged<T>, r: PageRequest)
    requires IsRequest(r) && !get(r).hasMore
    ensures WalksTo(get, r.limit, r.page, get(r).items, 1)
  {}

  /** One full page in front of a walk. */
  lemma WalkStep<T(!new)>(get: PageRequest -> Paged<T>, list: seq<T>, r: PageRequest, pages: nat)
    requires Serves(get, list) && |list| <= I64_MAX && IsRequest(r) && r.offset + r.limit < |list|
    requires WalksTo(get, r.limit, r.page + 1, list[r.offset + r.limit..], pages)
    ensures WalksTo(get, r.limit, r.page, list[r.offset..], pages + 1)
  {
    var end := r.offset + r.limit;
    PageAt(get, list, r);
    NextRequest(r);
    WalkOn(get, r, list[end..], pages);
    assert list[r.offset..end] + list[end..] == list[r.offset..];
  }

  lemma WalkStops<T(!new)>(get: PageRequest -> Paged<T>, list: seq<T>, r: PageRequest)
    requires Serves(get, list) && |list| <= I64_MAX && IsRequest(r) && r.offset <= |list| <= r.offset + r.limit
    ensures WalksTo(get, r.limit, r.page, list[r.offset..], 1)
  {
    PageAt(get, list, r);
    WalkEnds(get, r);
  }

  lemma {:induction false} WalkFrom<T(!new)>(get: PageRequest -> Paged<T>, list: seq<T>, r: PageRequest, rest: nat)
    requires Serves(get, list) && |list| <= I64_MAX && IsRequest(r)
    requires r.offset + rest == |list| && (rest > 0 || r.offset == 0)
    ensures WalksTo(get, r.limit, r.page, list[r.offset..], PageCount(rest, r.limit))
    decreases rest
  {
    if rest > r.limit {
      NextRequest(r);
      WalkFrom(get, list, PageRequest(r.page + 1, r.limit, r.offset + r.limit), rest - r.limit);
      WalkStep(get, list, r, PageCount(rest - r.limit, r.limit));
    } else {
      WalkStops(get, list, r);
    }
  }

  /**
   * Walking while pages say more rebuilds the list, in order and without gap
   * or duplicate, in max(1, ceil(n / limit)) pages, and no offset is refused.
   */
  lemma WalkRebuilds<T(!new)>(get: PageRequest -> Paged<T>, list: seq<T>, limit: usize)
    requires Serves(get, list) && |list| <= I64_MAX && 1 <= limit <= MAX_LIMIT
    ensures Walk(get, limit, 1) == Some(Walked(list, if list == [] then 1 else CeilDiv(|list|, limit)))
  {
    WalkFrom(get, list, PageRequest(1, limit, 0), |list|);
    PageCountIsCeiling(|list|, limit);
    assert list[0..] == list;
  }
}
