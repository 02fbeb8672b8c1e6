/** `Client::getCollection`: the paged read behind `getEntities` and
    `getStock`.

    The service is a parameter: `server(offset)` is the decoded response
    (`rows` and `meta.size`) to the request at that offset. Within one call
    every other part of the request URL is fixed, so the offset is all that
    varies. The loop is not guaranteed to stop, so the model runs it for at
    most `fuel` requests and reports `OutOfFuel` beyond that. */
module Pagination {
  import opened Common
  import opened Values
  import opened EntityData
  import opened Filter
  import opened Links

  /** A decoded list response: `rows` and `meta.size`. */
  datatype Page = Page(rows: seq<Value>, size: int)

  datatype Outcome = Done(items: seq<Value>) | Failed(error: Error) | OutOfFuel

  /** The offsets requested, in order, and how the loop ended. */
  datatype Run = Run(offsets: seq<int>, outcome: Outcome)

  /** PHP truthiness of an optional int: set and non-zero. */
  predicate IntTruthy(x: Option<int>)
  {
    x.Some? && x.value != 0
  }

  function Min(a: int, b: int): int
  {
    if a < b then a else b
  }

  /** The first page size: the cap, lowered to `limit` when `limit` is
      truthy and smaller. A zero limit leaves it at the cap. */
  function InitialPageSize(cap: int, limit: Option<int>): (q: int)
    ensures q == if IntTruthy(limit) then Min(cap, limit.value) else cap
    ensures limit == Some(0) ==> q == cap
    ensures IntTruthy(limit) && limit.value < 0 ==> q <= 0
  {
    if IntTruthy(limit) && cap > limit.value then limit.value else cap
  }

  /** A null or zero offset starts at 0. */
  function StartOffset(offset: Option<int>): int
  {
    if IntTruthy(offset) then offset.value else 0
  }

  /** What one pass leaves: the call's outcome, or the state of the next
      pass. */
  datatype Pass = Stop(outcome: Outcome) | Next(offset: int, lim: int, rem: int, q: int, items: seq<Value>)

  /** One pass of the loop on the page received at `offset`: `remainder` 0
      stands for PHP's empty (undefined or zero) `$remainder`. A null limit
      is fixed from the response, the remainder is updated, every row is
      turned into an Entity, the offset advances by the current page size,
      the page size is lowered to the remainder, and the loop goes on while
      the accumulated count is below the limit and equal to the page size. */
  function Step(page: Page, offset: int, limit: Option<int>, remainder: int, q: int, items: seq<Value>): (p: Pass)
    ensures Hydrate(page.rows).Err? ==> p == Stop(Failed(Hydrate(page.rows).error))
    ensures Hydrate(page.rows).Ok? ==>
      (p.Next? && p.items == items + Hydrate(page.rows).value) || p == Stop(Done(items + Hydrate(page.rows).value))
    ensures p.Next? ==> p.offset == offset + q && p.q <= q && |p.items| == p.q < p.lim
  {
    var lim := if limit.None? then page.size - offset else limit.value;
    var rem := if remainder == 0 then lim - |page.rows| else remainder - |page.rows|;
    match Hydrate(page.rows)
    case Err(e) => Stop(Failed(e))
    case Ok(entities) =>
      var items' := items + entities;
      var q' := if rem < q then rem else q;
      if |items'| < lim && |items'| == q' then Next(offset + q, lim, rem, q', items')
      else Stop(Done(items'))
  }

  /** The loop from a given state, for at most `fuel` passes. */
  function Loop(server: int -> Page, offset: int, limit: Option<int>, remainder: int, q: int,
                items: seq<Value>, fuel: nat): (run: Run)
    ensures fuel > 0 ==> |run.offsets| >= 1 && run.offsets[0] == offset
    ensures |run.offsets| <= fuel
    decreases fuel
  {
    if fuel == 0 then Run([], OutOfFuel)
    else
      match Step(server(offset), offset, limit, remainder, q, items)
      case Stop(outcome) => Run([offset], outcome)
      case Next(offset', lim, rem, q', items') =>
        var rest := Loop(server, offset', Some(lim), rem, q', items', fuel - 1);
        Run([offset] + rest.offsets, rest.outcome)
  }

  /** A pass that stops ends the loop with its outcome. */
  lemma LoopStop(server: int -> Page, offset: int, limit: Option<int>, remainder: int, q: int,
                 items: seq<Value>, fuel: nat, outcome: Outcome)
    requires fuel > 0
    requires Step(server(offset), offset, limit, remainder, q, items) == Stop(outcome)
    ensures Loop(server, offset, limit, remainder, q, items, fuel) == Run([offset], outcome)
  {
  }

  /** A pass that goes on is followed by the loop from its new state. */
  lemma LoopNext(server: int -> Page, offset: int, limit: Option<int>, remainder: int, q: int,
                 items: seq<Value>, fuel: nat, next: Pass)
    requires fuel > 0 && next.Next?
    requires Step(server(offset), offset, limit, remainder, q, items) == next
    ensures var rest := Loop(server, next.offset, Some(next.lim), next.rem, next.q, next.items, fuel - 1);
      Loop(server, offset, limit, remainder, q, items, fuel) == Run([offset] + rest.offsets, rest.outcome)
  {
  }

  /** A run that reached the loop at `offset` after `done` requests, on a pass
      that goes on: the same run reaches the next loop after one more
      request. */
  lemma LoopAdvance(server: int -> Page, run: Run, done: seq<int>, offset: int, limit: Option<int>,
                    remainder: int, q: int, items: seq<Value>, fuel: nat, next: Pass)
    requires fuel > 0 && next.Next?
    requires Step(server(offset), offset, limit, remainder, q, items) == next
    requires run == Run(done + Loop(server, offset, limit, remainder, q, items, fuel).offsets,
                        Loop(server, offset, limit, remainder, q, items, fuel).outcome)
    ensures var rest := Loop(server, next.offset, Some(next.lim), next.rem, next.q, next.items, fuel - 1);
      run == Run((done + [offset]) + rest.offsets, rest.outcome)
  {
    LoopNext(server, offset, limit, remainder, q, items, fuel, next);
    var rest := Loop(server, next.offset, Some(next.lim), next.rem, next.q, next.items, fuel - 1);
    assert done + ([offset] + rest.offsets) == (done + [offset]) + rest.offsets;
  }

  /** A run that reached the loop at `offset` after `done` requests, on a
      pass that stops: the run ends there. */
  lemma LoopFinish(server: int -> Page, run: Run, done: seq<int>, offset: int, limit: Option<int>,
                   remainder: int, q: int, items: seq<Value>, fuel: nat, outcome: Outcome)
    requires fuel > 0
    requires Step(server(offset), offset, limit, remainder, q, items) == Stop(outcome)
    requires run == Run(done + Loop(server, offset, limit, remainder, q, items, fuel).offsets,
                        Loop(server, offset, limit, remainder, q, items, fuel).outcome)
    ensures run == Run(done + [offset], outcome)
  {
    LoopStop(server, offset, limit, remainder, q, items, fuel, outcome);
  }

  /** `getCollection` with page-size cap `cap`: no request at all when the
      first page size is not positive. */
  function Collection(server: int -> Page, cap: int, limit: Option<int>, offset: Option<int>, fuel: nat): (run: Run)
    ensures InitialPageSize(cap, limit) <= 0 ==> run == Run([], Done([]))
    ensures InitialPageSize(cap, limit) > 0 && fuel > 0 ==> |run.offsets| >= 1 && run.offsets[0] == StartOffset(offset)
  {
    var q0 := InitialPageSize(cap, limit);
    if q0 <= 0 then Run([], Done([]))
    else Loop(server, StartOffset(offset), limit, 0, q0, [], fuel)
  }

  /** A limit of 0 is falsy, so the page size stays at the cap; the first
      pass then fixes the limit at 0, which the accumulated count is never
      below, so the call returns the first page only. */
  lemma ZeroLimitOnePage(server: int -> Page, cap: int, offset: Option<int>, fuel: nat)
    requires cap > 0 && fuel > 0
    ensures Collection(server, cap, Some(0), offset, fuel).offsets == [StartOffset(offset)]
    ensures Hydrate(server(StartOffset(offset)).rows).Ok? ==>
      Collection(server, cap, Some(0), offset, fuel).outcome == Done(Hydrate(server(StartOffset(offset)).rows).value)
    ensures Hydrate(server(StartOffset(offset)).rows).Err? ==>
      Collection(server, cap, Some(0), offset, fuel).outcome == Failed(Hydrate(server(StartOffset(offset)).rows).error)
  {
    var start := StartOffset(offset);
    assert Step(server(start), start, Some(0), 0, cap, []).Stop?;
    if Hydrate(server(start).rows).Ok? {
      assert [] + Hydrate(server(start).rows).value == Hydrate(server(start).rows).value;
    }
  }

  /** The rows of the pages at the given offsets, concatenated in order. */
  function Received(server: int -> Page, offsets: seq<int>): seq<Value>
    decreases |offsets|
  {
    if |offsets| == 0 then [] else server(offsets[0]).rows + Received(server, offsets[1..])
  }

  /** Every row of every page requested becomes one Entity, appended in
      order: the result is the received rows, hydrated. */
  lemma {:induction false} LoopItems(server: int -> Page, offset: int, limit: Option<int>, remainder: int, q: int,
                                     items: seq<Value>, fuel: nat)
    ensures Accounts(server, Loop(server, offset, limit, remainder, q, items, fuel), items)
    decreases fuel
  {
    if fuel > 0 {
      var page := server(offset);
      match Step(page, offset, limit, remainder, q, items)
      case Stop(_) =>
        assert page.rows + [] == page.rows;
      case Next(offset', lim, rem, q', items') =>
        var rest := Loop(server, offset', Some(lim), rem, q', items', fuel - 1);
        LoopItems(server, offset', Some(lim), rem, q', items', fuel - 1);
        AccountsCons(server, offset, rest, items, items');
    }
  }

  /** A finished run's items are the given items followed by the received
      rows, hydrated; a failed run's error is the one hydrating them gives. */
  predicate Accounts(server: int -> Page, run: Run, items: seq<Value>)
  {
    && (run.outcome.Done? ==>
          Hydrate(Received(server, run.offsets)).Ok?
          && run.outcome.items == items + Hydrate(Received(server, run.offsets)).value)
    && (run.outcome.Failed? ==> Hydrate(Received(server, run.offsets)) == Err(run.outcome.error))
  }

  lemma AccountsCons(server: int -> Page, offset: int, rest: Run, items: seq<Value>, items': seq<Value>)
    requires Hydrate(server(offset).rows).Ok?
    requires items' == items + Hydrate(server(offset).rows).value
    requires Accounts(server, rest, items')
    ensures Accounts(server, Run([offset] + rest.offsets, rest.outcome), items)
  {
    var rows := server(offset).rows;
    ReceivedCons(server, offset, rest.offsets);
    HydrateAppend(rows, Received(server, rest.offsets));
    if rest.outcome.Done? {
      assert items' + Hydrate(Received(server, rest.offsets)).value
          == items + (Hydrate(rows).value + Hydrate(Received(server, rest.offsets)).value);
    }
  }

  lemma ReceivedCons(server: int -> Page, offset: int, offsets: seq<int>)
    ensures Received(server, [offset] + offsets) == server(offset).rows + Received(server, offsets)
  {
    assert ([offset] + offsets)[1..] == offsets;
  }

  /** The second request's offset is the first plus the page size, whatever
      the number of rows the first page held. */
  lemma SecondOffset(server: int -> Page, cap: int, limit: Option<int>, offset: Option<int>, fuel: nat)
    requires |Collection(server, cap, limit, offset, fuel).offsets| >= 2
    ensures Collection(server, cap, limit, offset, fuel).offsets[1]
         == StartOffset(offset) + InitialPageSize(cap, limit)
  {
  }

  /** With an explicit limit within the cap, one request is made, unless the
      first page holds exactly half the limit. */
  lemma OneRequestWithinCap(server: int -> Page, cap: int, l: int, offset: Option<int>, fuel: nat)
    requires 0 < l <= cap && fuel > 0
    requires |server(StartOffset(offset)).rows| <= l
    requires 2 * |server(StartOffset(offset)).rows| != l
    ensures |Collection(server, cap, Some(l), offset, fuel).offsets| == 1
  {
    assert InitialPageSize(cap, Some(l)) == l;
  }

  /** How many rows a service holding `size` rows puts in a page of at most
      `q0` rows starting at offset `o`. */
  function PageCount(size: int, o: int, q0: int): (c: int)
    ensures c <= q0 || c <= 0
    ensures 0 <= c || q0 < 0
  {
    if size - o <= 0 then 0 else Min(size - o, q0)
  }

  /** A service holding `size` rows, every one of them accepted by the
      constructor, that answers each request at a non-negative offset with
      as many rows as exist there up to the page size `q0` of the URL, and
      with `size` as `meta.size`. */
  ghost predicate Consistent(server: int -> Page, size: int, q0: int)
  {
    forall o :: o >= 0 ==>
      |server(o).rows| == PageCount(size, o, q0) && server(o).size == size && Hydrate(server(o).rows).Ok?
  }

  /** How many rows a null-limit read returns from a consistent service
      holding `n` rows past the start offset, with page size `q0`: all of
      them when they fit one page, one page when they need more than one
      but fewer than two, two pages otherwise. */
  function NullLimitTake(n: nat, q0: nat): nat
  {
    if n <= q0 then n
    else if n < 2 * q0 then q0
    else 2 * q0
  }

  /** A null-limit read from a consistent service makes at most two
      requests and returns `NullLimitTake` rows: every row only when they
      fit one page or exactly two. */
  lemma NullLimitConsistent(server: int -> Page, size: int, cap: int, offset: Option<int>, fuel: nat)
    requires cap > 0 && fuel >= 2
    requires 0 <= StartOffset(offset) <= size
    requires Consistent(server, size, cap)
    ensures var o0, n := StartOffset(offset), size - StartOffset(offset);
      var run := Collection(server, cap, None, offset, fuel);
      && run.offsets == (if n < 2 * cap then [o0] else [o0, o0 + cap])
      && run.outcome.Done? && |run.outcome.items| == NullLimitTake(n, cap)
  {
    var o0 := StartOffset(offset);
    var n := size - o0;
    var page := server(o0);
    var e1 := Hydrate(page.rows).value;
    assert Collection(server, cap, None, offset, fuel) == Loop(server, o0, None, 0, cap, [], fuel);
    NullLimitFirstPass(page, e1, size, o0, cap);
    if n < 2 * cap {
      LoopStop(server, o0, None, 0, cap, [], fuel, Done(e1));
    } else {
      LoopNext(server, o0, None, 0, cap, [], fuel, Next(o0 + cap, n, n - cap, cap, e1));
      NullLimitSecondPage(server, size, cap, o0, e1, fuel - 1);
    }
  }

  /** The first pass of a null-limit read, on a first page holding as many
      rows as are available up to a page: it stops unless two full pages
      are available. */
  lemma NullLimitFirstPass(page: Page, entities: seq<Value>, size: int, o0: int, q0: int)
    requires q0 > 0 && 0 <= o0 <= size
    requires |page.rows| == Min(size - o0, q0) && page.size == size
    requires Hydrate(page.rows) == Ok(entities)
    ensures Step(page, o0, None, 0, q0, [])
         == if size - o0 < 2 * q0 then Stop(Done(entities))
            else Next(o0 + q0, size - o0, size - o0 - q0, q0, entities)
  {
    assert [] + entities == entities;
  }

  /** The second pass of a null-limit read with two full pages available:
      it stops with the two pages. */
  lemma NullLimitSecondPage(server: int -> Page, size: int, q0: int, o0: int, items: seq<Value>, fuel: nat)
    requires q0 > 0 && fuel >= 1
    requires 0 <= o0 && o0 + 2 * q0 <= size && |items| == q0
    requires Consistent(server, size, q0)
    ensures var n := size - o0;
      var run := Loop(server, o0 + q0, Some(n), n - q0, q0, items, fuel);
      run.offsets == [o0 + q0] && run.outcome.Done? && |run.outcome.items| == 2 * q0
  {
    var page := server(o0 + q0);
    var e2 := Hydrate(page.rows).value;
    var n := size - o0;
    assert Step(page, o0 + q0, Some(n), n - q0, q0, items) == Stop(Done(items + e2));
    LoopStop(server, o0 + q0, Some(n), n - q0, q0, items, fuel, Done(items + e2));
  }

  /** The documented consequence: 2500 rows, cap 1000, null limit and
      offset give two requests and 2000 Entities, not 2500. */
  lemma NullLimitTruncates(server: int -> Page, fuel: nat)
    requires fuel >= 2
    requires Consistent(server, 2500, ENTITIES_QUERY_LIMIT_MAX)
    ensures var run := Collection(server, ENTITIES_QUERY_LIMIT_MAX, None, None, fuel);
      run.offsets == [0, 1000] && run.outcome.Done? && |run.outcome.items| == 2000
  {
    NullLimitConsistent(server, 2500, ENTITIES_QUERY_LIMIT_MAX, None, fuel);
  }

  /** Once the count equals the page size and is below the limit, the
      remainder is at least the page size and every later page is empty,
      nothing but the offset changes again: the loop runs out of any fuel. */
  lemma {:induction false} StuckLoop(server: int -> Page, offset: int, lim: int, rem: int, q: int,
                                     items: seq<Value>, fuel: nat)
    requires 0 < q == |items| < lim && rem >= q
    requires forall o :: o >= offset ==> server(o).rows == []
    ensures Loop(server, offset, Some(lim), rem, q, items, fuel).outcome == OutOfFuel
    decreases fuel
  {
    if fuel > 0 {
      assert Hydrate([]) == Ok([]);
      assert items + [] == items;
      StuckLoop(server, offset + q, lim, rem, q, items, fuel - 1);
    }
  }

  /** Whether a read with positive explicit limit `l` and page size `q0`
      from a consistent service holding `n` rows past the start offset
      never ends: when the rows fill less than one page and are exactly half
      the limit, or fill exactly one page and the limit is two pages or
      more. */
  predicate ExplicitLimitDiverges(n: nat, q0: nat, l: int)
  {
    (n < q0 && l == 2 * n) || (n == q0 && l >= 2 * q0)
  }

  /** How many rows such a read returns when it ends. */
  function ExplicitLimitTake(n: nat, q0: nat, l: int): nat
  {
    if n < q0 then n
    else if l < 2 * q0 then q0
    else q0 + Min(n - q0, q0)
  }

  /** A read with a positive explicit limit from a consistent service either
      never ends (`ExplicitLimitDiverges`) or makes one or two requests and
      returns `ExplicitLimitTake` rows, which never exceed the limit. */
  lemma ExplicitLimitConsistent(server: int -> Page, size: int, cap: int, l: int, offset: Option<int>, fuel: nat)
    requires cap > 0 && l > 0 && fuel >= 2
    requires 0 <= StartOffset(offset) <= size
    requires Consistent(server, size, InitialPageSize(cap, Some(l)))
    ensures var o0, q0 := StartOffset(offset), InitialPageSize(cap, Some(l));
      var n := size - o0;
      var run := Collection(server, cap, Some(l), offset, fuel);
      && ExplicitLimitTake(n, q0, l) <= l
      && (ExplicitLimitDiverges(n, q0, l) ==> run.outcome == OutOfFuel)
      && (!ExplicitLimitDiverges(n, q0, l) ==>
            && run.offsets == (if n >= q0 && l >= 2 * q0 then [o0, o0 + q0] else [o0])
            && run.outcome.Done? && |run.outcome.items| == ExplicitLimitTake(n, q0, l))
  {
    var o0, q0 := StartOffset(offset), InitialPageSize(cap, Some(l));
    assert Collection(server, cap, Some(l), offset, fuel) == Loop(server, o0, Some(l), 0, q0, [], fuel);
    ExplicitLimitLoop(server, size, q0, l, o0, fuel);
  }

  /** `ExplicitLimitConsistent` on the loop from the start offset. */
  lemma ExplicitLimitLoop(server: int -> Page, size: int, q0: int, l: int, o0: int, fuel: nat)
    requires 0 < q0 <= l && fuel >= 2
    requires 0 <= o0 <= size
    requires Consistent(server, size, q0)
    ensures var n := size - o0;
      var run := Loop(server, o0, Some(l), 0, q0, [], fuel);
      && (ExplicitLimitDiverges(n, q0, l) ==> run.outcome == OutOfFuel)
      && (!ExplicitLimitDiverges(n, q0, l) ==>
            && run.offsets == (if n >= q0 && l >= 2 * q0 then [o0, o0 + q0] else [o0])
            && run.outcome.Done? && |run.outcome.items| == ExplicitLimitTake(n, q0, l))
  {
    var n := size - o0;
    if n < q0 && l == 2 * n {
      HalfLimitLoop(server, size, q0, o0, fuel);
    } else if n >= q0 && l >= 2 * q0 {
      TwoPageLimitLoop(server, size, q0, l, o0, fuel);
    } else {
      OnePassLoop(server, size, q0, l, o0, fuel);
    }
  }

  /** Fewer rows than a page, exactly half the limit: after the first pass
      only empty pages follow, and the loop never ends. */
  lemma HalfLimitLoop(server: int -> Page, size: int, q0: int, o0: int, fuel: nat)
    requires 0 <= o0 && size - o0 < q0 <= 2 * (size - o0) && fuel >= 1
    requires Consistent(server, size, q0)
    ensures Loop(server, o0, Some(2 * (size - o0)), 0, q0, [], fuel).outcome == OutOfFuel
  {
    var n := size - o0;
    var e1 := Hydrate(server(o0).rows).value;
    assert |server(o0).rows| == PageCount(size, o0, q0);
    HalfLimitFirstPass(server(o0), e1, o0, q0);
    var next := Next(o0 + q0, 2 * n, n, n, e1);
    LoopNext(server, o0, Some(2 * n), 0, q0, [], fuel, next);
    EmptyPastEnd(server, size, q0, o0 + q0);
    StuckLoop(server, o0 + q0, 2 * n, n, n, e1, fuel - 1);
    var rest := Loop(server, next.offset, Some(next.lim), next.rem, next.q, next.items, fuel - 1);
    assert rest.outcome == OutOfFuel;
  }

  /** The first pass on fewer rows than a page, with a limit of twice
      their number: the loop goes on. */
  lemma HalfLimitFirstPass(page: Page, entities: seq<Value>, o0: int, q0: int)
    requires 0 < |page.rows| < q0
    requires Hydrate(page.rows) == Ok(entities)
    ensures var n := |page.rows|;
      Step(page, o0, Some(2 * n), 0, q0, []) == Next(o0 + q0, 2 * n, n, n, entities)
  {
    assert [] + entities == entities;
  }

  /** A full first page and a limit of two pages or more: a second request
      follows, which never ends the loop when the first page held every
      row. */
  lemma TwoPageLimitLoop(server: int -> Page, size: int, q0: int, l: int, o0: int, fuel: nat)
    requires 0 < q0 && 2 * q0 <= l && fuel >= 2
    requires 0 <= o0 && o0 + q0 <= size
    requires Consistent(server, size, q0)
    ensures var n := size - o0;
      var run := Loop(server, o0, Some(l), 0, q0, [], fuel);
      && (n == q0 ==> run.outcome == OutOfFuel)
      && (n != q0 ==> run.offsets == [o0, o0 + q0] && run.outcome.Done?
                      && |run.outcome.items| == q0 + Min(n - q0, q0))
  {
    var e1 := Hydrate(server(o0).rows).value;
    ExplicitLimitFirstPass(server(o0), e1, size, o0, q0, l);
    LoopNext(server, o0, Some(l), 0, q0, [], fuel, Next(o0 + q0, l, l - q0, q0, e1));
    ExplicitLimitSecondPage(server, size, q0, l, o0, e1, fuel - 1);
  }

  /** In every other case the first pass ends the loop with the first
      page. */
  lemma OnePassLoop(server: int -> Page, size: int, q0: int, l: int, o0: int, fuel: nat)
    requires 0 < q0 <= l && fuel >= 1
    requires 0 <= o0 <= size
    requires !(size - o0 < q0 && l == 2 * (size - o0)) && !(size - o0 >= q0 && l >= 2 * q0)
    requires Consistent(server, size, q0)
    ensures var run := Loop(server, o0, Some(l), 0, q0, [], fuel);
      run.offsets == [o0] && run.outcome.Done? && |run.outcome.items| == Min(size - o0, q0)
  {
    var e1 := Hydrate(server(o0).rows).value;
    ExplicitLimitFirstPass(server(o0), e1, size, o0, q0, l);
    LoopStop(server, o0, Some(l), 0, q0, [], fuel, Done(e1));
  }

  /** A consistent service has nothing at or past its last row. */
  lemma EmptyPastEnd(server: int -> Page, size: int, q0: int, offset: int)
    requires offset >= size && offset >= 0
    requires Consistent(server, size, q0)
    ensures forall o :: o >= offset ==> server(o).rows == []
  {
    forall o | o >= offset ensures server(o).rows == [] {
      assert |server(o).rows| == PageCount(size, o, q0);
    }
  }

  /** The first pass of a read with a positive explicit limit `l` and page
      size `q0 <= l`: it goes on after fewer rows than a page only when
      they are half the limit, and after a full page only when the limit is
      two pages or more. */
  lemma ExplicitLimitFirstPass(page: Page, entities: seq<Value>, size: int, o0: int, q0: int, l: int)
    requires 0 < q0 <= l && 0 <= o0 <= size
    requires |page.rows| == Min(size - o0, q0)
    requires Hydrate(page.rows) == Ok(entities)
    ensures var n := size - o0;
      Step(page, o0, Some(l), 0, q0, [])
        == if n < q0 then
             (if l == 2 * n then Next(o0 + q0, l, l - n, n, entities) else Stop(Done(entities)))
           else if l >= 2 * q0 then Next(o0 + q0, l, l - q0, q0, entities)
           else Stop(Done(entities))
  {
    assert [] + entities == entities;
  }

  /** The second pass of an explicit-limit read after a full first page,
      with a limit of two pages or more: it never ends when the first page
      held every row, and otherwise stops with the second page. */
  lemma ExplicitLimitSecondPage(server: int -> Page, size: int, q0: int, l: int, o0: int, items: seq<Value>, fuel: nat)
    requires q0 > 0 && l >= 2 * q0 && fuel >= 1
    requires 0 <= o0 && o0 + q0 <= size && |items| == q0
    requires Consistent(server, size, q0)
    ensures var n := size - o0;
      var run := Loop(server, o0 + q0, Some(l), l - q0, q0, items, fuel);
      && (n == q0 ==> run.outcome == OutOfFuel)
      && (n != q0 ==> run.offsets == [o0 + q0] && run.outcome.Done?
                      && |run.outcome.items| == q0 + Min(n - q0, q0))
  {
    var n := size - o0;
    if n == q0 {
      EmptyPastEnd(server, size, q0, o0 + q0);
      StuckLoop(server, o0 + q0, l, l - q0, q0, items, fuel);
    } else {
      var page := server(o0 + q0);
      var e2 := Hydrate(page.rows).value;
      assert Step(page, o0 + q0, Some(l), l - q0, q0, items) == Stop(Done(items + e2));
      LoopStop(server, o0 + q0, Some(l), l - q0, q0, items, fuel, Done(items + e2));
    }
  }

  /** The default cap with a limit of 1000 and 500 rows: the call never
      returns. */
  lemma LimitThousandOfFiveHundredDiverges(server: int -> Page, fuel: nat)
    requires fuel >= 2
    requires Consistent(server, 500, ENTITIES_QUERY_LIMIT_MAX)
    ensures Collection(server, ENTITIES_QUERY_LIMIT_MAX, Some(1000), None, fuel).outcome == OutOfFuel
  {
    ExplicitLimitConsistent(server, 500, ENTITIES_QUERY_LIMIT_MAX, 1000, None, fuel);
  }

  /** With the default cap, a limit of two pages or more and exactly one
      page of rows, the call never returns. */
  lemma FullPageDiverges(server: int -> Page, l: int, fuel: nat)
    requires fuel >= 2 && l >= 2 * ENTITIES_QUERY_LIMIT_MAX
    requires Consistent(server, ENTITIES_QUERY_LIMIT_MAX, ENTITIES_QUERY_LIMIT_MAX)
    ensures Collection(server, ENTITIES_QUERY_LIMIT_MAX, Some(l), None, fuel).outcome == OutOfFuel
  {
    ExplicitLimitConsistent(server, ENTITIES_QUERY_LIMIT_MAX, ENTITIES_QUERY_LIMIT_MAX, l, None, fuel);
  }

  /** The read the loop evidently intends: pages of the size in the URL,
      each row kept until `left` rows are kept, stopping at the first page
      with fewer rows than the page size or once `left` is reached. */
  function IntendedLoop(server: int -> Page, offset: int, left: nat, q0: int, items: seq<Value>): (run: Run)
    requires q0 > 0
    ensures |run.offsets| >= 1 && run.offsets[0] == offset
    decreases left
  {
    var page := server(offset);
    match Hydrate(page.rows)
    case Err(e) => Run([offset], Failed(e))
    case Ok(entities) =>
      var take := Min(|entities|, left);
      var items' := items + entities[..take];
      if |entities| == q0 && take < left then
        var rest := IntendedLoop(server, offset + q0, left - take, q0, items');
        Run([offset] + rest.offsets, rest.outcome)
      else Run([offset], Done(items'))
  }

  /** `getCollection` as evidently intended: a truthy limit bounds the
      number of Entities, and otherwise every row from the offset on is
      read, the count being learnt from the first response. */
  function IntendedCollection(server: int -> Page, cap: int, limit: Option<int>, offset: Option<int>): (run: Run)
    ensures InitialPageSize(cap, limit) <= 0 ==> run == Run([], Done([]))
  {
    var q0 := InitialPageSize(cap, limit);
    if q0 <= 0 then Run([], Done([]))
    else
      var o0 := StartOffset(offset);
      var lim := if IntTruthy(limit) then limit.value else server(o0).size - o0;
      IntendedLoop(server, o0, if lim < 0 then 0 else lim, q0, [])
  }

  /** From a consistent service, the intended loop keeps exactly the rows
      that exist from its offset on, up to `left`. */
  lemma {:induction false} IntendedLoopCount(server: int -> Page, size: int, q0: int, offset: int,
                                             left: nat, items: seq<Value>)
    requires q0 > 0 && 0 <= offset <= size
    requires Consistent(server, size, q0)
    ensures var run := IntendedLoop(server, offset, left, q0, items);
      run.outcome.Done? && |run.outcome.items| == |items| + Min(size - offset, left)
    decreases left
  {
    var page := server(offset);
    var entities := Hydrate(page.rows).value;
    var take := Min(|entities|, left);
    if |entities| == q0 && take < left {
      IntendedLoopCount(server, size, q0, offset + q0, left - take, items + entities[..take]);
    }
  }

  /** The corrected read returns every row from the offset on when the
      limit is null, and `min(limit, rows available)` rows otherwise: 2500
      rows give 2500 Entities, and no limit makes it run forever. */
  lemma IntendedReadsAll(server: int -> Page, size: int, cap: int, limit: Option<int>, offset: Option<int>)
    requires InitialPageSize(cap, limit) > 0
    requires 0 <= StartOffset(offset) <= size
    requires Consistent(server, size, InitialPageSize(cap, limit))
    ensures var n := size - StartOffset(offset);
      var run := IntendedCollection(server, cap, limit, offset);
      && run.outcome.Done?
      && |run.outcome.items| == if IntTruthy(limit) then Min(n, limit.value) else n
  {
    var o0 := StartOffset(offset);
    var q0 := InitialPageSize(cap, limit);
    var lim := if IntTruthy(limit) then limit.value else server(o0).size - o0;
    IntendedLoopCount(server, size, q0, o0, if lim < 0 then 0 else lim, []);
  }

  /** A read that kept the items and a whole page, then a prefix of what
      follows, kept the items, then a prefix of the page and what follows. */
  lemma JoinPrefix(items: seq<Value>, page: seq<Value>, after: seq<Value>, out: seq<Value>)
    requires |items + page| <= |out| <= |items + page| + |after|
    requires out == (items + page) + after[..|out| - |items + page|]
    ensures |items| <= |out| <= |items| + |page + after|
    ensures out == items + (page + after)[..|out| - |items|]
  {
    var k := |out| - |items + page|;
    assert (page + after)[..|page| + k] == page + after[..k];
  }

  /** What the corrected read returns is the received rows, hydrated, cut at
      the number it keeps. */
  lemma {:induction false} IntendedLoopItems(server: int -> Page, offset: int, left: nat, q0: int, items: seq<Value>)
    requires q0 > 0
    ensures var run := IntendedLoop(server, offset, left, q0, items);
      run.outcome.Done? ==>
        && Hydrate(Received(server, run.offsets)).Ok?
        && |items| <= |run.outcome.items| <= |items| + |Hydrate(Received(server, run.offsets)).value|
        && run.outcome.items == items + Hydrate(Received(server, run.offsets)).value[..|run.outcome.items| - |items|]
    decreases left
  {
    var page := server(offset);
    var run := IntendedLoop(server, offset, left, q0, items);
    if Hydrate(page.rows).Ok? {
      var entities := Hydrate(page.rows).value;
      var take := Min(|entities|, left);
      var items' := items + entities[..take];
      if |entities| == q0 && take < left {
        var rest := IntendedLoop(server, offset + q0, left - take, q0, items');
        assert run == Run([offset] + rest.offsets, rest.outcome);
        IntendedLoopItems(server, offset + q0, left - take, q0, items');
        if rest.outcome.Done? {
          var rs := Received(server, rest.offsets);
          var hr := Hydrate(rs).value;
          ReceivedCons(server, offset, rest.offsets);
          HydrateAppend(page.rows, rs);
          assert Hydrate(Received(server, run.offsets)) == Ok(entities + hr);
          assert items' == items + entities by {
            assert entities[..take] == entities;
          }
          JoinPrefix(items, entities, hr, rest.outcome.items);
        }
      } else {
        assert run == Run([offset], Done(items'));
        assert Received(server, run.offsets) == page.rows by {
          assert page.rows + [] == page.rows;
        }
      }
    }
  }

  /** `&name=value` for every parameter that is not null, in order. */
  function ParamsText(params: seq<(string, Option<string>)>): string
    decreases |params|
  {
    if |params| == 0 then ""
    else
      var (name, value) := params[0];
      (match value case Some(v) => "&" + name + "=" + v case None => "")
      + ParamsText(params[1..])
  }

  /** `href_base`: the address, the first page size, the parameters and the
      filter. It is built once, so a page size lowered later never reaches
      the service. */
  function HrefBase(endPoint: string, q0: int, params: seq<(string, Option<string>)>, filters: seq<Rule>): string
  {
    BASE_URI + "/" + endPoint + "?limit=" + IntToString(q0) + ParamsText(params)
    + FilterPiece(filters)
  }

  /** The request URLs for the given offsets. */
  function Urls(hrefBase: string, offsets: seq<int>): (urls: seq<string>)
    ensures |urls| == |offsets|
    ensures forall k :: 0 <= k < |offsets| ==> urls[k] == hrefBase + "&offset=" + IntToString(offsets[k])
  {
    seq(|offsets|, k requires 0 <= k < |offsets| => hrefBase + "&offset=" + IntToString(offsets[k]))
  }

  /** One more request adds its URL at the end. */
  lemma UrlsAppend(hrefBase: string, offsets: seq<int>, offset: int)
    ensures Urls(hrefBase, offsets + [offset]) == Urls(hrefBase, offsets) + [hrefBase + "&offset=" + IntToString(offset)]
  {
  }

  /** `getEntities`' end point. */
  function EntitiesEndPoint(entityType: string): string
  {
    "entity/" + entityType
  }

  /** `getStock`'s end point; its only parameter is `groupBy`. */
  function StockEndPoint(byStore: bool): string
  {
    "report/stock/" + (if byStore then "bystore" else "all")
  }

  /** `getCurrentStock`'s address: the stock type defaults to `stock` and
      must be one of `stock`, `freeStock`, `quantity`. */
  function CurrentStockHref(byStore: bool, stockType: Option<string>, zeroLines: bool, filters: seq<Rule>): (r: Result<string>)
    ensures r.Err? <==> stockType.Some? && stockType.value !in ["stock", "freeStock", "quantity"]
    ensures r.Err? ==> r.error == WrongStockType(stockType.value)
  {
    var t := if stockType.None? then "stock" else stockType.value;
    if t !in ["stock", "freeStock", "quantity"] then Err(WrongStockType(t))
    else Ok(CurrentStockHead(byStore, t) + ZeroLinesPiece(zeroLines) + FilterPiece(filters))
  }

  /** The report address of `getCurrentStock` up to its stock type. */
  function CurrentStockHead(byStore: bool, t: string): string
  {
    BASE_URI + "/" + StockEndPoint(byStore) + "/current" + "?stockType=" + t
  }

  function ZeroLinesPiece(zeroLines: bool): string
  {
    if zeroLines then "&include=zeroLines" else ""
  }

  /** The filter joined as `getCollection` joins it: `&` and `filter=...`,
      or nothing without rules. */
  function FilterPiece(filters: seq<Rule>): string
  {
    if |filters| > 0 then "&" + FilterParam(filters) else ""
  }

  /** The parts of `getCurrentStock`'s address: a null stock type is
      `stock`; the address starts with the report address and the stock
      type; `&include=zeroLines` follows exactly when asked for; the
      filter, rendered as `getCollection` renders it, comes last after `&`. */
  lemma CurrentStockHrefShape(byStore: bool, stockType: Option<string>, zeroLines: bool, filters: seq<Rule>)
    ensures stockType.None? ==>
      CurrentStockHref(byStore, stockType, zeroLines, filters) == CurrentStockHref(byStore, Some("stock"), zeroLines, filters)
    ensures var r := CurrentStockHref(byStore, stockType, zeroLines, filters);
      var head := CurrentStockHead(byStore, if stockType.None? then "stock" else stockType.value);
      var zero := "&include=zeroLines";
      r.Ok? ==>
        && |head| <= |r.value| && r.value[..|head|] == head
        && (zeroLines ==> |head| + |zero| <= |r.value| && r.value[|head|..|head| + |zero|] == zero)
        && (!zeroLines ==> r.value == head + FilterPiece(filters))
        && (|filters| == 0 ==> r.value == head + ZeroLinesPiece(zeroLines))
        && (|filters| > 0 ==>
              (|FilterParam(filters)| < |r.value| && r.value[|r.value| - |FilterParam(filters)| - 1..] == "&" + FilterParam(filters)))
  {
    var r := CurrentStockHref(byStore, stockType, zeroLines, filters);
    if r.Ok? {
      var head := CurrentStockHead(byStore, if stockType.None? then "stock" else stockType.value);
      var z, f := ZeroLinesPiece(zeroLines), FilterPiece(filters);
      ConcatSlices(head, z, f);
      ConcatEmpty(head);
      ConcatEmpty(head + z);
    }
  }
}
