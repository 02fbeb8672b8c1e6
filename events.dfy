/** `Entity::getEvents`: the entity's audit trail, read page by page.

    The service is a parameter: `server(href)` is the decoded response
    (`rows` and `meta.size`) to a request. Unlike `getCollection`, every
    request carries the current page size, and the offset advances by the
    rows received. The request names its offset parameter `offest`; the
    loop takes that name as a parameter, so the same definition describes
    the request as written and as evidently intended. The loop is not
    guaranteed to stop, so it runs for at most `fuel` requests. */
module Events {
  import opened Common
  import opened Values
  import opened Pagination

  /** The offset parameter's name as the request spells it, and the name
      the service reads. */
  const WRITTEN_OFFSET_NAME: string := "offest"
  const OFFSET_NAME: string := "offset"

  /** One request of the loop: its page size and its offset. */
  datatype Ask = Ask(q: int, offset: int)

  /** The request URL: the entity's href, `/audit`, the page size and the
      offset. */
  function EventsHref(entityHref: string, offsetName: string, a: Ask): string
  {
    entityHref + "/audit?limit=" + IntToString(a.q) + "&" + offsetName + "=" + IntToString(a.offset)
  }

  /** The requests made, in order, and how the loop ended. */
  datatype EventsRun = EventsRun(asks: seq<Ask>, outcome: Outcome)

  /** What one pass leaves: the events read, or the state of the next pass. */
  datatype EventPass =
    | Halt(events: seq<Value>)
    | Again(offset: int, lim: int, rem: int, q: int, events: seq<Value>)

  /** The limit in force during a pass: the caller's, or, when it is null,
      the total the first response reports less the starting offset. */
  function LimitInForce(page: Page, offset: int, limit: Option<int>): int
  {
    if limit.None? then page.size - offset else limit.value
  }

  /** One pass on the page received. The rows are appended as they are (the
      events stay plain objects); the running total is the length of the
      list. `remainder` 0 stands for PHP's empty `$remainder`. The page
      size is lowered to the remainder, and reset to what is left of the
      limit when the two together overshoot it. */
  function EventStep(page: Page, offset: int, limit: Option<int>, remainder: int, q: int,
                     events: seq<Value>): (p: EventPass)
    ensures p.events == events + page.rows
    ensures p.Again? <==> |events| + |page.rows| < LimitInForce(page, offset, limit)
    ensures p.Again? ==> p.offset == offset + |page.rows| && p.lim == LimitInForce(page, offset, limit)
  {
    var lim := LimitInForce(page, offset, limit);
    var events' := events + page.rows;
    var rem := if remainder == 0 then lim - |page.rows| else remainder - |page.rows|;
    var q1 := if q <= rem then q else rem;
    var q2 := if rem + q1 > lim then lim - |events'| else q1;
    if |events'| < lim then Again(offset + |page.rows|, lim, rem, q2, events') else Halt(events')
  }

  /** The loop from a given state, for at most `fuel` passes. */
  function EventLoop(server: string -> Page, entityHref: string, offsetName: string, offset: int,
                     limit: Option<int>, remainder: int, q: int, events: seq<Value>, fuel: nat): (run: EventsRun)
    ensures fuel > 0 ==> |run.asks| >= 1 && run.asks[0] == Ask(q, offset)
    ensures |run.asks| <= fuel
    ensures run.outcome.Done? || run.outcome.OutOfFuel?
    decreases fuel
  {
    if fuel == 0 then EventsRun([], OutOfFuel)
    else
      var page := server(EventsHref(entityHref, offsetName, Ask(q, offset)));
      match EventStep(page, offset, limit, remainder, q, events)
      case Halt(events') => EventsRun([Ask(q, offset)], Done(events'))
      case Again(offset', lim, rem, q', events') =>
        var rest := EventLoop(server, entityHref, offsetName, offset', Some(lim), rem, q', events', fuel - 1);
        EventsRun([Ask(q, offset)] + rest.asks, rest.outcome)
  }

  /** `getEvents(limit, offset)` on the entity at `entityHref`, with events
      page-size cap `cap`: the page size is the cap, lowered to a truthy
      smaller limit, and a null offset starts at 0. */
  function ReadEvents(server: string -> Page, entityHref: string, offsetName: string, cap: int,
                      limit: Option<int>, offset: Option<int>, fuel: nat): (run: EventsRun)
    ensures fuel > 0 ==>
      |run.asks| >= 1 && run.asks[0] == Ask(InitialPageSize(cap, limit), if offset.None? then 0 else offset.value)
  {
    EventLoop(server, entityHref, offsetName, if offset.None? then 0 else offset.value,
              limit, 0, InitialPageSize(cap, limit), [], fuel)
  }

  /** The rows of the responses to the given requests, concatenated. */
  function EventsReceived(server: string -> Page, entityHref: string, offsetName: string, asks: seq<Ask>): seq<Value>
    decreases |asks|
  {
    if |asks| == 0 then []
    else server(EventsHref(entityHref, offsetName, asks[0])).rows + EventsReceived(server, entityHref, offsetName, asks[1..])
  }

  /** A pass that goes on is followed by the loop from its new state. */
  lemma EventLoopAgain(server: string -> Page, entityHref: string, offsetName: string, offset: int,
                       limit: Option<int>, remainder: int, q: int, events: seq<Value>, fuel: nat, next: EventPass)
    requires fuel > 0 && next.Again?
    requires EventStep(server(EventsHref(entityHref, offsetName, Ask(q, offset))), offset, limit, remainder, q, events) == next
    ensures var rest := EventLoop(server, entityHref, offsetName, next.offset, Some(next.lim), next.rem, next.q, next.events, fuel - 1);
      EventLoop(server, entityHref, offsetName, offset, limit, remainder, q, events, fuel)
        == EventsRun([Ask(q, offset)] + rest.asks, rest.outcome)
  {
  }

  /** A pass that halts ends the loop with the events read. */
  lemma EventLoopHalt(server: string -> Page, entityHref: string, offsetName: string, offset: int,
                      limit: Option<int>, remainder: int, q: int, events: seq<Value>, fuel: nat, events': seq<Value>)
    requires fuel > 0
    requires EventStep(server(EventsHref(entityHref, offsetName, Ask(q, offset))), offset, limit, remainder, q, events)
             == Halt(events')
    ensures EventLoop(server, entityHref, offsetName, offset, limit, remainder, q, events, fuel)
         == EventsRun([Ask(q, offset)], Done(events'))
  {
  }

  lemma EventsReceivedCons(server: string -> Page, entityHref: string, offsetName: string, a: Ask, asks: seq<Ask>)
    ensures EventsReceived(server, entityHref, offsetName, [a] + asks)
         == server(EventsHref(entityHref, offsetName, a)).rows + EventsReceived(server, entityHref, offsetName, asks)
  {
    assert ([a] + asks)[1..] == asks;
  }

  /** The events returned are the rows of every response, in order. */
  lemma {:induction false} EventLoopItems(server: string -> Page, entityHref: string, offsetName: string, offset: int,
                                          limit: Option<int>, remainder: int, q: int, events: seq<Value>, fuel: nat)
    ensures var run := EventLoop(server, entityHref, offsetName, offset, limit, remainder, q, events, fuel);
      run.outcome.Done? ==> run.outcome.items == events + EventsReceived(server, entityHref, offsetName, run.asks)
    decreases fuel
  {
    if fuel > 0 {
      var a := Ask(q, offset);
      var page := server(EventsHref(entityHref, offsetName, a));
      var next := EventStep(page, offset, limit, remainder, q, events);
      if next.Halt? {
        EventLoopHalt(server, entityHref, offsetName, offset, limit, remainder, q, events, fuel, next.events);
        EventsReceivedCons(server, entityHref, offsetName, a, []);
        ConcatEmpty(page.rows);
      } else {
        EventLoopAgain(server, entityHref, offsetName, offset, limit, remainder, q, events, fuel, next);
        EventLoopItems(server, entityHref, offsetName, next.offset, Some(next.lim), next.rem, next.q, next.events, fuel - 1);
        var rest := EventLoop(server, entityHref, offsetName, next.offset, Some(next.lim), next.rem, next.q, next.events, fuel - 1);
        EventsReceivedCons(server, entityHref, offsetName, a, rest.asks);
        ConcatAssoc(events, page.rows, EventsReceived(server, entityHref, offsetName, rest.asks));
      }
    }
  }

  /** The offset advances by the rows received, not by the page size: each
      request's offset is the starting offset plus the rows received
      before it. */
  lemma {:induction false} EventLoopOffsets(server: string -> Page, entityHref: string, offsetName: string, offset: int,
                                            limit: Option<int>, remainder: int, q: int, events: seq<Value>, fuel: nat)
    ensures var run := EventLoop(server, entityHref, offsetName, offset, limit, remainder, q, events, fuel);
      forall k :: 0 <= k < |run.asks| ==>
        run.asks[k].offset == offset + |EventsReceived(server, entityHref, offsetName, run.asks[..k])|
    decreases fuel
  {
    if fuel > 0 {
      var a := Ask(q, offset);
      var page := server(EventsHref(entityHref, offsetName, a));
      var run := EventLoop(server, entityHref, offsetName, offset, limit, remainder, q, events, fuel);
      var next := EventStep(page, offset, limit, remainder, q, events);
      if next.Halt? {
        assert run.asks[..0] == [];
      } else {
        EventLoopAgain(server, entityHref, offsetName, offset, limit, remainder, q, events, fuel, next);
        EventLoopOffsets(server, entityHref, offsetName, next.offset, Some(next.lim), next.rem, next.q, next.events, fuel - 1);
        var rest := EventLoop(server, entityHref, offsetName, next.offset, Some(next.lim), next.rem, next.q, next.events, fuel - 1);
        assert run.asks == [a] + rest.asks;
        forall k | 0 <= k < |run.asks|
          ensures run.asks[k].offset == offset + |EventsReceived(server, entityHref, offsetName, run.asks[..k])|
        {
          if k == 0 {
            assert run.asks[..0] == [];
          } else {
            assert run.asks[..k] == [a] + rest.asks[..k - 1];
            EventsReceivedCons(server, entityHref, offsetName, a, rest.asks[..k - 1]);
            assert run.asks[k] == rest.asks[k - 1];
          }
        }
      }
    }
  }

  /** The loop ends only once the list holds at least the limit. */
  lemma {:induction false} EventLoopReachesLimit(server: string -> Page, entityHref: string, offsetName: string, offset: int,
                                                 l: int, remainder: int, q: int, events: seq<Value>, fuel: nat)
    ensures var run := EventLoop(server, entityHref, offsetName, offset, Some(l), remainder, q, events, fuel);
      run.outcome.Done? ==> |run.outcome.items| >= l
    decreases fuel
  {
    if fuel > 0 {
      var page := server(EventsHref(entityHref, offsetName, Ask(q, offset)));
      match EventStep(page, offset, Some(l), remainder, q, events)
      case Halt(events') =>
      case Again(offset', lim, rem, q', events') =>
        EventLoopReachesLimit(server, entityHref, offsetName, offset', l, rem, q', events', fuel - 1);
    }
  }

  /** With a null limit, the loop ends only once the list holds the total
      the first response reports, less the starting offset. */
  lemma NullLimitReachesTotal(server: string -> Page, entityHref: string, offsetName: string, cap: int,
                              offset: Option<int>, fuel: nat)
    requires fuel > 0
    ensures var run := ReadEvents(server, entityHref, offsetName, cap, None, offset, fuel);
      var o0 := if offset.None? then 0 else offset.value;
      run.outcome.Done? ==>
        |run.outcome.items| >= server(EventsHref(entityHref, offsetName, run.asks[0])).size - o0
  {
    var o0 := if offset.None? then 0 else offset.value;
    var q0 := InitialPageSize(cap, None);
    var page := server(EventsHref(entityHref, offsetName, Ask(q0, o0)));
    match EventStep(page, o0, None, 0, q0, [])
    case Halt(events') =>
    case Again(offset', lim, rem, q', events') =>
      EventLoopReachesLimit(server, entityHref, offsetName, offset', lim, rem, q', events', fuel - 1);
  }

  /** While the list is below the limit, a service that answers with no
      rows keeps the loop asking forever. */
  lemma {:induction false} EmptyPagesDiverge(server: string -> Page, entityHref: string, offsetName: string, offset: int,
                                             l: int, remainder: int, q: int, events: seq<Value>, fuel: nat)
    requires forall h :: server(h).rows == []
    requires |events| < l
    ensures EventLoop(server, entityHref, offsetName, offset, Some(l), remainder, q, events, fuel).outcome == OutOfFuel
    decreases fuel
  {
    if fuel > 0 {
      var page := server(EventsHref(entityHref, offsetName, Ask(q, offset)));
      assert page.rows == [];
      match EventStep(page, offset, Some(l), remainder, q, events)
      case Halt(events') =>
        assert false;
      case Again(offset', lim, rem, q', events') =>
        EmptyPagesDiverge(server, entityHref, offsetName, offset', l, rem, q', events', fuel - 1);
    }
  }

  /** A positive limit, or a null limit with events reported past the
      offset, followed by empty responses, never ends. */
  lemma EmptyTrailDiverges(server: string -> Page, entityHref: string, offsetName: string, cap: int,
                           limit: Option<int>, offset: Option<int>, size: int, fuel: nat)
    requires forall h :: server(h) == Page([], size)
    requires (limit.Some? && limit.value > 0) || (limit.None? && size > (if offset.None? then 0 else offset.value))
    ensures ReadEvents(server, entityHref, offsetName, cap, limit, offset, fuel).outcome == OutOfFuel
  {
    var o0 := if offset.None? then 0 else offset.value;
    var q0 := InitialPageSize(cap, limit);
    if fuel > 0 {
      var page := server(EventsHref(entityHref, offsetName, Ask(q0, o0)));
      match EventStep(page, o0, limit, 0, q0, [])
      case Halt(events') =>
        assert false;
      case Again(offset', lim, rem, q', events') =>
        EmptyPagesDiverge(server, entityHref, offsetName, offset', lim, rem, q', events', fuel - 1);
    }
  }

  /** The loop ends when every response holds at least one row and there is
      fuel for one request per missing event. */
  lemma {:induction false} NonEmptyPagesEnd(server: string -> Page, entityHref: string, offsetName: string, offset: int,
                                            l: int, remainder: int, q: int, events: seq<Value>, fuel: nat)
    requires forall h :: |server(h).rows| >= 1
    requires fuel >= 1 && fuel >= l - |events|
    ensures EventLoop(server, entityHref, offsetName, offset, Some(l), remainder, q, events, fuel).outcome.Done?
    decreases fuel
  {
    var page := server(EventsHref(entityHref, offsetName, Ask(q, offset)));
    assert |page.rows| >= 1;
    match EventStep(page, offset, Some(l), remainder, q, events)
    case Halt(events') =>
    case Again(offset', lim, rem, q', events') =>
      NonEmptyPagesEnd(server, entityHref, offsetName, offset', l, rem, q', events', fuel - 1);
  }

  // ---- How the service reads a request ----

  /** The query string of an href: the text after its first `?`. */
  function QueryOf(href: string): string
    decreases |href|
  {
    if |href| == 0 then ""
    else if href[0] == '?' then href[1..]
    else QueryOf(href[1..])
  }

  /** The value of the first `name=value` piece, as the service reads a
      parameter. */
  function ParamIn(pieces: seq<string>, name: string): Option<string>
    decreases |pieces|
  {
    if |pieces| == 0 then None
    else
      var key := name + "=";
      if |pieces[0]| >= |key| && pieces[0][..|key|] == key then Some(pieces[0][|key|..])
      else ParamIn(pieces[1..], name)
  }

  /** The parameter `name` of an href's query. */
  function Param(href: string, name: string): Option<string>
  {
    ParamIn(Explode(QueryOf(href), '&'), name)
  }

  lemma {:induction false} QueryAfterMark(a: string, b: string)
    requires '?' !in a
    ensures QueryOf(a + ['?'] + b) == b
    decreases |a|
  {
    var s := a + ['?'] + b;
    if |a| == 0 {
      assert s[0] == '?' && s[1..] == b;
    } else {
      assert s[0] == a[0] && s[1..] == a[1..] + ['?'] + b;
      assert '?' !in a[1..] by {
        forall k | 0 <= k < |a| - 1 ensures a[1..][k] != '?' { assert a[1..][k] == a[k + 1]; }
      }
      QueryAfterMark(a[1..], b);
    }
  }

  /** The query of a request splits into its two parameters. */
  lemma EventsQueryPieces(entityHref: string, offsetName: string, a: Ask)
    requires '?' !in entityHref && '&' !in offsetName
    ensures Explode(QueryOf(EventsHref(entityHref, offsetName, a)), '&')
         == ["limit=" + IntToString(a.q), offsetName + "=" + IntToString(a.offset)]
  {
    var limitPiece := "limit=" + IntToString(a.q);
    var offsetPiece := offsetName + "=" + IntToString(a.offset);
    var path := entityHref + "/audit";
    assert '?' !in path by {
      assert forall k :: 0 <= k < |path| ==> path[k] == if k < |entityHref| then entityHref[k] else "/audit"[k - |entityHref|];
    }
    assert EventsHref(entityHref, offsetName, a) == path + ['?'] + (limitPiece + ['&'] + offsetPiece);
    QueryAfterMark(path, limitPiece + ['&'] + offsetPiece);
    assert '&' !in limitPiece by {
      assert forall k :: 0 <= k < |limitPiece| ==> limitPiece[k] == if k < 6 then "limit="[k] else IntToString(a.q)[k - 6];
    }
    ExplodeSplit(limitPiece, '&', offsetPiece);
    assert '&' !in offsetPiece by {
      assert forall k :: 0 <= k < |offsetPiece| ==>
        offsetPiece[k] == if k < |offsetName| then offsetName[k] else if k == |offsetName| then '=' else IntToString(a.offset)[k - |offsetName| - 1];
    }
    ExplodeWithoutSeparator(offsetPiece, '&');
  }

  /** As written, the service finds the page size but no offset in any
      request: the offset reaches the wire under a name it does not read. */
  lemma WrittenHrefHidesOffset(entityHref: string, a: Ask)
    requires '?' !in entityHref
    ensures Param(EventsHref(entityHref, WRITTEN_OFFSET_NAME, a), "limit") == Some(IntToString(a.q))
    ensures Param(EventsHref(entityHref, WRITTEN_OFFSET_NAME, a), OFFSET_NAME) == None
  {
    EventsQueryPieces(entityHref, WRITTEN_OFFSET_NAME, a);
    var limitPiece := "limit=" + IntToString(a.q);
    var offsetPiece := WRITTEN_OFFSET_NAME + "=" + IntToString(a.offset);
    assert limitPiece[..6] == "limit=";
    assert limitPiece[6..] == IntToString(a.q);
    assert limitPiece[..7] != "offset=" by { assert limitPiece[0] != "offset="[0]; }
    assert offsetPiece[..7] == "offest=";
    assert "offest=" != "offset=" by { assert "offest="[3] != "offset="[3]; }
    var pieces := Explode(QueryOf(EventsHref(entityHref, WRITTEN_OFFSET_NAME, a)), '&');
    assert OFFSET_NAME + "=" == "offset=";
    assert ParamIn(pieces, OFFSET_NAME) == ParamIn([offsetPiece], OFFSET_NAME) by { assert pieces[1..] == [offsetPiece]; }
    assert ParamIn([offsetPiece], OFFSET_NAME) == None;
  }

  /** With the intended name, the service finds both the page size and the
      offset. */
  lemma IntendedHrefCarriesOffset(entityHref: string, a: Ask)
    requires '?' !in entityHref
    ensures Param(EventsHref(entityHref, OFFSET_NAME, a), "limit") == Some(IntToString(a.q))
    ensures Param(EventsHref(entityHref, OFFSET_NAME, a), OFFSET_NAME) == Some(IntToString(a.offset))
  {
    EventsQueryPieces(entityHref, OFFSET_NAME, a);
    var limitPiece := "limit=" + IntToString(a.q);
    var offsetPiece := OFFSET_NAME + "=" + IntToString(a.offset);
    assert limitPiece[..6] == "limit=";
    assert limitPiece[6..] == IntToString(a.q);
    assert limitPiece[..7] != "offset=" by { assert limitPiece[0] != "offset="[0]; }
    var pieces := Explode(QueryOf(EventsHref(entityHref, OFFSET_NAME, a)), '&');
    assert OFFSET_NAME + "=" == "offset=";
    assert offsetPiece[..7] == "offset=";
    assert offsetPiece[7..] == IntToString(a.offset);
    assert ParamIn(pieces, OFFSET_NAME) == ParamIn([offsetPiece], OFFSET_NAME) by { assert pieces[1..] == [offsetPiece]; }
  }

  /** A service that answers from the `limit` and `offset` parameters it
      finds in the request. */
  function Service(answer: (Option<string>, Option<string>) -> Page): string -> Page
  {
    (h: string) => answer(Param(h, "limit"), Param(h, OFFSET_NAME))
  }

  /** The part of the trail a request for `l` events from offset `o` gets. */
  function Window(trail: seq<Value>, l: int, o: int): Page
    requires l >= 0 && o >= 0
  {
    var from := if o < |trail| then o else |trail|;
    var to := if o + l < |trail| then o + l else |trail|;
    Page(trail[from..to], |trail|)
  }

  /** The service holds the audit trail `trail` and serves its windows; a
      request with no offset is served from the start. */
  ghost predicate ServesTrail(answer: (Option<string>, Option<string>) -> Page, trail: seq<Value>)
  {
    (forall l, o :: l >= 0 && o >= 0 ==> answer(Some(IntToString(l)), Some(IntToString(o))) == Window(trail, l, o))
    && (forall l :: l >= 0 ==> answer(Some(IntToString(l)), None) == Window(trail, l, 0))
  }

  /** As written: asking for two pages' worth of events, the second request
      is served from the start again, and the result is the first page
      twice. */
  lemma WrittenEventsRepeatFirstPage(answer: (Option<string>, Option<string>) -> Page, trail: seq<Value>,
                                     entityHref: string, q0: int, fuel: nat)
    requires ServesTrail(answer, trail)
    requires '?' !in entityHref && q0 > 0 && |trail| >= 2 * q0 && fuel >= 2
    ensures ReadEvents(Service(answer), entityHref, WRITTEN_OFFSET_NAME, q0, Some(2 * q0), None, fuel)
         == EventsRun([Ask(q0, 0), Ask(q0, q0)], Done(trail[..q0] + trail[..q0]))
  {
    var server := Service(answer);
    var a0, a1 := Ask(q0, 0), Ask(q0, q0);
    WrittenHrefHidesOffset(entityHref, a0);
    WrittenHrefHidesOffset(entityHref, a1);
    var page := Window(trail, q0, 0);
    assert page.rows == trail[..q0];
    assert server(EventsHref(entityHref, WRITTEN_OFFSET_NAME, a0)) == page;
    assert server(EventsHref(entityHref, WRITTEN_OFFSET_NAME, a1)) == page;
    var first := EventStep(page, 0, Some(2 * q0), 0, q0, []);
    assert first == Again(q0, 2 * q0, q0, q0, trail[..q0]);
    EventLoopAgain(server, entityHref, WRITTEN_OFFSET_NAME, 0, Some(2 * q0), 0, q0, [], fuel, first);
    assert EventStep(page, q0, Some(2 * q0), q0, q0, trail[..q0]) == Halt(trail[..q0] + trail[..q0]);
    assert EventLoop(server, entityHref, WRITTEN_OFFSET_NAME, q0, Some(2 * q0), q0, q0, trail[..q0], fuel - 1)
        == EventsRun([a1], Done(trail[..q0] + trail[..q0]));
  }

  /** With the intended name, the same request reads the first two pages. */
  lemma IntendedEventsReadOn(answer: (Option<string>, Option<string>) -> Page, trail: seq<Value>,
                             entityHref: string, q0: int, fuel: nat)
    requires ServesTrail(answer, trail)
    requires '?' !in entityHref && q0 > 0 && |trail| >= 2 * q0 && fuel >= 2
    ensures ReadEvents(Service(answer), entityHref, OFFSET_NAME, q0, Some(2 * q0), None, fuel)
         == EventsRun([Ask(q0, 0), Ask(q0, q0)], Done(trail[..2 * q0]))
  {
    var server := Service(answer);
    var a0, a1 := Ask(q0, 0), Ask(q0, q0);
    IntendedHrefCarriesOffset(entityHref, a0);
    IntendedHrefCarriesOffset(entityHref, a1);
    var page0, page1 := Window(trail, q0, 0), Window(trail, q0, q0);
    assert page0.rows == trail[..q0] && page1.rows == trail[q0..2 * q0];
    assert server(EventsHref(entityHref, OFFSET_NAME, a0)) == page0;
    assert server(EventsHref(entityHref, OFFSET_NAME, a1)) == page1;
    var first := EventStep(page0, 0, Some(2 * q0), 0, q0, []);
    assert first == Again(q0, 2 * q0, q0, q0, trail[..q0]);
    EventLoopAgain(server, entityHref, OFFSET_NAME, 0, Some(2 * q0), 0, q0, [], fuel, first);
    assert trail[..q0] + trail[q0..2 * q0] == trail[..2 * q0];
    assert EventStep(page1, q0, Some(2 * q0), q0, q0, trail[..q0]) == Halt(trail[..2 * q0]);
    assert EventLoop(server, entityHref, OFFSET_NAME, q0, Some(2 * q0), q0, q0, trail[..q0], fuel - 1)
        == EventsRun([a1], Done(trail[..2 * q0]));
  }
}
