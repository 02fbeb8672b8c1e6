/** The older client's `getEntities` (`Base\Models\Client`): fixed pages of
    1000 from offset 0, until a page does not hold exactly 1000 rows.

    The service is a parameter: `server(offset)` is the `rows` of the
    response at that offset, or None when the response has none. The loop
    is not guaranteed to stop, so it runs for at most `fuel` requests. */
module Legacy {
  import opened Common
  import opened Values
  import opened Filter
  import opened Links
  import opened Pagination

  const LEGACY_PAGE_SIZE: int := 1000

  /** `href_base`: the type's collection, the fixed page size and, when
      there are rules, the filter. It is the address the current client's
      `getEntities` pages from with a page size of 1000 and no parameters. */
  function LegacyHrefBase(entityType: string, filters: seq<Rule>): (href: string)
    ensures href == HrefBase("entity/" + entityType, LEGACY_PAGE_SIZE, [], filters)
  {
    var head := LEGACY_ENTITY_HREF + "/" + entityType;
    assert head == BASE_URI + "/" + ("entity/" + entityType);
    head + "?limit=" + IntToString(LEGACY_PAGE_SIZE) + FilterPiece(filters)
  }

  /** `rows ?? []` */
  function RowsOrEmpty(rows: Option<seq<Value>>): seq<Value>
  {
    match rows
    case Some(r) => r
    case None => []
  }

  /** The loop from `offset` with `list` read so far: each page's rows are
      appended, the offset advances by 1000, and the loop goes on exactly
      when the page held 1000 rows. */
  function LegacyLoop(server: int -> Option<seq<Value>>, offset: int, list: seq<Value>, fuel: nat): (run: Run)
    ensures fuel > 0 ==> |run.offsets| >= 1 && run.offsets[0] == offset
    ensures |run.offsets| <= fuel
    ensures run.outcome.Done? || run.outcome.OutOfFuel?
    decreases fuel
  {
    if fuel == 0 then Run([], OutOfFuel)
    else
      var rows := RowsOrEmpty(server(offset));
      if |rows| == LEGACY_PAGE_SIZE then
        var rest := LegacyLoop(server, offset + LEGACY_PAGE_SIZE, list + rows, fuel - 1);
        Run([offset] + rest.offsets, rest.outcome)
      else Run([offset], Done(list + rows))
  }

  /** `getEntities`: the loop from offset 0 with nothing read. */
  function LegacyRead(server: int -> Option<seq<Value>>, fuel: nat): Run
  {
    LegacyLoop(server, 0, [], fuel)
  }

  /** The statements building `href_base`: the filter is rendered and
      joined only when there are rules. */
  method LegacyHrefBaseOf(entityType: string, filters: seq<Rule>) returns (hrefBase: string)
    ensures hrefBase == LegacyHrefBase(entityType, filters)
  {
    var head := LEGACY_ENTITY_HREF + "/" + entityType + "?limit=" + IntToString(LEGACY_PAGE_SIZE);
    hrefBase := head;
    if |filters| > 0 {
      var filterUri := RenderFilter(filters);
      hrefBase := hrefBase + "&" + filterUri;
      assert hrefBase == head + FilterPiece(filters);
    } else {
      assert hrefBase == head + FilterPiece(filters);
    }
  }

  /** `getEntities(entityType, filterList)` as written: the href base built
      once, then the do-while loop. Returns the URLs requested and the run. */
  method GetEntities(server: int -> Option<seq<Value>>, entityType: string, filters: seq<Rule>, fuel: nat)
    returns (urls: seq<string>, run: Run)
    ensures run == LegacyRead(server, fuel)
    ensures urls == Urls(LegacyHrefBase(entityType, filters), run.offsets)
  {
    var hrefBase := LegacyHrefBaseOf(entityType, filters);
    var offset := 0;
    var list: seq<Value> := [];
    var offsets: seq<int> := [];
    urls := [];
    var f := fuel;
    var going := true;
    while going && f > 0
      invariant going ==> LegacyRead(server, fuel) == Run(offsets + LegacyLoop(server, offset, list, f).offsets,
                                                          LegacyLoop(server, offset, list, f).outcome)
      invariant !going ==> LegacyRead(server, fuel) == Run(offsets, Done(list))
      invariant urls == Urls(hrefBase, offsets)
      decreases f
    {
      var rows := RowsOrEmpty(server(offset));
      UrlsAppend(hrefBase, offsets, offset);
      urls := urls + [hrefBase + "&offset=" + IntToString(offset)];
      if |rows| == LEGACY_PAGE_SIZE {
        var rest := LegacyLoop(server, offset + LEGACY_PAGE_SIZE, list + rows, f - 1);
        ConcatAssoc(offsets, [offset], rest.offsets);
      }
      offsets := offsets + [offset];
      list := list + rows;
      offset := offset + LEGACY_PAGE_SIZE;
      f := f - 1;
      going := |rows| == LEGACY_PAGE_SIZE;
    }
    if going {
      ConcatEmpty(offsets);
      run := Run(offsets, OutOfFuel);
    } else {
      run := Run(offsets, Done(list));
    }
  }

  /** The rows of the pages at the given offsets, concatenated. */
  function LegacyReceived(server: int -> Option<seq<Value>>, offsets: seq<int>): seq<Value>
    decreases |offsets|
  {
    if |offsets| == 0 then [] else RowsOrEmpty(server(offsets[0])) + LegacyReceived(server, offsets[1..])
  }

  /** The requests are at 0, 1000, 2000, …; every page but the last held
      exactly 1000 rows; the loop ends at the first page that does not;
      and what it returns is the concatenation of the pages read. */
  lemma LegacyLoopShape(server: int -> Option<seq<Value>>, offset: int, list: seq<Value>, fuel: nat)
    ensures var run := LegacyLoop(server, offset, list, fuel);
      (forall k :: 0 <= k < |run.offsets| ==> run.offsets[k] == offset + LEGACY_PAGE_SIZE * k)
      && (forall k :: 0 <= k < |run.offsets| - 1 ==> |RowsOrEmpty(server(run.offsets[k]))| == LEGACY_PAGE_SIZE)
      && (run.outcome.Done? ==>
            |run.offsets| >= 1
            && |RowsOrEmpty(server(run.offsets[|run.offsets| - 1]))| != LEGACY_PAGE_SIZE
            && run.outcome.items == list + LegacyReceived(server, run.offsets))
      && (run.outcome.OutOfFuel? ==>
            |run.offsets| == fuel
            && forall k :: 0 <= k < |run.offsets| ==> |RowsOrEmpty(server(run.offsets[k]))| == LEGACY_PAGE_SIZE)
  {
    LegacyOffsets(server, offset, list, fuel);
    LegacyItems(server, offset, list, fuel);
  }

  /** The offsets part of `LegacyLoopShape`. */
  lemma {:induction false} LegacyOffsets(server: int -> Option<seq<Value>>, offset: int, list: seq<Value>, fuel: nat)
    ensures var run := LegacyLoop(server, offset, list, fuel);
      (forall k :: 0 <= k < |run.offsets| ==> run.offsets[k] == offset + LEGACY_PAGE_SIZE * k)
      && (forall k :: 0 <= k < |run.offsets| - 1 ==> |RowsOrEmpty(server(run.offsets[k]))| == LEGACY_PAGE_SIZE)
      && (run.outcome.Done? ==> |RowsOrEmpty(server(run.offsets[|run.offsets| - 1]))| != LEGACY_PAGE_SIZE)
      && (run.outcome.OutOfFuel? ==>
            |run.offsets| == fuel
            && forall k :: 0 <= k < |run.offsets| ==> |RowsOrEmpty(server(run.offsets[k]))| == LEGACY_PAGE_SIZE)
    decreases fuel
  {
    if fuel > 0 {
      var rows := RowsOrEmpty(server(offset));
      if |rows| == LEGACY_PAGE_SIZE {
        LegacyOffsets(server, offset + LEGACY_PAGE_SIZE, list + rows, fuel - 1);
        var rest := LegacyLoop(server, offset + LEGACY_PAGE_SIZE, list + rows, fuel - 1);
        LegacyOffsetsCons(server, offset, rest.offsets);
      }
    }
  }

  /** The offsets after a full page at `offset`: that offset, then the
      offsets of the loop one page on. */
  lemma LegacyOffsetsCons(server: int -> Option<seq<Value>>, offset: int, rest: seq<int>)
    requires forall k :: 0 <= k < |rest| ==> rest[k] == offset + LEGACY_PAGE_SIZE + LEGACY_PAGE_SIZE * k
    requires forall k :: 0 <= k < |rest| - 1 ==> |RowsOrEmpty(server(rest[k]))| == LEGACY_PAGE_SIZE
    requires |RowsOrEmpty(server(offset))| == LEGACY_PAGE_SIZE
    ensures forall k :: 0 <= k < |[offset] + rest| ==> ([offset] + rest)[k] == offset + LEGACY_PAGE_SIZE * k
    ensures forall k :: 0 <= k < |[offset] + rest| - 1 ==> |RowsOrEmpty(server(([offset] + rest)[k]))| == LEGACY_PAGE_SIZE
  {
    forall k | 1 <= k < |[offset] + rest|
      ensures ([offset] + rest)[k] == rest[k - 1]
    {
    }
  }

  /** The items part of `LegacyLoopShape`. */
  lemma {:induction false} LegacyItems(server: int -> Option<seq<Value>>, offset: int, list: seq<Value>, fuel: nat)
    ensures var run := LegacyLoop(server, offset, list, fuel);
      run.outcome.Done? ==> run.outcome.items == list + LegacyReceived(server, run.offsets)
    decreases fuel
  {
    if fuel > 0 {
      var rows := RowsOrEmpty(server(offset));
      var run := LegacyLoop(server, offset, list, fuel);
      if |rows| == LEGACY_PAGE_SIZE {
        LegacyItems(server, offset + LEGACY_PAGE_SIZE, list + rows, fuel - 1);
        var rest := LegacyLoop(server, offset + LEGACY_PAGE_SIZE, list + rows, fuel - 1);
        assert run.offsets == [offset] + rest.offsets;
        assert run.offsets[1..] == rest.offsets;
        if run.outcome.Done? {
          assert LegacyReceived(server, run.offsets) == rows + LegacyReceived(server, rest.offsets);
          assert list + rows + LegacyReceived(server, rest.offsets) == list + (rows + LegacyReceived(server, rest.offsets));
        }
      } else {
        assert run == Run([offset], Done(list + rows));
        assert run.offsets[1..] == [];
        assert LegacyReceived(server, run.offsets) == rows + [] == rows;
      }
    }
  }

  /** The first `1000` rows from `offset` (fewer near the end) of `all`. */
  function PageAt(all: seq<Value>, offset: nat): seq<Value>
  {
    var from := if offset < |all| then offset else |all|;
    var to := if offset + LEGACY_PAGE_SIZE < |all| then offset + LEGACY_PAGE_SIZE else |all|;
    all[from..to]
  }

  /** A service that holds `all` and answers each offset with its page. */
  ghost predicate Holds(server: int -> Option<seq<Value>>, all: seq<Value>)
  {
    forall o :: o >= 0 ==> server(o) == Some(PageAt(all, o))
  }

  /** From a service holding `all`, with enough fuel, the read returns
      exactly `all`, in `|all| / 1000 + 1` requests (an exact multiple of
      1000 costs one request that comes back empty). */
  lemma LegacyReadsAll(server: int -> Option<seq<Value>>, all: seq<Value>, fuel: nat)
    requires Holds(server, all)
    requires fuel > |all| / LEGACY_PAGE_SIZE
    ensures LegacyRead(server, fuel).outcome == Done(all)
    ensures |LegacyRead(server, fuel).offsets| == |all| / LEGACY_PAGE_SIZE + 1
  {
    LegacyTail(server, all, 0, fuel);
    assert all[..0] == [];
  }

  lemma {:induction false} LegacyTail(server: int -> Option<seq<Value>>, all: seq<Value>, j: nat, fuel: nat)
    requires Holds(server, all)
    requires LEGACY_PAGE_SIZE * j <= |all|
    requires fuel > (|all| - LEGACY_PAGE_SIZE * j) / LEGACY_PAGE_SIZE
    ensures LegacyLoop(server, LEGACY_PAGE_SIZE * j, all[..LEGACY_PAGE_SIZE * j], fuel).outcome == Done(all)
    ensures |LegacyLoop(server, LEGACY_PAGE_SIZE * j, all[..LEGACY_PAGE_SIZE * j], fuel).offsets|
         == (|all| - LEGACY_PAGE_SIZE * j) / LEGACY_PAGE_SIZE + 1
    decreases |all| - LEGACY_PAGE_SIZE * j
  {
    var o := LEGACY_PAGE_SIZE * j;
    var rows := RowsOrEmpty(server(o));
    assert rows == PageAt(all, o);
    if o + LEGACY_PAGE_SIZE <= |all| {
      assert |rows| == LEGACY_PAGE_SIZE;
      assert all[..o] + rows == all[..o + LEGACY_PAGE_SIZE];
      assert o + LEGACY_PAGE_SIZE == LEGACY_PAGE_SIZE * (j + 1);
      assert (|all| - o) / LEGACY_PAGE_SIZE == (|all| - LEGACY_PAGE_SIZE * (j + 1)) / LEGACY_PAGE_SIZE + 1;
      LegacyTail(server, all, j + 1, fuel - 1);
    } else {
      assert rows == all[o..];
      assert |rows| < LEGACY_PAGE_SIZE;
      assert all[..o] + rows == all;
      assert (|all| - o) / LEGACY_PAGE_SIZE == 0;
    }
  }
}
