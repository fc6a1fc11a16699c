/** What becomes of a write to a chip that is still busy with something else. */
module FlashBusy {
  import opened Arith
  import opened Bytes
  import opened Geometry
  import opened FlashChip
  import opened FlashTheory
  import opened FlashRuns
  import opened FlashWrites
  import opened FlashFaults

  // A complete run whose first command is lost.

  lemma LostCommand(d: Device, st: Store, op: Op) returns (m: Moment)
    requires Fits(d, st) && st.busy > 0 && OpFits(d, op)
    ensures Happens(d, Reliable, m) && m.before == st && m.event == Event(op, true, true) && m.after == st.(busy := 0)
  {
    m := Moment(st, Event(op, true, true), st.(busy := 0), []);
  }

  /** The command that comes too early is lost; the others are carried out. */
  lemma LostFirst(d: Device, st: Store, plan: seq<Op>) returns (rest: seq<Moment>, run: seq<Moment>, st': Store)
    requires Fits(d, st) && st.busy > 0 && plan != [] && Harmless(d, plan)
    ensures Ran(d, Reliable, st.(busy := 0), plan[1..], true, rest, st')
    ensures Ran(d, Reliable, st, plan, true, run, st') && st'.busy == 0
  {
    hide Ran, Addressable;
    var idle := st.(busy := 0);
    var m := LostCommand(d, st, plan[0]);
    RanOne(d, Reliable, m, true, idle);
    rest, st' := CompleteRun(d, Reliable, idle, plan[1..]);
    RanThen(d, Reliable, st, [plan[0]], [m], idle, plan[1..], true, rest, st');
    assert [plan[0]] + plan[1..] == plan;
    run := [m] + rest;
  }

  // What the first chunk of such a write leaves: the page holds what the buffer
  // held before.

  /** The fetch of the page was lost: the part is put into the stale buffer, and
      that replaces the page. */
  lemma StalePart(d: Device, st: Store, a: nat, data: seq<byte>, run: seq<Moment>, st': Store)
    requires Addressable(d) && a < Total(d) && a % d.size + |data| <= d.size
    requires st.busy == 0 && Ran(d, Reliable, st, PartPlan(d, a, data)[1..], true, run, st')
    ensures 0 <= a / d.size < d.pages && |st.main| == Total(d) && |st.buffer| == d.size && 0 <= a % d.size
    ensures st'.main == WithPage(d, st.main, a / d.size, Patch(st.buffer, a % d.size, data))
  {
    hide Ran, PartPlan, Patch, Page, WithPage, Filled, WrapStore, Addressable;
    var p: int := a / d.size;
    PartPlanIs(d, a, data, p);
    var at, plan := a % d.size, PartPlan(d, a, data)[1..];
    RanFits(d, Reliable, st, plan, true, run, st');
    CleanAt(d, Reliable, st, plan, run, st', 0);
    CleanAt(d, Reliable, st, plan, run, st', 1);
    WrapStoreInside(st.buffer, at, data);
    if d.pages >= LARGE {
      CleanAt(d, Reliable, st, plan, run, st', 2);
      RewriteErased(d, st.main, p, Patch(st.buffer, at, data));
    }
  }

  /** The buffer write was lost: the page is erased and programmed with the
      stale buffer. */
  lemma StaleWhole(d: Device, st: Store, a: nat, data: seq<byte>, run: seq<Moment>, st': Store)
    requires Addressable(d) && a < Total(d) && a % d.size == 0
    requires st.busy == 0 && Ran(d, Reliable, st, WholePlan(d, a, data)[1..], true, run, st')
    ensures a + d.size <= |st.main| == Total(d) && |st.buffer| == d.size && st'.main == Patch(st.main, a, st.buffer)
  {
    hide Ran, WholePlan, Patch, Page, WithPage, Filled, Merge, Addressable;
    var p: int := a / d.size;
    WholePlanIs(d, a, data, p);
    PageFits(d, p);
    var plan := WholePlan(d, a, data)[1..];
    RanFits(d, Reliable, st, plan, true, run, st');
    CleanAt(d, Reliable, st, plan, run, st', 0);
    CleanAt(d, Reliable, st, plan, run, st', 1);
    ErasedThenProgrammed(d, st.main, p, st.buffer);
  }

  lemma StaleByte(d: Device, main: seq<byte>, p: nat, at: nat, buffer: seq<byte>, data: seq<byte>, i: nat)
    requires |main| == Total(d) && p < d.pages && |buffer| == d.size && at + |data| <= d.size
    requires i < at || at + |data| <= i < d.size
    ensures p * d.size + i < |main| && WithPage(d, main, p, Patch(buffer, at, data))[p * d.size + i] == buffer[i]
  {
    PageFits(d, p);
  }

  /** Whole pages and the tail do not touch what lies before them. */
  lemma RestKeepsBefore(d: Device, health: Health, st: Store, a: nat, data: seq<byte>, run: seq<Moment>, st': Store,
                        i: nat)
    requires Addressable(d) && a + |data| <= Total(d) && i < a && (data == [] || a % d.size == 0)
    requires Ran(d, health, st, RestPlan(d, a, data), true, run, st')
    ensures i < |st.main| == |st'.main| && st'.main[i] == st.main[i]
  {
    hide Ran, RestPlan, OnTheWay, Pow2, Limit;
    var plan := RestPlan(d, a, data);
    RanFits(d, health, st, plan, true, run, st');
    RestPlanFits(d, a, data);
    forall k | 0 <= k < |plan| && Programs(plan[k])
      ensures a <= plan[k].page * d.size && plan[k].page * d.size + d.size <= PageEnd(d, a + |data|)
    {
      OnTheWayIsInside(d, plan[k].page, a, |data|);
      if data == [] {
        NothingLeft(d, a);
        assert false;
      }
      DivMod(a, d.size);
    }
    RunStaysIn(d, health, st, plan, true, run, st', a, PageEnd(d, a + |data|));
  }

  /** A chunk whose first command is lost, and the rest of the write. */
  lemma LostThenRest(d: Device, st: Store, chunk: seq<Op>, a: nat, data: seq<byte>, i: nat)
    returns (head: seq<Moment>, mid: Store, run: seq<Moment>, st': Store)
    requires Fits(d, st) && st.busy > 0 && chunk != [] && Harmless(d, chunk)
    requires i < a && a + |data| <= Total(d) && (data == [] || a % d.size == 0)
    ensures Ran(d, Reliable, st.(busy := 0), chunk[1..], true, head, mid)
    ensures Ran(d, Reliable, st, chunk + RestPlan(d, a, data), true, run, st')
    ensures i < |mid.main| == |st'.main| && st'.main[i] == mid.main[i]
  {
    hide Ran, RestPlan, Harmless, Pow2, Limit;
    var first, more;
    head, first, mid := LostFirst(d, st, chunk);
    RanFits(d, Reliable, st, chunk, true, first, mid);
    RestPlanHarmless(d, a, data);
    HarmlessOps(d, RestPlan(d, a, data));
    more, st' := CompleteRun(d, Reliable, mid, RestPlan(d, a, data));
    RanThen(d, Reliable, st, chunk, first, mid, RestPlan(d, a, data), true, more, st');
    run := first + more;
    RestKeepsBefore(d, Reliable, mid, a, data, more, st', i);
  }

  lemma HarmlessOps(d: Device, plan: seq<Op>)
    requires Harmless(d, plan)
    ensures forall op :: op in plan ==> OpFits(d, op) && !op.ReadArray?
  {
  }

  // The three ways a write starts, and the byte that is wrong in the end.

  /** Inside a page: the byte before the range is what the buffer held. */
  lemma BusyInside(d: Device, st: Store, a: nat, at: nat, data: seq<byte>) returns (run: seq<Moment>, st': Store)
    requires Fits(d, st) && st.busy > 0 && a + |data| <= Total(d) && at == a % d.size && 0 < at < d.size && at <= a
    ensures Ran(d, Reliable, st, WritePlan(d, a, data), true, run, st')
    ensures a - 1 < |st'.main| && st'.main[a - 1] == st.buffer[at - 1]
  {
    hide Ran, PartPlan, RestPlan, WithPage, Patch, Harmless, Pow2, Limit;
    var n := HeadLength(d, a, |data|);
    NotAtEnd(d, a);
    HeadEnds(d, a, |data|);
    PartPlanIs(d, a, data[..n], a / d.size);
    PartPlanHarmless(d, a, data[..n]);
    var head, mid;
    head, mid, run, st' := LostThenRest(d, st, PartPlan(d, a, data[..n]), a + n, data[n..], a - 1);
    StalePart(d, st.(busy := 0), a, data[..n], head, mid);
    StaleByte(d, st.main, a / d.size, at, st.buffer, data[..n], at - 1);
  }

  /** At the start of a page, with a whole page to write: the page is what the
      buffer held, and with it the first byte of the range. */
  lemma BusyWhole(d: Device, st: Store, a: nat, data: seq<byte>) returns (run: seq<Moment>, st': Store)
    requires Fits(d, st) && st.busy > 0 && a + |data| <= Total(d) && a % d.size == 0 && |data| >= d.size
    ensures Ran(d, Reliable, st, WritePlan(d, a, data), true, run, st')
    ensures a < |st'.main| && st'.main[a] == st.buffer[0]
  {
    hide Ran, WholePlan, RestPlan, Patch, Harmless, Pow2, Limit;
    ModStep(a, d.size);
    var now, rest := data[..d.size], data[d.size..];
    WholePlanIs(d, a, now, a / d.size);
    PartPlanHarmless(d, a, now);
    WholePlanFirst(d, a, data);
    var head, mid;
    head, mid, run, st' := LostThenRest(d, st, WholePlan(d, a, now), a + d.size, rest, a);
    StaleWhole(d, st.(busy := 0), a, now, head, mid);
    FirstOfPatch(st.main, a, st.buffer);
  }

  lemma WholePlanFirst(d: Device, a: nat, data: seq<byte>)
    requires Addressable(d) && a % d.size == 0 && |data| >= d.size
    ensures WritePlan(d, a, data) == WholePlan(d, a, data[..d.size]) + RestPlan(d, a + d.size, data[d.size..])
  {
    hide WholePlan, PartPlan, Pow2, Limit;
    assert data[0..] == data && [] + RestPlan(d, a, data) == RestPlan(d, a, data);
  }

  lemma FirstOfPatch(s: seq<byte>, at: nat, data: seq<byte>)
    requires at + |data| <= |s| && data != []
    ensures Patch(s, at, data)[at] == data[0]
  {
  }

  /** At the start of a page, with less than a page to write: the byte behind
      the range is what the buffer held. */
  lemma BusyTail(d: Device, st: Store, a: nat, data: seq<byte>) returns (run: seq<Moment>, st': Store)
    requires Fits(d, st) && st.busy > 0 && a + |data| <= Total(d) && a % d.size == 0 && 0 < |data| < d.size
    ensures Ran(d, Reliable, st, WritePlan(d, a, data), true, run, st')
    ensures a + |data| < |st'.main| && st'.main[a + |data|] == st.buffer[|data|]
  {
    hide Ran, PartPlan, WithPage, Patch, Harmless, Pow2, Limit;
    PartPlanIs(d, a, data, a / d.size);
    PartPlanHarmless(d, a, data);
    PartPlanOnly(d, a, data);
    var head;
    head, run, st' := LostFirst(d, st, PartPlan(d, a, data));
    StalePart(d, st.(busy := 0), a, data, head, st');
    StaleByte(d, st.main, a / d.size, 0, st.buffer, data, |data|);
  }

  lemma PartPlanOnly(d: Device, a: nat, data: seq<byte>)
    requires Addressable(d) && a % d.size == 0 && 0 < |data| < d.size
    ensures WritePlan(d, a, data) == PartPlan(d, a, data)
  {
    hide PartPlan, Pow2, Limit;
    assert data[0..] == data && [] + PartPlan(d, a, data) == PartPlan(d, a, data);
  }

  /** Every complete run on a reliable chip stores the data and changes nothing
      else, whatever the buffer happens to hold. */
  ghost predicate SurelyStores(d: Device, st: Store, a: nat, data: seq<byte>)
    requires Addressable(d) && a + |data| <= |st.main|
  {
    forall buffer, run, st' ::
      |buffer| == d.size && Ran(d, Reliable, st.(buffer := buffer), WritePlan(d, a, data), true, run, st')
      ==> st'.main == Patch(st.main, a, data)
  }

  lemma StoresOtherwise(d: Device, st: Store, a: nat, data: seq<byte>, buffer: seq<byte>,
                        run: seq<Moment>, st': Store, i: nat)
    requires Addressable(d) && a + |data| <= |st.main| && |buffer| == d.size
    requires Ran(d, Reliable, st.(buffer := buffer), WritePlan(d, a, data), true, run, st')
    requires i < |st'.main| == |st.main| && st'.main[i] != Patch(st.main, a, data)[i]
    ensures !SurelyStores(d, st, a, data)
  {
    hide Ran, WritePlan, Patch;
  }

  /** Reporting success means that the data is stored exactly when the chip was
      at rest, or there was nothing to send: an empty write that starts at a
      page. */
  lemma StoresOnlyAtRest(d: Device, st: Store, a: nat, data: seq<byte>)
    requires Fits(d, st) && a + |data| <= Total(d)
    ensures SurelyStores(d, st, a, data) <==> st.busy == 0 || (data == [] && a % d.size == 0)
  {
    hide SurelyStores, Ran, WritePlan, Pow2, Limit;
    if st.busy == 0 {
      StoresAtRest(d, st, a, data);
    } else if a % d.size != 0 {
      BusyInsideFails(d, st, a, data);
    } else if |data| >= d.size {
      BusyWholeFails(d, st, a, data);
    } else if data != [] {
      BusyTailFails(d, st, a, data);
    } else {
      StoresNothing(d, st, a);
    }
  }

  lemma StoresAtRest(d: Device, st: Store, a: nat, data: seq<byte>)
    requires Fits(d, st) && a + |data| <= Total(d) && st.busy == 0
    ensures SurelyStores(d, st, a, data)
  {
    hide Ran, WritePlan, Patch, WrittenUpTo;
    forall buffer, run, st' |
      |buffer| == d.size && Ran(d, Reliable, st.(buffer := buffer), WritePlan(d, a, data), true, run, st')
      ensures st'.main == Patch(st.main, a, data)
    {
      var p := WriteEnds(d, Reliable, st.(buffer := buffer), a, data, true, run, st');
    }
  }

  lemma NothingToSend(d: Device, a: nat)
    requires Addressable(d) && a % d.size == 0
    ensures WritePlan(d, a, []) == []
  {
    hide Pow2, Limit;
  }

  lemma StoresNothing(d: Device, st: Store, a: nat)
    requires Fits(d, st) && a <= Total(d) && a % d.size == 0
    ensures SurelyStores(d, st, a, [])
  {
    hide Ran, WritePlan, Patch, Pow2, Limit;
    PatchNothing(st.main, a);
    NothingToSend(d, a);
    forall buffer, run, st' |
      |buffer| == d.size && Ran(d, Reliable, st.(buffer := buffer), WritePlan(d, a, []), true, run, st')
      ensures st'.main == Patch(st.main, a, [])
    {
      NothingRan(d, Reliable, st.(buffer := buffer), true, run, st');
    }
  }

  lemma BusyInsideFails(d: Device, st: Store, a: nat, data: seq<byte>)
    requires Fits(d, st) && a + |data| <= Total(d) && st.busy > 0 && a % d.size != 0
    ensures !SurelyStores(d, st, a, data)
  {
    hide SurelyStores, Ran, WritePlan, Pow2, Limit;
    DivMod(a, d.size);
    var buffer := Filled(d.size, Other(st.main[a - 1]));
    var run, st' := BusyInside(d, st.(buffer := buffer), a, a % d.size, data);
    RanFits(d, Reliable, st.(buffer := buffer), WritePlan(d, a, data), true, run, st');
    StoresOtherwise(d, st, a, data, buffer, run, st', a - 1);
  }

  lemma BusyWholeFails(d: Device, st: Store, a: nat, data: seq<byte>)
    requires Fits(d, st) && a + |data| <= Total(d) && st.busy > 0 && a % d.size == 0 && |data| >= d.size
    ensures !SurelyStores(d, st, a, data)
  {
    hide SurelyStores, Ran, WritePlan, Pow2, Limit;
    var buffer := Filled(d.size, Other(data[0]));
    var run, st' := BusyWhole(d, st.(buffer := buffer), a, data);
    RanFits(d, Reliable, st.(buffer := buffer), WritePlan(d, a, data), true, run, st');
    FirstOfPatch(st.main, a, data);
    StoresOtherwise(d, st, a, data, buffer, run, st', a);
  }

  lemma BusyTailFails(d: Device, st: Store, a: nat, data: seq<byte>)
    requires Fits(d, st) && a + |data| <= Total(d) && st.busy > 0 && a % d.size == 0 && 0 < |data| < d.size
    ensures !SurelyStores(d, st, a, data)
  {
    hide SurelyStores, Ran, WritePlan, Pow2, Limit;
    DivMod(a, d.size);
    DivBelow(a, d.size, d.pages);
    PageFits(d, a / d.size);
    var i := a + |data|;
    var buffer := Filled(d.size, Other(st.main[i]));
    var run, st' := BusyTail(d, st.(buffer := buffer), a, data);
    RanFits(d, Reliable, st.(buffer := buffer), WritePlan(d, a, data), true, run, st');
    StoresOtherwise(d, st, a, data, buffer, run, st', i);
  }

  // How a chip may come to be busy when a write starts.

  /** On a flaky chip the first command of a plan may time out, and leave the
      chip busy. */
  lemma FirstTimesOut(d: Device, st: Store, plan: seq<Op>) returns (run: seq<Moment>, st': Store)
    requires Fits(d, st) && plan != [] && OpFits(d, plan[0])
    ensures Ran(d, Flaky, st, plan, false, run, st') && run != [] && st'.busy > 0
  {
    hide Ran, Addressable;
    st' := st.(busy := 1);
    var m := Moment(st, Event(plan[0], st.busy > 0, false), st', []);
    RanOne(d, Flaky, m, false, st');
    RanStops(d, Flaky, st, [plan[0]], [m], st', plan[1..]);
    assert [plan[0]] + plan[1..] == plan;
    run := [m];
  }

  /** A write that timed out keeps the discipline of the chip, but may leave the
      chip busy, so that the next write breaks it. */
  lemma LaterWriteIsEarly(d: Device, st: Store, a: nat, data: seq<byte>, trace: seq<Event>)
    returns (run: seq<Moment>, mid: Store, again: seq<Moment>, st': Store)
    requires Fits(d, st) && st.busy == 0 && a + |data| <= Total(d) && Disciplined(d, trace)
    requires WritePlan(d, a, data) != []
    ensures Ran(d, Flaky, st, WritePlan(d, a, data), false, run, mid)
    ensures Ran(d, Flaky, mid, WritePlan(d, a, data), false, again, st')
    ensures Disciplined(d, trace + Events(run)) && !Disciplined(d, trace + Events(run) + Events(again))
  {
    hide Ran, WritePlan, Disciplined, Pow2, Limit;
    var plan := WritePlan(d, a, data);
    WritePlanFits(d, a, data);
    WritePlanHarmless(d, a, data);
    run, mid := FirstTimesOut(d, st, plan);
    RanFits(d, Flaky, st, plan, false, run, mid);
    RunDiscipline(d, Flaky, st, plan, false, run, mid, trace);
    again, st' := FirstTimesOut(d, mid, plan);
    RunDiscipline(d, Flaky, mid, plan, false, again, st', trace + Events(run));
  }
}
