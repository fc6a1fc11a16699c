/** What a run of the commands of a write makes of the flash: what it stores,
    where it may do damage, and when it keeps the discipline of the chip. */
module FlashWrites {
  import opened Arith
  import opened Bytes
  import opened Geometry
  import opened FlashChip
  import opened FlashTheory
  import opened FlashRuns

  // What one command does.

  /** A command that is not too early, succeeds and meets no worn cell does what
      it should. */
  lemma HappensClean(d: Device, health: Health, m: Moment)
    requires Happens(d, health, m) && m.before.busy == 0 && m.event.ok && health != Worn
    ensures m.after.main == MainAfter(d, m.before, m.event.op) && m.after.buffer == BufferAfter(d, m.before, m.event.op)
  {
    hide MainAfter, BufferAfter, SameOutside;
  }

  lemma PageOnly(d: Device, st: Store, op: Op)
    requires Fits(d, st) && Programs(op) && op.page < d.pages
    ensures SameOutside(d, st.main, MainAfter(d, st, op), op.page)
  {
    hide Patch, Filled, Merge, Page;
    match op
    case Erase(p) => ForeignPage(d, st.main, p, Filled(d.size, 0xFF));
    case Program(p) => ForeignPage(d, st.main, p, Merge(Page(d, st.main, p), st.buffer));
    case EraseProgram(p) => ForeignPage(d, st.main, p, st.buffer);
  }

  /** Whatever happens, a command changes its page only. */
  lemma HappensInPage(d: Device, health: Health, m: Moment)
    requires Happens(d, health, m)
    ensures if Programs(m.event.op) then SameOutside(d, m.before.main, m.after.main, m.event.op.page)
            else m.after.main == m.before.main
  {
    hide MainAfter, BufferAfter, SameOutside;
    var op := m.event.op;
    assert Programs(op) ==> SameOutside(d, m.before.main, m.before.main, op.page) by {
      if Programs(op) {
        SameOutsideSelf(d, m.before.main, op.page);
      }
    }
    if Programs(op) {
      PageOnly(d, m.before, op);
    } else {
      OtherOpsKeepMain(d, m.before, op);
    }
  }

  lemma SameOutsideSelf(d: Device, main: seq<byte>, page: nat)
    ensures SameOutside(d, main, main, page)
  {
  }

  lemma OtherOpsKeepMain(d: Device, st: Store, op: Op)
    requires Fits(d, st) && OpFits(d, op) && !Programs(op)
    ensures MainAfter(d, st, op) == st.main
  {
  }

  // Where a run may change the flash.

  ghost predicate SameBut(main: seq<byte>, now: seq<byte>, lo: int, hi: int) {
    |now| == |main| && forall i :: 0 <= i < |main| && !(lo <= i < hi) ==> now[i] == main[i]
  }

  /** Only pages between lo and hi are programmed. */
  ghost predicate StaysIn(d: Device, plan: seq<Op>, lo: int, hi: int) {
    forall i :: 0 <= i < |plan| && Programs(plan[i]) ==>
      lo <= plan[i].page * d.size && plan[i].page * d.size + d.size <= hi
  }

  lemma StepStaysIn(d: Device, health: Health, m: Moment, main: seq<byte>, lo: int, hi: int)
    requires Happens(d, health, m) && SameBut(main, m.before.main, lo, hi)
    requires Programs(m.event.op) ==> lo <= m.event.op.page * d.size && m.event.op.page * d.size + d.size <= hi
    ensures SameBut(main, m.after.main, lo, hi)
  {
    HappensInPage(d, health, m);
  }

  lemma {:induction false} RunUpTo(d: Device, health: Health, st: Store, plan: seq<Op>, ok: bool, run: seq<Moment>,
                                   st': Store, lo: int, hi: int, k: nat)
    requires Ran(d, health, st, plan, ok, run, st') && StaysIn(d, plan, lo, hi) && k < |run|
    ensures SameBut(st.main, run[k].after.main, lo, hi)
    decreases k
  {
    hide Happens, SameBut, Fits;
    if k > 0 {
      RunUpTo(d, health, st, plan, ok, run, st', lo, hi, k - 1);
      assert Follows(run[k - 1], run[k]);
    } else {
      assert SameBut(st.main, st.main, lo, hi) by { SameButSelf(st.main, lo, hi); }
    }
    StepStaysIn(d, health, run[k], st.main, lo, hi);
  }

  lemma SameButSelf(main: seq<byte>, lo: int, hi: int)
    ensures SameBut(main, main, lo, hi)
  {
  }

  lemma RunStaysIn(d: Device, health: Health, st: Store, plan: seq<Op>, ok: bool, run: seq<Moment>, st': Store,
                   lo: int, hi: int)
    requires Ran(d, health, st, plan, ok, run, st') && StaysIn(d, plan, lo, hi)
    ensures SameBut(st.main, st'.main, lo, hi)
  {
    hide Happens, SameBut, Fits;
    if run == [] {
      SameButSelf(st.main, lo, hi);
    } else {
      RunUpTo(d, health, st, plan, ok, run, st', lo, hi, |run| - 1);
    }
  }

  /** The end of the last page before b. */
  function PageEnd(d: Device, b: nat): (e: nat)
    requires d.size >= 1
    ensures b <= e < b + d.size
  {
    DivMod(b + d.size - 1, d.size);
    (b + d.size - 1) / d.size * d.size
  }

  /** Nothing changed but the pages that hold count bytes at a. */
  ghost predicate Confined(d: Device, main: seq<byte>, now: seq<byte>, a: nat, count: nat)
    requires d.size >= 1
  {
    SameBut(main, now, PageBase(d, a), PageEnd(d, a + count))
  }

  lemma PageNotBefore(size: nat, p: nat, a: nat)
    requires a * size < p * size + size
    ensures a * size <= p * size
  {
    assert (p + 1) * size == p * size + size;
    if p < a {
      Monotone(p + 1, a, size);
      assert false;
    }
    Monotone(a, p, size);
  }

  lemma PageNotBehind(size: nat, p: nat, b: nat)
    requires p * size < b * size
    ensures p * size + size <= b * size
  {
    assert (p + 1) * size == p * size + size;
    if b <= p {
      Monotone(b, p, size);
      assert false;
    }
    Monotone(p + 1, b, size);
  }

  /** A page on the way of a write lies within the pages that hold it. */
  lemma OnTheWayIsInside(d: Device, p: nat, a: nat, count: nat)
    requires d.size >= 1 && OnTheWay(d, p, a, count)
    ensures PageBase(d, a) <= p * d.size && p * d.size + d.size <= PageEnd(d, a + count)
  {
    DivMod(a, d.size);
    DivMod(a + count + d.size - 1, d.size);
    PageNotBefore(d.size, p, a / d.size);
    PageNotBehind(d.size, p, (a + count + d.size - 1) / d.size);
  }

  /** Page p is one of those that a write goes through. */
  ghost predicate OnTheWay(d: Device, p: nat, dest: nat, count: nat) {
    p * d.size < dest + count && dest < p * d.size + d.size
  }

  // The commands of a write, inside the device.

  lemma PageStart(d: Device, page: nat)
    requires d.size >= 1 && page < d.pages
    ensures 0 <= page * d.size < Total(d) && page * d.size / d.size == page && page * d.size % d.size == 0
  {
    PageFits(d, page);
    DivModUnique(page * d.size, d.size, page, 0);
  }

  lemma SentToPage(d: Device, opcode: byte, p: nat, a: nat)
    requires Addressable(d) && p < d.pages && a == p * d.size
    ensures Sent(d, opcode, a, 0) == PageOp(opcode, p, a, 0)
  {
    hide PageOp, Pow2, Limit, Sent;
    PageStart(d, p);
    SentInside(d, opcode, a, 0);
  }

  lemma PartPlanIs(d: Device, a: nat, data: seq<byte>, p: int)
    requires Addressable(d) && a < Total(d) && p == a / d.size
    ensures 0 <= p < d.pages && p * d.size == PageBase(d, a) && 0 <= a % d.size == a - p * d.size
    ensures PartPlan(d, a, data) ==
      [Fetch(p), BufferWrite(a % d.size, data)] + (if d.pages >= LARGE then [Erase(p)] else []) + [EraseProgram(p)]
  {
    hide Sent, Pow2, Limit;
    DivMod(a, d.size);
    DivBelow(a, d.size, d.pages);
    var base := PageBase(d, a);
    SentToPage(d, DB_PAGE_2_BUF1_TRF, p, base);
    SentToPage(d, DB_PAGE_ERASE, p, base);
    SentToPage(d, DB_BUF1_PAGE_ERASE_PGM, p, base);
  }

  lemma WholePlanIs(d: Device, a: nat, data: seq<byte>, p: int)
    requires Addressable(d) && a < Total(d) && p == a / d.size && a % d.size == 0
    ensures 0 <= p < d.pages && p * d.size == a
    ensures WholePlan(d, a, data) == [BufferWrite(0, data), Erase(p), Program(p)]
  {
    hide Sent, Pow2, Limit;
    DivMod(a, d.size);
    DivBelow(a, d.size, d.pages);
    var base := PageBase(d, a);
    SentToPage(d, DB_PAGE_ERASE, p, base);
    SentToPage(d, DB_BUF1_PAGE_PGM, p, base);
  }

  ghost predicate PlanOnTheWay(d: Device, plan: seq<Op>, a: nat, count: nat) {
    forall i :: 0 <= i < |plan| && Programs(plan[i]) ==> OnTheWay(d, plan[i].page, a, count)
  }

  /** Buffer writes stay in the page, and programming without erase directly
      follows an erase of the same page. */
  ghost predicate ProperPlan(d: Device, plan: seq<Op>) {
    forall i :: 0 <= i < |plan| ==> ProperAt(d, plan, i)
  }

  ghost predicate ProperAt(d: Device, plan: seq<Op>, i: nat)
    requires i < |plan|
  {
    match plan[i]
    case BufferWrite(at, data) => at + |data| <= d.size
    case Program(p) => i > 0 && plan[i - 1] == Erase(p)
    case Ignored => false
    case _ => true
  }

  lemma PlanThen(d: Device, p: seq<Op>, a: nat, n: nat, q: seq<Op>, b: nat, m: nat, count: nat)
    requires PlanOnTheWay(d, p, a, n) && PlanOnTheWay(d, q, b, m) && ProperPlan(d, p) && ProperPlan(d, q)
    requires n <= count && a <= b && b + m <= a + count
    ensures PlanOnTheWay(d, p + q, a, count) && ProperPlan(d, p + q)
  {
    var r := p + q;
    forall i | 0 <= i < |r| && Programs(r[i])
      ensures OnTheWay(d, r[i].page, a, count)
    {
      if i < |p| {
        assert OnTheWay(d, p[i].page, a, n);
      } else {
        assert OnTheWay(d, q[i - |p|].page, b, m);
      }
    }
    forall i | 0 <= i < |r|
      ensures ProperAt(d, r, i)
    {
      assert if i < |p| then ProperAt(d, p, i) else ProperAt(d, q, i - |p|);
    }
  }

  lemma PartPlanFits(d: Device, a: nat, data: seq<byte>)
    requires Addressable(d) && a < Total(d) && a % d.size + |data| <= d.size && (data != [] || a % d.size != 0)
    ensures PlanOnTheWay(d, PartPlan(d, a, data), a, |data|) && ProperPlan(d, PartPlan(d, a, data))
  {
    hide Addressable, PartPlan;
    PartPlanIs(d, a, data, a / d.size);
  }

  lemma WholePlanFits(d: Device, a: nat, data: seq<byte>)
    requires Addressable(d) && a < Total(d) && a % d.size == 0 && |data| == d.size
    ensures PlanOnTheWay(d, WholePlan(d, a, data), a, |data|) && ProperPlan(d, WholePlan(d, a, data))
  {
    hide WholePlan;
    WholePlanIs(d, a, data, a / d.size);
  }

  lemma {:induction false} RestPlanFits(d: Device, a: nat, data: seq<byte>)
    requires Addressable(d) && a + |data| <= Total(d) && (data == [] || a % d.size == 0)
    ensures PlanOnTheWay(d, RestPlan(d, a, data), a, |data|) && ProperPlan(d, RestPlan(d, a, data))
    decreases |data|
  {
    hide WholePlan, PartPlan, PlanOnTheWay, ProperPlan, Pow2, Limit;
    if |data| >= d.size {
      ModStep(a, d.size);
      WholePlanFits(d, a, data[..d.size]);
      RestPlanFits(d, a + d.size, data[d.size..]);
      PlanThen(d, WholePlan(d, a, data[..d.size]), a, d.size,
               RestPlan(d, a + d.size, data[d.size..]), a + d.size, |data| - d.size, |data|);
    } else if data != [] {
      PartPlanFits(d, a, data);
    } else {
      EmptyPlan(d, a, 0);
    }
  }

  lemma EmptyPlan(d: Device, a: nat, count: nat)
    ensures PlanOnTheWay(d, [], a, count) && ProperPlan(d, [])
  {
  }

  /** An address inside a page is not the end of the memory. */
  lemma NotAtEnd(d: Device, a: nat)
    requires d.size >= 1 && a <= Total(d) && a % d.size != 0
    ensures a < Total(d)
  {
    if a == Total(d) {
      DivModUnique(a, d.size, d.pages, 0);
      assert false;
    }
  }

  /** The head ends at a page boundary, or everything was in it. */
  lemma HeadEnds(d: Device, a: nat, count: nat)
    requires d.size >= 1
    ensures var n := HeadLength(d, a, count); n == count || (a + n) % d.size == 0
  {
    DivMod(a, d.size);
    var n := HeadLength(d, a, count);
    if n < count && a % d.size != 0 {
      assert a + n == (a / d.size + 1) * d.size;
      DivModUnique(a + n, d.size, a / d.size + 1, 0);
    }
  }

  /** The commands of a write go through its pages only, and keep the rules of
      the chip. */
  lemma WritePlanFits(d: Device, a: nat, data: seq<byte>)
    requires Addressable(d) && a + |data| <= Total(d)
    ensures PlanOnTheWay(d, WritePlan(d, a, data), a, |data|) && ProperPlan(d, WritePlan(d, a, data))
  {
    hide RestPlan, PartPlan, PlanOnTheWay, ProperPlan, Pow2, Limit;
    var n := HeadLength(d, a, |data|);
    HeadEnds(d, a, |data|);
    RestPlanFits(d, a + n, data[n..]);
    if a % d.size == 0 {
      EmptyPlan(d, a, n);
    } else {
      NotAtEnd(d, a);
      PartPlanFits(d, a, data[..n]);
    }
    PlanThen(d, HeadPlan(d, a, data), a, n, RestPlan(d, a + n, data[n..]), a + n, |data| - n, |data|);
  }

  /** Hence whatever the chip does, a write changes nothing but its pages. */
  lemma WriteIsConfined(d: Device, health: Health, st: Store, a: nat, data: seq<byte>, ok: bool, run: seq<Moment>,
                        st': Store)
    requires Addressable(d) && a + |data| <= Total(d)
    ensures Ran(d, health, st, WritePlan(d, a, data), ok, run, st') ==> Confined(d, st.main, st'.main, a, |data|)
  {
    hide WritePlan, Ran, SameBut, OnTheWay, Pow2, Limit;
    if !Ran(d, health, st, WritePlan(d, a, data), ok, run, st') {
      return;
    }
    var plan := WritePlan(d, a, data);
    WritePlanFits(d, a, data);
    forall i | 0 <= i < |plan| && Programs(plan[i])
      ensures PageBase(d, a) <= plan[i].page * d.size && plan[i].page * d.size + d.size <= PageEnd(d, a + |data|)
    {
      OnTheWayIsInside(d, plan[i].page, a, |data|);
    }
    RunStaysIn(d, health, st, plan, ok, run, st', PageBase(d, a), PageEnd(d, a + |data|));
  }

  // The discipline of the chip.

  lemma EventOfRun(d: Device, health: Health, st: Store, plan: seq<Op>, ok: bool, run: seq<Moment>, st': Store, i: nat)
    requires Ran(d, health, st, plan, ok, run, st') && i < |run|
    ensures run[i].event.op == plan[i] && run[i].event.early == (i == 0 && st.busy > 0)
    ensures i + 1 < |run| ==> run[i].event.ok
  {
    hide Outcome, Fits;
    if i > 0 {
      assert Follows(run[i - 1], run[i]);
    }
    if i + 1 < |run| {
      assert Follows(run[i], run[i + 1]);
    }
  }

  /** A run keeps the discipline exactly when its first command does not come
      while the chip is busy. */
  lemma RunDiscipline(d: Device, health: Health, st: Store, plan: seq<Op>, ok: bool, run: seq<Moment>, st': Store,
                      trace: seq<Event>)
    ensures Ran(d, health, st, plan, ok, run, st') && ProperPlan(d, plan) && Disciplined(d, trace) ==>
      (Disciplined(d, trace + Events(run)) <==> run == [] || st.busy == 0)
  {
    hide Ran;
    if !Ran(d, health, st, plan, ok, run, st') || !ProperPlan(d, plan) || !Disciplined(d, trace) {
      return;
    }
    var t := trace + Events(run);
    assert |run| <= |plan| by { RunIsShort(d, health, st, plan, ok, run, st'); }
    if run == [] || st.busy == 0 {
      forall j | 0 <= j < |t|
        ensures Proper(d, t, j)
      {
        if j < |trace| {
          assert Proper(d, trace, j);
        } else {
          var i := j - |trace|;
          assert ProperAt(d, plan, i);
          EventOfRun(d, health, st, plan, ok, run, st', i);
          if i > 0 {
            EventOfRun(d, health, st, plan, ok, run, st', i - 1);
          }
        }
      }
    } else {
      EventOfRun(d, health, st, plan, ok, run, st', 0);
      assert !Proper(d, t, |trace|);
    }
  }

  lemma RunIsShort(d: Device, health: Health, st: Store, plan: seq<Op>, ok: bool, run: seq<Moment>, st': Store)
    requires Ran(d, health, st, plan, ok, run, st')
    ensures |run| <= |plan|
  {
  }

  // What complete runs store.

  /** On a chip that is at rest and not worn, command k of a complete run does
      what it should, to what the one before it left. */
  lemma CleanAt(d: Device, health: Health, st: Store, plan: seq<Op>, run: seq<Moment>, st': Store, k: nat)
    requires Ran(d, health, st, plan, true, run, st') && st.busy == 0 && health != Worn && k < |plan|
    ensures |run| == |plan| && Fits(d, run[k].before) && OpFits(d, plan[k])
    ensures run[k].after.main == MainAfter(d, run[k].before, plan[k])
    ensures run[k].after.buffer == BufferAfter(d, run[k].before, plan[k])
    ensures SameCells(run[k].before, if k == 0 then st else run[k - 1].after)
    ensures k + 1 == |plan| ==> SameCells(st', run[k].after) && st'.busy == 0
  {
    hide Outcome, MainAfter, BufferAfter;
    if k > 0 {
      assert Follows(run[k - 1], run[k]);
    }
    if k + 1 < |run| {
      assert Follows(run[k], run[k + 1]);
    }
    HappensClean(d, health, run[k]);
  }

  /** The buffer with a page of which a part was changed. */
  lemma StagedPage(d: Device, main: seq<byte>, p: nat, at: nat, data: seq<byte>)
    requires |main| == Total(d) && p < d.pages && at + |data| <= d.size
    ensures WrapStore(Page(d, main, p), at, data) == Patch(Page(d, main, p), at, data)
  {
    WrapStoreInside(Page(d, main, p), at, data);
  }

  /** Rewriting a page undoes an erase of it. */
  lemma RewriteErased(d: Device, main: seq<byte>, p: nat, data: seq<byte>)
    requires |main| == Total(d) && p < d.pages && |data| == d.size
    ensures WithPage(d, WithPage(d, main, p, Filled(d.size, 0xFF)), p, data) == WithPage(d, main, p, data)
  {
    hide Filled, Patch;
    PageFits(d, p);
    PatchTwice(main, p * d.size, Filled(d.size, 0xFF), data);
  }

  /** Fetch, change and rewrite: the part is stored. */
  lemma PartDone(d: Device, health: Health, st: Store, a: nat, data: seq<byte>, run: seq<Moment>, st': Store)
    requires Addressable(d) && a < Total(d) && a % d.size + |data| <= d.size
    ensures Ran(d, health, st, PartPlan(d, a, data), true, run, st') && st.busy == 0 && health != Worn ==>
      a + |data| <= |st.main| && st'.main == Patch(st.main, a, data) && st'.busy == 0
  {
    hide Ran, PartPlan, Patch, Page, WithPage, Filled, WrapStore, Addressable;
    if !Ran(d, health, st, PartPlan(d, a, data), true, run, st') || st.busy != 0 || health == Worn {
      return;
    }
    var plan, at, p: int := PartPlan(d, a, data), a % d.size, a / d.size;
    PartPlanIs(d, a, data, p);
    CleanAt(d, health, st, plan, run, st', 0);
    CleanAt(d, health, st, plan, run, st', 1);
    CleanAt(d, health, st, plan, run, st', 2);
    StagedPage(d, st.main, p, at, data);
    var staged := Patch(Page(d, st.main, p), at, data);
    assert run[1].after.buffer == staged;
    if d.pages >= LARGE {
      CleanAt(d, health, st, plan, run, st', 3);
      RewriteErased(d, st.main, p, staged);
    }
    ReadModifyWrite(d, st.main, p, at, data);
  }

  lemma PatchAll(s: seq<byte>, data: seq<byte>)
    requires |s| == |data|
    ensures Patch(s, 0, data) == data
  {
  }

  /** Fill the buffer, erase and program: the page is stored. */
  lemma WholeDone(d: Device, health: Health, st: Store, a: nat, data: seq<byte>, run: seq<Moment>, st': Store)
    requires Addressable(d) && a < Total(d) && a % d.size == 0 && |data| == d.size
    ensures Ran(d, health, st, WholePlan(d, a, data), true, run, st') && st.busy == 0 && health != Worn ==>
      a + |data| <= |st.main| && st'.main == Patch(st.main, a, data) && st'.busy == 0
  {
    hide Ran, WholePlan, Patch, Page, WithPage, Filled, WrapStore, Merge, Addressable;
    if !Ran(d, health, st, WholePlan(d, a, data), true, run, st') || st.busy != 0 || health == Worn {
      return;
    }
    var plan, p: int := WholePlan(d, a, data), a / d.size;
    WholePlanIs(d, a, data, p);
    PageFits(d, p);
    CleanAt(d, health, st, plan, run, st', 0);
    CleanAt(d, health, st, plan, run, st', 1);
    CleanAt(d, health, st, plan, run, st', 2);
    WrapStoreInside(st.buffer, 0, data);
    PatchAll(st.buffer, data);
    assert run[0].after.buffer == data;
    ErasedThenProgrammed(d, st.main, p, data);
  }

  lemma ErasedThenProgrammed(d: Device, main: seq<byte>, p: nat, data: seq<byte>)
    requires |main| == Total(d) && p < d.pages && |data| == d.size
    ensures p * d.size + d.size <= |main|
    ensures var erased := WithPage(d, main, p, Filled(d.size, 0xFF));
            WithPage(d, erased, p, Merge(Page(d, erased, p), data)) == Patch(main, p * d.size, data)
  {
    hide Filled, Merge, Patch;
    PageFits(d, p);
    SliceOfPatch(main, p * d.size, Filled(d.size, 0xFF));
    MergeErased(data);
    PatchTwice(main, p * d.size, Filled(d.size, 0xFF), data);
  }

  // Runs of a whole write.

  /** The chip between the runs of two plans. */
  ghost function Between(st: Store, p: seq<Op>, run: seq<Moment>, st': Store): Store {
    if p == [] then st else if |run| > |p| then run[|p|].before else st'
  }

  lemma RanFirst(d: Device, health: Health, st: Store, p: seq<Op>, q: seq<Op>, ok: bool, run: seq<Moment>, st': Store)
    requires Ran(d, health, st, p + q, ok, run, st') && (ok || |run| > |p|)
    ensures |run| >= |p| && Ran(d, health, st, p, true, run[..|p|], Between(st, p, run, st'))
  {
    hide Happens, Fits;
    var a := run[..|p|];
    if |run| > |p| {
      HappensFits(d, health, run[|p|]);
      if p != [] {
        assert Follows(run[|p| - 1], run[|p|]);
      }
    }
    forall i | 0 <= i < |a| - 1
      ensures Follows(a[i], a[i + 1])
    {
      assert Follows(run[i], run[i + 1]);
    }
  }

  lemma RanSecond(d: Device, health: Health, st: Store, p: seq<Op>, q: seq<Op>, ok: bool, run: seq<Moment>, st': Store)
    requires Ran(d, health, st, p + q, ok, run, st') && (ok || |run| > |p|)
    ensures |run| >= |p| && Ran(d, health, Between(st, p, run, st'), q, ok, run[|p|..], st')
  {
    hide Happens, Fits, Follows, SameCells;
    var b := run[|p|..];
    if |run| == |p| {
      assert q == [] && b == [];
      return;
    }
    HappensFits(d, health, run[|p|]);
    forall i | 0 <= i < |b|
      ensures Happens(d, health, b[i]) && b[i].event.op == q[i]
    {
      assert b[i] == run[|p| + i] && (p + q)[|p| + i] == q[i];
    }
    forall i | 0 <= i < |b| - 1
      ensures Follows(b[i], b[i + 1])
    {
      assert b[i] == run[|p| + i] && b[i + 1] == run[|p| + i + 1];
    }
  }

  lemma RanShort(d: Device, health: Health, st: Store, p: seq<Op>, q: seq<Op>, run: seq<Moment>, st': Store)
    requires Ran(d, health, st, p + q, false, run, st') && |run| <= |p|
    ensures Ran(d, health, st, p, false, run, st')
  {
    hide Happens, Fits;
  }

  /** A run of two plans is a run of the first that stopped, or runs of both. */
  lemma RanSplit(d: Device, health: Health, st: Store, p: seq<Op>, q: seq<Op>, ok: bool, run: seq<Moment>, st': Store)
    returns (mid: Store)
    requires Ran(d, health, st, p + q, ok, run, st')
    ensures if !ok && |run| <= |p| then Ran(d, health, st, p, false, run, st')
            else
              |run| >= |p| && Ran(d, health, st, p, true, run[..|p|], mid)
              && Ran(d, health, mid, q, ok, run[|p|..], st')
  {
    hide Ran, Between;
    mid := Between(st, p, run, st');
    if !ok && |run| <= |p| {
      RanShort(d, health, st, p, q, run, st');
    } else {
      RanFirst(d, health, st, p, q, ok, run, st');
      RanSecond(d, health, st, p, q, ok, run, st');
    }
  }

  /** A write that stopped at page p: the pages before it are written, those
      behind it are untouched. */
  ghost predicate WrittenUpTo(d: Device, old_: seq<byte>, target: seq<byte>, now: seq<byte>, p: nat) {
    |old_| == |target| == |now| &&
    (forall i :: 0 <= i < |now| && i < p * d.size ==> now[i] == target[i]) &&
    (forall i :: 0 <= i < |now| && p * d.size + d.size <= i ==> now[i] == old_[i])
  }

  lemma StoppedInPage(d: Device, main: seq<byte>, a: nat, data: seq<byte>, now: seq<byte>, p: nat)
    requires a + |data| <= |main| && p * d.size <= a && SameBut(main, now, p * d.size, p * d.size + d.size)
    ensures WrittenUpTo(d, main, Patch(main, a, data), now, p)
  {
  }

  lemma StoppedLater(d: Device, main: seq<byte>, a: nat, data: seq<byte>, n: nat, now: seq<byte>, p: nat)
    requires n <= |data| && a + |data| <= |main| && a + n < p * d.size + d.size
    requires WrittenUpTo(d, Patch(main, a, data[..n]), Patch(Patch(main, a, data[..n]), a + n, data[n..]), now, p)
    ensures WrittenUpTo(d, main, Patch(main, a, data), now, p)
  {
    hide Patch;
    PatchJoin(main, a, data[..n], data[n..]);
    assert data[..n] + data[n..] == data;
    PatchKeepsBehind(main, a, data[..n], p * d.size + d.size);
  }

  lemma PatchKeepsBehind(main: seq<byte>, a: nat, data: seq<byte>, from: nat)
    requires a + |data| <= |main| && a + |data| <= from
    ensures forall i :: from <= i < |main| ==> Patch(main, a, data)[i] == main[i]
  {
  }

  /** How a run of a write may end, from a chip at rest that is not worn. */
  ghost predicate Ended(d: Device, main: seq<byte>, a: nat, data: seq<byte>, ok: bool, now: seq<byte>, p: nat) {
    a + |data| <= |main| &&
    if ok then now == Patch(main, a, data)
    else WrittenUpTo(d, main, Patch(main, a, data), now, p) && OnTheWay(d, p, a, |data|)
  }

  lemma EndedLater(d: Device, main: seq<byte>, a: nat, data: seq<byte>, n: nat, ok: bool, now: seq<byte>, p: nat)
    requires n <= |data| && a + |data| <= |main|
    requires Ended(d, Patch(main, a, data[..n]), a + n, data[n..], ok, now, p)
    ensures Ended(d, main, a, data, ok, now, p)
  {
    hide Patch, WrittenUpTo;
    PatchJoin(main, a, data[..n], data[n..]);
    assert data[..n] + data[n..] == data;
    if !ok {
      StoppedLater(d, main, a, data, n, now, p);
    }
  }

  /** What one chunk of a write, inside a page, may do. */
  lemma ChunkEnds(d: Device, health: Health, st: Store, whole: bool, a: nat, data: seq<byte>,
                  ok: bool, run: seq<Moment>, st': Store) returns (p: nat)
    requires Addressable(d) && a < Total(d) && a % d.size + |data| <= d.size && (data != [] || a % d.size != 0)
    requires whole ==> a % d.size == 0 && |data| == d.size
    requires Ran(d, health, st, if whole then WholePlan(d, a, data) else PartPlan(d, a, data), ok, run, st')
    requires st.busy == 0 && health != Worn
    ensures Ended(d, st.main, a, data, ok, st'.main, p) && (ok ==> st'.busy == 0) && p * d.size <= a
  {
    hide Ran, WholePlan, PartPlan, Patch, WrittenUpTo, SameBut, Addressable;
    PartPlanIs(d, a, data, a / d.size);
    p := a / d.size;
    PageFits(d, p);
    RanFits(d, health, st, if whole then WholePlan(d, a, data) else PartPlan(d, a, data), ok, run, st');
    if whole {
      WholePlanIs(d, a, data, p);
    }
    if ok {
      if whole {
        WholeDone(d, health, st, a, data, run, st');
      } else {
        PartDone(d, health, st, a, data, run, st');
      }
    } else {
      var plan := if whole then WholePlan(d, a, data) else PartPlan(d, a, data);
      assert StaysIn(d, plan, p * d.size, p * d.size + d.size);
      RunStaysIn(d, health, st, plan, ok, run, st', p * d.size, p * d.size + d.size);
      StoppedInPage(d, st.main, a, data, st'.main, p);
    }
  }

  lemma RanFits(d: Device, health: Health, st: Store, plan: seq<Op>, ok: bool, run: seq<Moment>, st': Store)
    requires Ran(d, health, st, plan, ok, run, st')
    ensures Fits(d, st) && Fits(d, st') && |st.main| == |st'.main| == Total(d)
  {
    hide Happens;
  }

  lemma {:induction false} RestEnds(d: Device, health: Health, st: Store, a: nat, data: seq<byte>,
                                    ok: bool, run: seq<Moment>, st': Store) returns (p: nat)
    requires Addressable(d) && a + |data| <= Total(d) && (data == [] || a % d.size == 0)
    requires Ran(d, health, st, RestPlan(d, a, data), ok, run, st') && st.busy == 0 && health != Worn
    ensures Ended(d, st.main, a, data, ok, st'.main, p) && (ok ==> st'.busy == 0)
    decreases |data|
  {
    hide Ran, WholePlan, PartPlan, Ended, Pow2, Limit, Fits;
    RanFits(d, health, st, RestPlan(d, a, data), ok, run, st');
    p := 0;
    if |data| >= d.size {
      var now, rest := data[..d.size], data[d.size..];
      ModStep(a, d.size);
      var mid := RanSplit(d, health, st, WholePlan(d, a, now), RestPlan(d, a + d.size, rest), ok, run, st');
      if !ok && |run| <= |WholePlan(d, a, now)| {
        p := ChunkEnds(d, health, st, true, a, now, false, run, st');
        EndedEarlier(d, st.main, a, data, d.size, st'.main, p);
      } else {
        p := ChunkEnds(d, health, st, true, a, now, true, run[..|WholePlan(d, a, now)|], mid);
        var more := RestEnds(d, health, mid, a + d.size, rest, ok, run[|WholePlan(d, a, now)|..], st');
        WholeIsPatch(d, st.main, a, now, mid.main, p);
        EndedLater(d, st.main, a, data, d.size, ok, st'.main, more);
        p := more;
      }
    } else if data != [] {
      p := ChunkEnds(d, health, st, false, a, data, ok, run, st');
    } else {
      NothingRan(d, health, st, ok, run, st');
      NothingEnded(d, st.main, a);
    }
  }

  lemma WholeIsPatch(d: Device, main: seq<byte>, a: nat, data: seq<byte>, now: seq<byte>, p: nat)
    requires Ended(d, main, a, data, true, now, p)
    ensures a + |data| <= |main| && now == Patch(main, a, data)
  {
  }

  lemma EndedEarlier(d: Device, main: seq<byte>, a: nat, data: seq<byte>, n: nat, now: seq<byte>, p: nat)
    requires n <= |data| && a + |data| <= |main| && Ended(d, main, a, data[..n], false, now, p)
    requires p * d.size <= a
    ensures Ended(d, main, a, data, false, now, p)
  {
  }

  lemma NothingRan(d: Device, health: Health, st: Store, ok: bool, run: seq<Moment>, st': Store)
    requires Ran(d, health, st, [], ok, run, st')
    ensures ok && st' == st
  {
  }

  lemma NothingEnded(d: Device, main: seq<byte>, a: nat)
    requires a <= |main|
    ensures Ended(d, main, a, [], true, main, 0)
  {
    PatchNothing(main, a);
  }

  /** A write to a chip that is at rest and not worn: when it runs to its end the
      data is in the flash, and nothing else changed; when it stops, the pages
      before some page of the write are written, and those behind it are as
      before. */
  lemma WriteEnds(d: Device, health: Health, st: Store, a: nat, data: seq<byte>, ok: bool, run: seq<Moment>, st': Store)
    returns (p: nat)
    requires Addressable(d) && a + |data| <= Total(d)
    requires Ran(d, health, st, WritePlan(d, a, data), ok, run, st') && st.busy == 0 && health != Worn
    ensures Ended(d, st.main, a, data, ok, st'.main, p) && (ok ==> st'.busy == 0)
  {
    hide Ran, PartPlan, RestPlan, Ended, Pow2, Limit, Fits;
    RanFits(d, health, st, WritePlan(d, a, data), ok, run, st');
    var n := HeadLength(d, a, |data|);
    HeadEnds(d, a, |data|);
    var now, rest := data[..n], data[n..];
    if a % d.size == 0 {
      assert [] + RestPlan(d, a, data) == RestPlan(d, a, data) && rest == data;
      p := RestEnds(d, health, st, a, data, ok, run, st');
    } else {
      NotAtEnd(d, a);
      var mid := RanSplit(d, health, st, PartPlan(d, a, now), RestPlan(d, a + n, rest), ok, run, st');
      if !ok && |run| <= |PartPlan(d, a, now)| {
        p := ChunkEnds(d, health, st, false, a, now, false, run, st');
        EndedEarlier(d, st.main, a, data, n, st'.main, p);
      } else {
        p := ChunkEnds(d, health, st, false, a, now, true, run[..|PartPlan(d, a, now)|], mid);
        var more := RestEnds(d, health, mid, a + n, rest, ok, run[|PartPlan(d, a, now)|..], st');
        WholeIsPatch(d, st.main, a, now, mid.main, p);
        EndedLater(d, st.main, a, data, n, ok, st'.main, more);
        p := more;
      }
    }
  }
}
