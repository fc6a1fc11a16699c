/** What the chip may make of a write when a command fails: runs that exist, and
    so the exact limits of what can be promised. */
module FlashFaults {
  import opened Arith
  import opened Bytes
  import opened Geometry
  import opened FlashChip
  import opened FlashRuns
  import opened FlashWrites

  // Runs that exist.

  /** A chip at rest can carry out any commands that do not read. */
  lemma {:induction false} CompleteRun(d: Device, health: Health, st: Store, plan: seq<Op>)
    returns (run: seq<Moment>, st': Store)
    requires Fits(d, st) && st.busy == 0 && health != Worn
    requires forall op :: op in plan ==> OpFits(d, op) && !op.ReadArray?
    ensures Ran(d, health, st, plan, true, run, st') && st'.busy == 0
    decreases |plan|
  {
    hide MainAfter, BufferAfter;
    if plan == [] {
      run, st' := [], st;
    } else {
      var op := plan[0];
      var next := Store(MainAfter(d, st, op), BufferAfter(d, st, op), 0);
      var m := Moment(st, Event(op, false, true), next, []);
      var more;
      more, st' := CompleteRun(d, health, next, plan[1..]);
      RanOne(d, health, m, true, next);
      RanThen(d, health, st, [op], [m], next, plan[1..], true, more, st');
      run := [m] + more;
      assert [op] + plan[1..] == plan;
    }
  }

  /** On a flaky chip, command k may be the one that fails, and then its page may
      hold anything. */
  lemma FailingRun(d: Device, st: Store, plan: seq<Op>, k: nat, i: nat, b: byte) returns (run: seq<Moment>, st': Store)
    requires Fits(d, st) && st.busy == 0 && k < |plan| && Programs(plan[k]) && i < |st.main|
    requires forall op :: op in plan ==> OpFits(d, op) && !op.ReadArray?
    requires plan[k].page * d.size <= i < plan[k].page * d.size + d.size
    ensures Ran(d, Flaky, st, plan, false, run, st') && i < |st'.main| && st'.main[i] == b
  {
    hide Ran, MainAfter, BufferAfter, Addressable;
    var mid;
    run, mid := CompleteRun(d, Flaky, st, plan[..k]);
    RanFits(d, Flaky, st, plan[..k], true, run, mid);
    st' := Store(mid.main[i := b], mid.buffer, 0);
    var m := Moment(mid, Event(plan[k], false, false), st', []);
    RanOne(d, Flaky, m, false, st');
    RanThen(d, Flaky, st, plan[..k], run, mid, [plan[k]], false, [m], st');
    run := run + [m];
    RanStops(d, Flaky, st, plan[..k] + [plan[k]], run, st', plan[k + 1..]);
    assert plan[..k] + [plan[k]] + plan[k + 1..] == plan;
  }

  ghost predicate Harmless(d: Device, plan: seq<Op>) {
    forall op :: op in plan ==> OpFits(d, op) && !op.ReadArray?
  }

  lemma PartPlanHarmless(d: Device, a: nat, data: seq<byte>)
    requires Addressable(d)
    ensures Harmless(d, PartPlan(d, a, data)) && Harmless(d, WholePlan(d, a, data))
  {
    hide Pow2, Limit, Reach;
  }

  lemma {:induction false} RestPlanHarmless(d: Device, a: nat, data: seq<byte>)
    requires Addressable(d)
    ensures Harmless(d, RestPlan(d, a, data))
    decreases |data|
  {
    hide PartPlan, WholePlan, Pow2, Limit;
    if |data| >= d.size {
      RestPlanHarmless(d, a + d.size, data[d.size..]);
      PartPlanHarmless(d, a, data[..d.size]);
    } else {
      PartPlanHarmless(d, a, data);
    }
  }

  lemma WritePlanHarmless(d: Device, a: nat, data: seq<byte>)
    requires Addressable(d)
    ensures Harmless(d, WritePlan(d, a, data))
  {
    hide PartPlan, RestPlan, Pow2, Limit;
    var n := HeadLength(d, a, |data|);
    RestPlanHarmless(d, a + n, data[n..]);
    PartPlanHarmless(d, a, data[..n]);
  }

  /** The command that rewrites the page in which a write starts. */
  lemma HeadRewrite(d: Device, a: nat, data: seq<byte>) returns (k: nat)
    requires Addressable(d) && a + |data| <= Total(d) && a % d.size != 0
    ensures k < |WritePlan(d, a, data)|
    ensures var op := WritePlan(d, a, data)[k]; op.EraseProgram? && op.page * d.size < a < op.page * d.size + d.size
  {
    hide PartPlan, RestPlan, Pow2, Limit;
    NotAtEnd(d, a);
    var n := HeadLength(d, a, |data|);
    PartPlanIs(d, a, data[..n], a / d.size);
    DivMod(a, d.size);
    k := if d.pages >= LARGE then 3 else 2;
  }

  /** The command that rewrites the page in which a write ends. */
  lemma {:induction false} RestRewrite(d: Device, a: nat, data: seq<byte>)
    requires Addressable(d) && a + |data| <= Total(d) && a % d.size == 0 && (a + |data|) % d.size != 0
    ensures RestPlan(d, a, data) != []
    ensures var plan := RestPlan(d, a, data); var op := plan[|plan| - 1];
            op.EraseProgram? && op.page * d.size < a + |data| < op.page * d.size + d.size
    decreases |data|
  {
    hide PartPlan, WholePlan, Pow2, Limit;
    if |data| >= d.size {
      ModStep(a, d.size);
      RestRewrite(d, a + d.size, data[d.size..]);
    } else {
      assert data != [];
      PartPlanIs(d, a, data, a / d.size);
    }
  }

  lemma TailRewrite(d: Device, a: nat, data: seq<byte>)
    requires Addressable(d) && a + |data| <= Total(d) && (a + |data|) % d.size != 0
    ensures WritePlan(d, a, data) != []
    ensures var plan := WritePlan(d, a, data); var op := plan[|plan| - 1];
            op.EraseProgram? && op.page * d.size < a + |data| < op.page * d.size + d.size
  {
    hide PartPlan, RestPlan, Pow2, Limit;
    var n := HeadLength(d, a, |data|);
    HeadEnds(d, a, |data|);
    if n < |data| {
      RestRewrite(d, a + n, data[n..]);
    } else {
      NotAtEnd(d, a);
      PartPlanIs(d, a, data[..n], a / d.size);
      NothingLeft(d, a + n);
      InsidePage(d, a, n);
      assert data[n..] == [];
    }
  }

  lemma NothingLeft(d: Device, a: nat)
    requires Addressable(d)
    ensures RestPlan(d, a, []) == []
  {
    hide Pow2, Limit;
  }

  lemma InsidePage(d: Device, a: nat, n: nat)
    requires d.size >= 1 && a % d.size + n <= d.size && (a + n) % d.size != 0
    ensures a + n < PageBase(d, a) + d.size
  {
    DivMod(a, d.size);
    if a + n == PageBase(d, a) + d.size {
      assert a + n == (a / d.size + 1) * d.size;
      DivModUnique(a + n, d.size, a / d.size + 1, 0);
      assert false;
    }
  }

  // Where a failing write may do damage.

  function Other(b: byte): (r: byte)
    ensures r != b
  {
    if b == 0 then 1 else 0
  }

  /** Byte i of the flash survives every run of a write on a flaky chip. */
  ghost predicate Survives(d: Device, st: Store, a: nat, data: seq<byte>, i: nat)
    requires Addressable(d) && i < |st.main|
  {
    forall ok, run, st' :: Ran(d, Flaky, st, WritePlan(d, a, data), ok, run, st') ==>
      i < |st'.main| && st'.main[i] == st.main[i]
  }

  lemma MayBeLost(d: Device, st: Store, a: nat, data: seq<byte>, k: nat, i: nat)
    requires Fits(d, st) && st.busy == 0 && i < |st.main| && k < |WritePlan(d, a, data)|
    requires var op := WritePlan(d, a, data)[k];
             Programs(op) && op.page * d.size <= i < op.page * d.size + d.size
    ensures !Survives(d, st, a, data, i)
  {
    hide Ran, WritePlan, Addressable;
    var plan := WritePlan(d, a, data);
    WritePlanHarmless(d, a, data);
    var run, st' := FailingRun(d, st, plan, k, i, Other(st.main[i]));
    assert Ran(d, Flaky, st, plan, false, run, st');
  }

  lemma OutsideSurvives(d: Device, st: Store, a: nat, data: seq<byte>, i: nat)
    requires Fits(d, st) && a + |data| <= Total(d) && i < |st.main|
    requires !(PageBase(d, a) <= i < PageEnd(d, a + |data|))
    ensures Survives(d, st, a, data, i)
  {
    hide Ran, WritePlan, Addressable;
    forall ok, run, st' | Ran(d, Flaky, st, WritePlan(d, a, data), ok, run, st')
      ensures i < |st'.main| && st'.main[i] == st.main[i]
    {
      WriteIsConfined(d, Flaky, st, a, data, ok, run, st');
    }
  }

  /** A failing write leaves the bytes before its range alone for sure exactly
      when the range starts where a page starts. */
  lemma FaultsBefore(d: Device, st: Store, a: nat, data: seq<byte>)
    requires Fits(d, st) && st.busy == 0 && a + |data| <= Total(d)
    ensures (forall i :: 0 <= i < a ==> Survives(d, st, a, data, i)) <==> a % d.size == 0
  {
    hide Survives, WritePlan, Pow2, Limit;
    DivMod(a, d.size);
    if a % d.size == 0 {
      forall i | 0 <= i < a
        ensures Survives(d, st, a, data, i)
      {
        OutsideSurvives(d, st, a, data, i);
      }
    } else {
      var k := HeadRewrite(d, a, data);
      MayBeLost(d, st, a, data, k, a - 1);
    }
  }

  lemma EndsAtPage(d: Device, e: nat)
    requires d.size >= 1 && e % d.size == 0
    ensures PageEnd(d, e) == e
  {
    DivMod(e, d.size);
    DivModUnique(e + d.size - 1, d.size, e / d.size, d.size - 1);
  }

  /** It leaves the bytes behind its range alone for sure exactly when the range
      ends where a page ends. */
  lemma FaultsBehind(d: Device, st: Store, a: nat, data: seq<byte>)
    requires Fits(d, st) && st.busy == 0 && a + |data| <= Total(d)
    ensures (forall i :: a + |data| <= i < |st.main| ==> Survives(d, st, a, data, i)) <==> (a + |data|) % d.size == 0
  {
    hide Survives, WritePlan, Pow2, Limit;
    var e := a + |data|;
    if e % d.size == 0 {
      EndsAtPage(d, e);
      forall i | e <= i < |st.main|
        ensures Survives(d, st, a, data, i)
      {
        OutsideSurvives(d, st, a, data, i);
      }
    } else {
      NotAtEnd(d, e);
      TailRewrite(d, a, data);
      MayBeLost(d, st, a, data, |WritePlan(d, a, data)| - 1, e);
    }
  }
}
