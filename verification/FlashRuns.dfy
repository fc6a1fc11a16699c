/** Runs of chip commands, and the commands that a write sends. */
module FlashRuns {
  import opened Arith
  import opened Bytes
  import opened Geometry
  import opened FlashChip

  /** The operation that a page command with this opcode stands for. */
  function PageOp(opcode: byte, page: nat, from: nat, count: nat): Op {
    if opcode == DB_PAGE_2_BUF1_TRF then Fetch(page)
    else if opcode == DB_PAGE_ERASE then Erase(page)
    else if opcode == DB_BUF1_PAGE_PGM then Program(page)
    else if opcode == DB_BUF1_PAGE_ERASE_PGM then EraseProgram(page)
    else if opcode == DB_CONTINUOUS_ARRAY_READ then ReadArray(from, count)
    else Ignored
  }

  /** What the chip takes a page command for that is sent with the address a: a
      page that the command does not reach is another one, or none. */
  function Sent(d: Device, opcode: byte, a: nat, count: nat): (op: Op)
    requires Addressable(d)
    ensures OpFits(d, op)
  {
    DivMod(a, d.size);
    DivMod(a / d.size, Reach(d));
    var page := a / d.size % Reach(d);
    if page >= d.pages then Ignored else PageOp(opcode, page, page * d.size + a % d.size, count)
  }

  lemma SentInside(d: Device, opcode: byte, a: nat, count: nat)
    requires Addressable(d) && a < Total(d)
    ensures 0 <= a / d.size < d.pages && Sent(d, opcode, a, count) == PageOp(opcode, a / d.size, a, count)
  {
    hide PageOp, Pow2, Limit, Reach;
    DivMod(a, d.size);
    DivBelow(a, d.size, d.pages);
    PagesAreReached(d, a / d.size);
  }

  // The commands of a write.

  /** The address at which the page of a starts. */
  function PageBase(d: Device, a: nat): (b: nat)
    requires d.size >= 1
    ensures b <= a < b + d.size
  {
    DivMod(a, d.size);
    a / d.size * d.size
  }

  /** The commands that change a part of a page. */
  function PartPlan(d: Device, a: nat, data: seq<byte>): seq<Op>
    requires Addressable(d)
  {
    DivMod(a, d.size);
    var base := PageBase(d, a);
    [Sent(d, DB_PAGE_2_BUF1_TRF, base, 0), BufferWrite(a % d.size, data)]
    + (if d.pages >= LARGE then [Sent(d, DB_PAGE_ERASE, base, 0)] else [])
    + [Sent(d, DB_BUF1_PAGE_ERASE_PGM, base, 0)]
  }

  /** The commands that replace a whole page. */
  function WholePlan(d: Device, a: nat, data: seq<byte>): seq<Op>
    requires Addressable(d)
  {
    [BufferWrite(0, data), Sent(d, DB_PAGE_ERASE, PageBase(d, a), 0), Sent(d, DB_BUF1_PAGE_PGM, a, 0)]
  }

  function ChunkPlan(d: Device, whole: bool, a: nat, data: seq<byte>): seq<Op>
    requires Addressable(d)
  {
    if whole then WholePlan(d, a, data) else PartPlan(d, a, data)
  }

  /** Whole pages, and a tail. */
  function RestPlan(d: Device, a: nat, data: seq<byte>): seq<Op>
    requires Addressable(d)
    decreases |data|
  {
    if |data| >= d.size then WholePlan(d, a, data[..d.size]) + RestPlan(d, a + d.size, data[d.size..])
    else if data != [] then PartPlan(d, a, data)
    else []
  }

  /** The length of the head of a write that starts inside a page. */
  function HeadLength(d: Device, a: nat, count: nat): (n: nat)
    requires d.size >= 1
    ensures n <= count && a % d.size + n <= d.size
  {
    DivMod(a, d.size);
    if a % d.size == 0 then 0
    else if count < d.size - a % d.size then count
    else d.size - a % d.size
  }

  function HeadPlan(d: Device, a: nat, data: seq<byte>): seq<Op>
    requires Addressable(d)
  {
    if a % d.size == 0 then [] else PartPlan(d, a, data[..HeadLength(d, a, |data|)])
  }

  function WritePlan(d: Device, a: nat, data: seq<byte>): seq<Op>
    requires Addressable(d)
  {
    var n := HeadLength(d, a, |data|);
    HeadPlan(d, a, data) + RestPlan(d, a + n, data[n..])
  }

  // Runs.

  /** One command: the chip before and after it, and what is sent back. */
  datatype Moment = Moment(before: Store, event: Event, after: Store, back: seq<byte>)

  ghost predicate Happens(d: Device, health: Health, m: Moment) {
    Fits(d, m.before) && OpFits(d, m.event.op) && m.event.early == (m.before.busy > 0) &&
    Outcome(d, health, m.before, m.event.op, m.after, m.event.ok, m.back)
  }

  ghost predicate SameCells(a: Store, b: Store) {
    a.main == b.main && a.buffer == b.buffer
  }

  /** After a command that succeeded the driver waits until the chip is ready,
      and sends the next one. */
  ghost predicate Follows(m: Moment, next: Moment) {
    m.event.ok && next.before == m.after.(busy := 0)
  }

  /** A run of the commands in a plan, to its end if ok, and else up to one that
      failed or did not become ready. */
  ghost predicate Ran(d: Device, health: Health, st: Store, plan: seq<Op>, ok: bool, run: seq<Moment>, st': Store) {
    |run| <= |plan| && Fits(d, st) && Fits(d, st') &&
    (forall i :: 0 <= i < |run| ==> Happens(d, health, run[i]) && run[i].event.op == plan[i]) &&
    (forall i :: 0 <= i < |run| - 1 ==> Follows(run[i], run[i + 1])) &&
    (if run == [] then st' == st else run[0].before == st && SameCells(st', run[|run| - 1].after)) &&
    (if ok then |run| == |plan| && (run != [] ==> run[|run| - 1].event.ok && st'.busy == 0) else run != [])
  }

  function Events(run: seq<Moment>): (trace: seq<Event>)
    ensures |trace| == |run|
  {
    seq(|run|, i requires 0 <= i < |run| => run[i].event)
  }

  lemma EventsThen(trace: seq<Event>, a: seq<Moment>, b: seq<Moment>)
    ensures (trace + Events(a)) + Events(b) == trace + Events(a + b)
  {
  }

  lemma RanOne(d: Device, health: Health, m: Moment, ok: bool, st': Store)
    requires Happens(d, health, m) && Fits(d, st') && SameCells(st', m.after)
    requires ok ==> m.event.ok && st'.busy == 0
    ensures Ran(d, health, m.before, [m.event.op], ok, [m], st')
  {
    hide Happens, Fits;
    assert Fits(d, m.before) by { HappensFits(d, health, m); }
  }

  /** A reliable chip that succeeds is ready soon. */
  lemma ReliableIsQuick(d: Device, health: Health, st: Store, op: Op, st': Store, ok: bool, back: seq<byte>)
    requires Fits(d, st) && OpFits(d, op) && Outcome(d, health, st, op, st', ok, back)
    ensures Fits(d, st') && (health == Reliable ==> ok && st'.busy < TIMEOUT_WRDY)
  {
    hide MainAfter, BufferAfter, SameOutside;
  }

  /** One command and the wait behind it. */
  lemma RanOnce(d: Device, health: Health, m: Moment, ok: bool, st': Store)
    requires Fits(d, m.before) && OpFits(d, m.event.op) && m.event.early == (m.before.busy > 0)
    requires Outcome(d, health, m.before, m.event.op, m.after, m.event.ok, m.back)
    requires SameCells(st', m.after) && (ok ==> m.event.ok && st'.busy == 0)
    ensures Ran(d, health, m.before, [m.event.op], ok, [m], st')
  {
    hide MainAfter, BufferAfter, SameOutside;
    RanOne(d, health, m, ok, st');
  }

  lemma HappensFits(d: Device, health: Health, m: Moment)
    requires Happens(d, health, m)
    ensures Fits(d, m.before) && Fits(d, m.after)
  {
    hide MainAfter, BufferAfter, SameOutside;
  }

  lemma RanThen(d: Device, health: Health, st: Store, p: seq<Op>, a: seq<Moment>, st': Store,
                q: seq<Op>, ok: bool, b: seq<Moment>, st'': Store)
    requires Ran(d, health, st, p, true, a, st') && Ran(d, health, st', q, ok, b, st'')
    ensures Ran(d, health, st, p + q, ok, a + b, st'')
  {
    hide Happens, Fits;
    var run := a + b;
    forall i | 0 <= i < |run| - 1
      ensures Follows(run[i], run[i + 1])
    {
      if i < |a| - 1 {
        assert Follows(a[i], a[i + 1]);
      } else if i >= |a| {
        assert Follows(b[i - |a|], b[i - |a| + 1]);
      }
    }
    if b == [] {
      assert run == a;
    }
  }

  lemma RanStops(d: Device, health: Health, st: Store, p: seq<Op>, a: seq<Moment>, st': Store, q: seq<Op>)
    requires Ran(d, health, st, p, false, a, st')
    ensures Ran(d, health, st, p + q, false, a, st')
  {
    hide Happens, Fits;
  }

  // Addresses behind the device.

  /** The address that a command with the address a names. */
  function Alias(d: Device, a: nat): nat
    requires Addressable(d)
  {
    hide Pow2, Limit, Reach;
    DivMod(a, d.size);
    DivMod(a / d.size, Reach(d));
    var page: nat := a / d.size % Reach(d);
    page * d.size + a % d.size
  }

  /** In the device, every address names itself. */
  lemma AliasInside(d: Device, a: nat)
    requires Addressable(d) && a < Total(d)
    ensures Alias(d, a) == a
  {
    hide Pow2, Limit, Reach;
    DivMod(a, d.size);
    DivBelow(a, d.size, d.pages);
    PagesAreReached(d, a / d.size);
  }

  /** Two addresses name the same byte when they differ by whole rounds of what
      a command reaches. */
  ghost predicate Rounds(d: Device, a: nat, b: nat, h: nat)
    requires d.offset <= 24
  {
    a == b + h * Reach(d) * d.size
  }

  lemma RoundsApart(d: Device, a: nat, b: nat, h: nat)
    requires Addressable(d) && Rounds(d, a, b, h)
    ensures a % d.size == b % d.size && a / d.size % Reach(d) == b / d.size % Reach(d)
    ensures 0 <= b / d.size && a / d.size == b / d.size + h * Reach(d)
  {
    hide Pow2, Limit, Reach;
    var r, q: int := Reach(d), b / d.size;
    DivMod(b, d.size);
    DivMod(q, r);
    assert (q + h * r) * d.size == q * d.size + h * r * d.size;
    DivModUnique(a, d.size, q + h * r, b % d.size);
    assert (q / r + h) * r == q / r * r + h * r;
    DivModUnique(q + h * r, r, q / r + h, q % r);
  }

  lemma AliasIsRounds(d: Device, a: nat) returns (h: nat)
    requires Addressable(d)
    ensures Rounds(d, a, Alias(d, a), h)
  {
    hide Pow2, Limit, Reach;
    DivMod(a, d.size);
    DivMod(a / d.size, Reach(d));
    var q: nat := a / d.size;
    h := q / Reach(d);
    assert q * d.size == (h * Reach(d) + q % Reach(d)) * d.size;
    assert (h * Reach(d) + q % Reach(d)) * d.size == h * Reach(d) * d.size + q % Reach(d) * d.size;
  }

  lemma SentSame(d: Device, opcode: byte, a: nat, b: nat, h: nat, count: nat)
    requires Addressable(d) && Rounds(d, a, b, h)
    ensures Sent(d, opcode, a, count) == Sent(d, opcode, b, count)
  {
    hide Pow2, Limit, Reach, PageOp;
    RoundsApart(d, a, b, h);
  }

  lemma BaseRounds(d: Device, a: nat, b: nat, h: nat)
    requires Addressable(d) && Rounds(d, a, b, h)
    ensures Rounds(d, PageBase(d, a), PageBase(d, b), h)
  {
    hide Pow2, Limit, Reach;
    RoundsApart(d, a, b, h);
    assert (b / d.size + h * Reach(d)) * d.size == b / d.size * d.size + h * Reach(d) * d.size;
  }

  lemma PartSame(d: Device, a: nat, b: nat, h: nat, data: seq<byte>)
    requires Addressable(d) && Rounds(d, a, b, h)
    ensures PartPlan(d, a, data) == PartPlan(d, b, data) && WholePlan(d, a, data) == WholePlan(d, b, data)
  {
    hide Sent, Pow2, Limit, Rounds;
    RoundsApart(d, a, b, h);
    BaseRounds(d, a, b, h);
    var x, y := PageBase(d, a), PageBase(d, b);
    SentSame(d, DB_PAGE_2_BUF1_TRF, x, y, h, 0);
    SentSame(d, DB_PAGE_ERASE, x, y, h, 0);
    SentSame(d, DB_BUF1_PAGE_ERASE_PGM, x, y, h, 0);
    SentSame(d, DB_BUF1_PAGE_PGM, a, b, h, 0);
  }

  lemma {:induction false} RestSame(d: Device, a: nat, b: nat, h: nat, data: seq<byte>)
    requires Addressable(d) && Rounds(d, a, b, h)
    ensures RestPlan(d, a, data) == RestPlan(d, b, data)
    decreases |data|
  {
    hide PartPlan, WholePlan, Pow2, Limit, Reach;
    if |data| >= d.size {
      PartSame(d, a, b, h, data[..d.size]);
      RestSame(d, a + d.size, b + d.size, h, data[d.size..]);
    } else {
      PartSame(d, a, b, h, data);
    }
  }

  /** A write to any address sends the same commands as one to the address that
      it names. */
  lemma WritePlanSame(d: Device, a: nat, data: seq<byte>)
    requires Addressable(d)
    ensures WritePlan(d, a, data) == WritePlan(d, Alias(d, a), data)
  {
    hide PartPlan, RestPlan, Pow2, Limit, Reach, Alias;
    var b := Alias(d, a);
    var h := AliasIsRounds(d, a);
    RoundsApart(d, a, b, h);
    var n := HeadLength(d, a, |data|);
    PartSame(d, a, b, h, data[..n]);
    RestSame(d, a + n, b + n, h, data[n..]);
  }

  /** A read at any address, too, gets the bytes at the address that it names,
      and those behind it, as far as they are in the device. */
  lemma ReadSame(d: Device, a: nat, o: nat, count: nat)
    requires Addressable(d) && Alias(d, a) + o < Total(d)
    ensures Sent(d, DB_CONTINUOUS_ARRAY_READ, a + o, count) == ReadArray(Alias(d, a) + o, count)
  {
    hide Pow2, Limit, Reach, Alias, Sent;
    var b := Alias(d, a);
    var h := AliasIsRounds(d, a);
    SentSame(d, DB_CONTINUOUS_ARRAY_READ, a + o, b + o, h, count);
    SentInside(d, DB_CONTINUOUS_ARRAY_READ, b + o, count);
  }

  // The size test, and what gets past it.

  /** size_dataflash: the region lies in the device. The address is masked to 28
      bits here, and only here. */
  predicate SizeOk(d: Device, addr: nat, size: nat) {
    addr % 0x1000_0000 <= Total(d) && size <= Total(d) - addr % 0x1000_0000
  }

  /** What the size test and the test of the sum, as an int, accept: the ranges
      in the device, and besides those at addresses that are negative as ints
      and whose masked part looks right. */
  lemma AcceptedRanges(d: Device, addr: nat, size: nat)
    requires Total(d) < 0x1000_0000 && addr < 0x1_0000_0000
    ensures SizeOk(d, addr, size) && Signed(addr) + size <= Total(d) <==>
      addr + size <= Total(d) || (addr >= 0x8000_0000 && SizeOk(d, addr, size))
  {
  }

  /** One of the latter: on an AT45DB161 the address 0x8000_0000 names 0x20_0000. */
  lemma HighAddressIsAnother(count: nat)
    ensures var d := DeviceOf(AT45DB161).value;
            Addressable(d) && Alias(d, 0x8000_0000) == 0x20_0000 &&
            (count <= Total(d) ==> SizeOk(d, 0x8000_0000, count))
  {
    TableIsAddressable(AT45DB161);
    assert Pow2(7) == 128 && Pow2(14) == 16384 by { assert Pow2(4) == 16 && Pow2(10) == 1024; }
  }
}
