/** The DataFlash chip: main memory in pages, one SRAM buffer, and a busy time
    after each command. Transfers may fail and cells may wear out. */
module FlashChip {
  import opened Arith
  import opened Bytes
  import opened Geometry
  import opened Parts

  /** The number of polls within which a sound chip becomes ready. */
  const TIMEOUT_WRDY := 200000

  /** Reliable: nothing fails. Flaky: transfers may time out and polls may see
      no answer. Worn: besides, erased or programmed cells may hold anything. */
  datatype Health = Reliable | Flaky | Worn

  datatype Op =
    | Fetch(page: nat)
    | BufferWrite(at: nat, data: seq<byte>)
    | Erase(page: nat)
    | Program(page: nat)
    | EraseProgram(page: nat)
    | ReadArray(from: nat, count: nat)
    | Ignored

  /** busy is the number of polls that still find the chip busy. */
  datatype Store = Store(main: seq<byte>, buffer: seq<byte>, busy: nat)

  /** A memory command, whether it came while the chip was busy, and whether
      its transfer succeeded. */
  datatype Event = Event(op: Op, early: bool, ok: bool)

  predicate Fits(d: Device, st: Store) {
    Addressable(d) && |st.main| == Total(d) && |st.buffer| == d.size
  }

  function Width(d: Device): nat {
    if d.pages >= LARGE then 4 else 3
  }

  /** The page of an operation is in the device. */
  predicate OpFits(d: Device, op: Op) {
    op.Fetch? || op.Erase? || op.Program? || op.EraseProgram? ==> op.page < d.pages
  }

  /** What a command means to the chip, by its own opcodes. Pages beyond the last
      are ignored. The data of a buffer write come right behind the address, and
      those of a read behind eight bytes. */
  function DecodeOp(d: Device, cmd: seq<byte>, data: seq<byte>): (op: Op)
    requires Addressable(d)
    ensures OpFits(d, op)
  {
    hide PageOf, ByteOf, Pow2, Limit;
    if |cmd| < 1 + Width(d) then Ignored
    else
      var adr := cmd[1..1 + Width(d)];
      var page, at := PageOf(d, adr), ByteOf(d, adr);
      if cmd[0] == 0x84 then (if |cmd| == 1 + Width(d) then BufferWrite(at, data) else Ignored)
      else if page >= d.pages then Ignored
      else if cmd[0] == 0x53 then Fetch(page)
      else if cmd[0] == 0x81 then Erase(page)
      else if cmd[0] == 0x88 then Program(page)
      else if cmd[0] == 0x83 then EraseProgram(page)
      else if cmd[0] == 0xE8 && |cmd| == 8 then ReadArray(page * d.size + at, |data|)
      else Ignored
  }

  lemma PageFits(d: Device, p: nat)
    requires p < d.pages
    ensures p * d.size + d.size <= Total(d)
  {
    Monotone(p + 1, d.pages, d.size);
  }

  function Page(d: Device, main: seq<byte>, p: nat): (s: seq<byte>)
    requires |main| == Total(d) && p < d.pages
    ensures |s| == d.size
  {
    PageFits(d, p);
    main[p * d.size..p * d.size + d.size]
  }

  function WithPage(d: Device, main: seq<byte>, p: nat, data: seq<byte>): (r: seq<byte>)
    requires |main| == Total(d) && p < d.pages && |data| == d.size
    ensures |r| == |main|
  {
    PageFits(d, p);
    Patch(main, p * d.size, data)
  }

  function Filled(n: nat, b: byte): (s: seq<byte>)
    ensures |s| == n
  {
    seq(n, _ => b)
  }

  function ByteAnd(x: byte, y: byte): byte {
    OfBits(Bits(x) & Bits(y))
  }

  /** Programming can only clear bits. */
  function Merge(cells: seq<byte>, data: seq<byte>): (r: seq<byte>)
    requires |cells| == |data|
    ensures |r| == |cells|
  {
    seq(|cells|, i requires 0 <= i < |cells| => ByteAnd(cells[i], data[i]))
  }

  /** A buffer write continues at the start of the buffer when it runs over its
      end. */
  function WrapStore(buffer: seq<byte>, at: nat, data: seq<byte>): (r: seq<byte>)
    ensures |r| == |buffer|
    decreases |data|
  {
    if data == [] || buffer == [] then buffer
    else
      var n := |data| - 1;
      DivMod(at + n, |buffer|);
      WrapStore(buffer, at, data[..n])[(at + n) % |buffer| := data[n]]
  }

  /** Reading continues at the start of the memory at its end. */
  function ReadOut(main: seq<byte>, from: nat, count: nat): (r: seq<byte>)
    ensures |r| == count
  {
    if |main| == 0 then Filled(count, 0)
    else seq(count, i requires 0 <= i < count => (DivMod(from + i, |main|); main[(from + i) % |main|]))
  }

  /** The main memory and the buffer after a command that is carried out. */
  function MainAfter(d: Device, st: Store, op: Op): (main: seq<byte>)
    requires Fits(d, st)
    requires OpFits(d, op)
    ensures |main| == |st.main|
  {
    match op
    case Erase(p) => WithPage(d, st.main, p, Filled(d.size, 0xFF))
    case Program(p) => WithPage(d, st.main, p, Merge(Page(d, st.main, p), st.buffer))
    case EraseProgram(p) => WithPage(d, st.main, p, st.buffer)
    case _ => st.main
  }

  function BufferAfter(d: Device, st: Store, op: Op): (buffer: seq<byte>)
    requires Fits(d, st)
    requires OpFits(d, op)
    ensures |buffer| == |st.buffer|
  {
    match op
    case Fetch(p) => Page(d, st.main, p)
    case BufferWrite(at, data) => WrapStore(st.buffer, at, data)
    case _ => st.buffer
  }

  predicate Programs(op: Op) {
    op.Erase? || op.Program? || op.EraseProgram?
  }

  /** Two memories agree except, perhaps, in page p. */
  ghost predicate SameOutside(d: Device, main: seq<byte>, main': seq<byte>, p: nat) {
    |main| == |main'| &&
    forall i :: 0 <= i < |main| && !(p * d.size <= i < p * d.size + d.size) ==> main[i] == main'[i]
  }

  /** What a command may do to the chip. */
  ghost predicate Outcome(d: Device, health: Health, st: Store, op: Op, st': Store, ok: bool, back: seq<byte>)
    requires Fits(d, st)
    requires OpFits(d, op)
  {
    Fits(d, st') && (health == Reliable ==> ok && st'.busy < TIMEOUT_WRDY) &&
    if st.busy > 0 then st'.main == st.main && st'.buffer == st.buffer
    else if !ok || (health == Worn && Programs(op)) then
      if Programs(op) then SameOutside(d, st.main, st'.main, op.page) else st'.main == st.main
    else
      st'.main == MainAfter(d, st, op) && st'.buffer == BufferAfter(d, st, op) &&
      (op.ReadArray? ==> st'.busy == 0 && back == ReadOut(st.main, op.from, op.count))
  }

  /** A chip with this code has this geometry. */
  predicate Made(code: byte, d: Device) {
    PartOf(code).Some? && d == GeometryOf(PartOf(code).value)
  }

  /** The driver knows all chips, and every region fits on them. */
  lemma PartIsSupported(code: byte, d: Device)
    requires Made(code, d)
    ensures DeviceOf(code) == Some(d) && Addressable(d) && 512 * 264 <= Total(d) <= 16384 * 1056 && d.size <= 1056
  {
    hide DeviceOf, PartOf, GeometryOf, Pow2, Limit;
    TableIsRight(code);
    TableIsAddressable(code);
  }

  class FlashChip {
    const dev: Device
    const code: byte
    const health: Health
    var st: Store
    ghost var trace: seq<Event>

    ghost predicate Valid()
      reads this
    {
      Made(code, dev) && Fits(dev, st)
    }

    constructor (code: byte, dev: Device, health: Health, main: seq<byte>)
      requires Made(code, dev) && |main| == Total(dev)
      ensures Valid() && st.main == main && st.busy == 0 && trace == []
      ensures this.code == code && this.dev == dev && this.health == health
    {
      PartIsSupported(code, dev);
      this.code, this.dev, this.health := code, dev, health;
      st := Store(main, Filled(dev.size, 0), 0);
      trace := [];
    }

    /** Any sequence of n bytes. */
    static method Anything(n: nat) returns (s: seq<byte>)
      ensures |s| == n
    {
      s := *;
      if |s| != n {
        s := Filled(n, 0);
      }
    }

    /** A memory command with its data phase; back is what the chip sends
        during the data phase. */
    method Exchange(cmd: seq<byte>, data: seq<byte>) returns (ok: bool, back: seq<byte>)
      requires Valid()
      modifies this
      ensures Valid() && |back| == |data|
      ensures var op := DecodeOp(dev, cmd, data);
              Outcome(dev, health, old(st), op, st, ok, back)
              && trace == old(trace) + [Event(op, old(st.busy) > 0, ok)]
    {
      hide PageOf, ByteOf, WithPage, Page, Merge, WrapStore, ReadOut, DecodeOp, Filled;
      var op := DecodeOp(dev, cmd, data);
      var polls: int := *;
      var delay: nat := if polls < 0 || (health == Reliable && polls >= TIMEOUT_WRDY) then 0 else polls;
      var fails: bool := *;
      var garbled := Anything(|st.buffer|);
      ok := health == Reliable || !fails;
      back := Anything(|data|);
      trace := trace + [Event(op, st.busy > 0, ok)];
      if st.busy > 0 {
        st := st.(busy := delay);
      } else if !ok || (health == Worn && Programs(op)) {
        var main := st.main;
        if Programs(op) {
          var page := Anything(dev.size);
          ForeignPage(dev, main, op.page, page);
          main := WithPage(dev, main, op.page, page);
        }
        st := Store(main, garbled, delay);
      } else {
        if op.ReadArray? {
          back := ReadOut(st.main, op.from, op.count);
          delay := 0;
        }
        DecodeRead(dev, cmd, data);
        st := Store(MainAfter(dev, st, op), BufferAfter(dev, st, op), delay);
      }
    }

    /** Time passes without a poll; the chip may or may not come to rest. */
    method Elapse()
      requires Valid()
      modifies this`st
      ensures Valid() && st.main == old(st.main) && st.buffer == old(st.buffer) && st.busy <= old(st.busy)
    {
      var polls: int := *;
      if 0 <= polls < st.busy {
        st := st.(busy := polls);
      }
    }

    /** A command of one byte. On the opcode of the status register it is a poll:
        bit 7 set when ready, the device code in bits 5 to 2, or 0 when no answer
        came. Other opcodes get no answer. */
    method Status(opcode: byte) returns (s: byte)
      requires Valid()
      modifies this`st
      ensures Valid() && st.main == old(st.main) && st.buffer == old(st.buffer)
      ensures s == 0 || s == code + (if st.busy == 0 then 0x80 else 0)
      ensures st.busy == old(st.busy) || st.busy + 1 == old(st.busy)
      ensures health == Reliable && opcode == 0xD7 ==> s != 0 && (st.busy == 0 || st.busy < old(st.busy))
    {
      if opcode != 0xD7 {
        return 0;
      }
      var stalls: bool, silent: bool := *, *;
      if st.busy > 0 && (health == Reliable || !stalls) {
        st := st.(busy := st.busy - 1);
      }
      if health != Reliable && silent {
        return 0;
      }
      s := code + (if st.busy == 0 then 0x80 else 0);
    }
  }

  lemma ForeignPage(d: Device, main: seq<byte>, p: nat, data: seq<byte>)
    requires |main| == Total(d) && p < d.pages && |data| == d.size
    ensures SameOutside(d, main, WithPage(d, main, p, data), p)
  {
    PageFits(d, p);
  }

  lemma DecodeRead(d: Device, cmd: seq<byte>, data: seq<byte>)
    requires Addressable(d)
    ensures DecodeOp(d, cmd, data).ReadArray? ==> DecodeOp(d, cmd, data).count == |data|
  {
    hide PageOf, ByteOf;
  }
}
