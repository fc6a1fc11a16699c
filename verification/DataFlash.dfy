/** The DataFlash driver: commands over SPI, waiting for the chip, and the
    reads and writes built from them. */
module DataFlash {
  import opened Arith
  import opened Bytes
  import opened Copying
  import opened Geometry
  import opened Parts
  import opened FlashChip
  import opened FlashTheory
  import opened FlashRuns
  import opened FlashWrites

  const DATAFLASH_BUSY := 0
  const DATAFLASH_OK := 1
  const DATAFLASH_ERROR := 2
  const DATAFLASH_MEMORY_OVERFLOW := 3
  const DATAFLASH_BAD_ADDRESS := 5

  const ERR_INVAL := 8

  const IDLE: byte := 0
  const BUSY: byte := 1

  function Zeros(n: nat): (s: seq<byte>)
    ensures |s| == n
  {
    seq(n, _ => 0)
  }

  /** The eight command bytes of a page command. */
  function PageCommand(d: Device, opcode: byte, a: nat): (cmd: seq<byte>)
    requires d.size > 0
    ensures |cmd| == 8
  {
    var adr := AddressBytes(d, a);
    [opcode] + adr + Zeros(7 - |adr|)
  }

  /** The eight command bytes of a buffer command. */
  function BufferCommand(d: Device, opcode: byte, a: nat): (cmd: seq<byte>)
    requires d.mask < 0x1_0000 && a < 0x1_0000
    ensures |cmd| == 8
  {
    var adr := BufferBytes(d, a);
    [opcode] + adr + Zeros(7 - |adr|)
  }

  lemma CommandPrefix(opcode: byte, adr: seq<byte>, cmdSize: nat)
    requires 1 + |adr| <= cmdSize <= 8
    ensures var cmd := ([opcode] + adr + Zeros(7 - |adr|))[..cmdSize];
            |cmd| == cmdSize && cmd[0] == opcode && cmd[1..1 + |adr|] == adr
  {
  }

  lemma AddressWidth(d: Device, a: nat)
    requires d.size > 0
    ensures |AddressBytes(d, a)| == Width(d)
  {
  }

  lemma BufferWidth(d: Device, a: nat)
    requires d.mask < 0x1_0000 && a < 0x1_0000
    ensures |BufferBytes(d, a)| == Width(d)
  {
    hide And;
  }

  /** What the chip takes a page command of so many bytes for: a read of another
      size is none. */
  function Taken(d: Device, opcode: byte, cmdSize: nat, a: nat, count: nat): (op: Op)
    requires Addressable(d)
    ensures OpFits(d, op)
  {
    if opcode == DB_CONTINUOUS_ARRAY_READ && cmdSize != 8 then Ignored else Sent(d, opcode, a, count)
  }

  /** What the chip takes a page command for; inside the device, that is what
      the driver means by it. */
  lemma PageCommandDecodes(d: Device, opcode: byte, a: nat, cmdSize: nat, data: seq<byte>)
    requires Addressable(d) && 1 + Width(d) <= cmdSize <= 8 && opcode != DB_BUF1_WRITE
    ensures DecodeOp(d, PageCommand(d, opcode, a)[..cmdSize], data) == Taken(d, opcode, cmdSize, a, |data|)
    ensures a < Total(d) ==>
      0 <= a / d.size < d.pages && Sent(d, opcode, a, |data|) == PageOp(opcode, a / d.size, a, |data|)
  {
    hide PageOf, ByteOf, AddressBytes, Pow2, Limit, Reach, Zeros;
    AddressInCommand(d, a);
    AddressWidth(d, a);
    CommandPrefix(opcode, AddressBytes(d, a), cmdSize);
    if a < Total(d) {
      SentInside(d, opcode, a, |data|);
    }
  }

  lemma BufferCommandDecodes(d: Device, a: nat, data: seq<byte>)
    requires Addressable(d) && d.size <= 0x1_0000 && d.mask < 0x1_0000 && a < d.size
    ensures DecodeOp(d, BufferCommand(d, DB_BUF1_WRITE, a)[..1 + Width(d)], data) == BufferWrite(a, data)
  {
    hide PageOf, ByteOf, BufferBytes, Pow2, Limit, Zeros;
    BufferAddressIsLossless(d, a);
    BufferWidth(d, a);
    CommandPrefix(DB_BUF1_WRITE, BufferBytes(d, a), 1 + Width(d));
  }

  /** A write: the chip and the memory it starts from, where it goes and where
      it comes from. */
  datatype Job = Job(st: Store, trace: seq<Event>, dest: nat, mem: seq<byte>, source: nat, count: nat) {
    ghost predicate Fits(ramLength: nat) {
      |mem| == ramLength && source + count <= |mem|
    }

    /** The bytes that are left when done of them are written. */
    ghost function Left(done: nat): seq<byte>
      requires source + count <= |mem| && done <= count
    {
      mem[source + done..source + count]
    }
  }

  /** The descriptor and the device it drives. The transmit and receive
      pointers and sizes are always equal, so there is one of each. */
  class DataFlash {
    const chip: FlashChip
    var dev: Device
    var state: byte
    var status: byte
    var command: seq<byte>
    var cmdSize: nat
    var dataPt: nat
    var dataSize: nat

    ghost predicate Valid()
      reads this, chip
    {
      chip.Valid() && dev == chip.dev && state == IDLE && |command| == 8 &&
      dev.size <= 0x1_0000 && dev.mask < 0x1_0000
    }

    ghost predicate Ready()
      reads this, chip
    {
      Valid() && chip.st.busy == 0
    }

    constructor (chip: FlashChip)
      requires chip.Valid()
      ensures this.chip == chip && Attached()
    {
      this.chip := chip;
      dev := Device(0, 0, 0, 0);
      state, status, command := IDLE, 0, Zeros(8);
      cmdSize, dataPt, dataSize := 0, 0, 0;
    }

    /** Transfer the command, then the data. The PDC receives into the memory
        it transmits from, so that memory is overwritten. */
    method SpiWrite(ram: array<byte>, ghost mem: seq<byte>) returns (r: int, ghost back: seq<byte>)
      requires Valid() && cmdSize <= 8
      requires dataPt + dataSize <= ram.Length == |mem| && Memory(ram, mem)
      modifies this`state, chip, ram
      ensures Valid() && |back| == dataSize && Memory(ram, Patch(mem, dataPt, back))
      ensures r == DATAFLASH_OK || r == DATAFLASH_ERROR
      ensures var op := DecodeOp(dev, command[..cmdSize], mem[dataPt..dataPt + dataSize]);
              Outcome(dev, chip.health, old(chip.st), op, chip.st, r == DATAFLASH_OK, back)
              && chip.trace == old(chip.trace) + [Event(op, old(chip.st.busy) > 0, r == DATAFLASH_OK)]
    {
      hide DecodeOp, Outcome;
      state := BUSY;
      assert ram[..] == mem;
      var data := ram[dataPt..dataPt + dataSize];
      assert data == mem[dataPt..dataPt + dataSize];
      var ok, received := chip.Exchange(command[..cmdSize], data);
      StoreBytes(ram, dataPt, received, mem);
      back := received;
      state := IDLE;
      r := if ok then DATAFLASH_OK else DATAFLASH_ERROR;
    }

    /** AT91F_DataFlashSendCommand: put the address into the command, and
        transfer. */
    method SendCommand(opcode: byte, size: nat, a: nat, ram: array<byte>, ghost mem: seq<byte>)
      returns (r: int, ghost back: seq<byte>)
      requires Valid() && 1 + Width(dev) <= size <= 8 && opcode != DB_BUF1_WRITE
      requires dataPt + dataSize <= ram.Length == |mem| && Memory(ram, mem)
      modifies this`state, this`command, this`cmdSize, chip, ram
      ensures Valid() && |back| == dataSize && Memory(ram, Patch(mem, dataPt, back))
      ensures r == DATAFLASH_OK || r == DATAFLASH_ERROR
      ensures var op := Taken(dev, opcode, size, a, dataSize);
              Outcome(dev, chip.health, old(chip.st), op, chip.st, r == DATAFLASH_OK, back)
              && chip.trace == old(chip.trace) + [Event(op, old(chip.st.busy) > 0, r == DATAFLASH_OK)]
    {
      hide PageOp, DecodeOp, Outcome, PageCommand, Memory, Sent, Pow2, Limit;
      back := [];
      if state != IDLE {
        return DATAFLASH_BUSY, back;
      }
      command := PageCommand(dev, opcode, a);
      cmdSize := size;
      PageCommandDecodes(dev, opcode, a, size, mem[dataPt..dataPt + dataSize]);
      r, back := SpiWrite(ram, mem);
    }

    /** AT91F_DataFlashGetStatus: one poll; 0 when no answer came. */
    method GetStatus()
      requires Valid()
      modifies this`status, this`command, chip`st
      ensures Valid() && chip.st.main == old(chip.st.main) && chip.st.buffer == old(chip.st.buffer)
      ensures status == 0 || status == chip.code + (if chip.st.busy == 0 then 0x80 else 0)
      ensures chip.st.busy == old(chip.st.busy) || chip.st.busy + 1 == old(chip.st.busy)
      ensures chip.health == Reliable ==> status != 0 && (chip.st.busy == 0 || chip.st.busy < old(chip.st.busy))
    {
      if state != IDLE {
        return;
      }
      command := command[0 := DB_STATUS][1 := 0];
      var answer := chip.Status(command[0]);
      command := command[1 := answer];
      status := command[1];
    }

    /** AT91F_DataFlashWaitReady: poll until bit 7 of the status is set. */
    method WaitReady(timeout: nat) returns (r: int)
      requires Valid() && timeout >= 1
      modifies this`status, this`command, chip`st
      ensures Valid() && chip.st.main == old(chip.st.main) && chip.st.buffer == old(chip.st.buffer)
      ensures r == DATAFLASH_OK || r == DATAFLASH_ERROR
      ensures r == DATAFLASH_OK ==> chip.st.busy == 0
      ensures chip.health == Reliable && old(chip.st.busy) <= timeout ==> r == DATAFLASH_OK
    {
      CodeIsSmall(chip.code);
      status := 0;
      var left := timeout;
      GetStatus();
      left := left - 1;
      while status / 0x80 != 1 && left > 0
        invariant Valid() && chip.st.main == old(chip.st.main) && chip.st.buffer == old(chip.st.buffer)
        invariant status / 0x80 == 1 ==> chip.st.busy == 0
        invariant chip.health == Reliable && old(chip.st.busy) <= timeout ==>
          status / 0x80 == 1 || 0 < chip.st.busy <= left
        decreases left
      {
        GetStatus();
        left := left - 1;
      }
      if status / 0x80 != 1 {
        return DATAFLASH_ERROR;
      }
      r := DATAFLASH_OK;
    }

    /** WAIT_RDY. */
    method WaitRdy() returns (ok: bool)
      requires Valid()
      modifies this`status, this`command, chip`st
      ensures Valid() && chip.st.main == old(chip.st.main) && chip.st.buffer == old(chip.st.buffer)
      ensures ok ==> chip.st.busy == 0
      ensures chip.health == Reliable && old(chip.st.busy) < TIMEOUT_WRDY ==> ok
    {
      var r := WaitReady(TIMEOUT_WRDY);
      ok := r == DATAFLASH_OK;
    }

    /** The plan was carried out, to its end if ok, from the chip st on. */
    ghost predicate Performed(plan: seq<Op>, ok: bool, run: seq<Moment>, st: Store, trace: seq<Event>)
      reads this, chip
    {
      Valid() && Ran(dev, chip.health, st, plan, ok, run, chip.st) && chip.trace == trace + Events(run) &&
      (chip.health == Reliable ==> ok)
    }

    /** A command without data phase, and WAIT_RDY. */
    method Command(opcode: byte, a: nat, ram: array<byte>, ghost mem: seq<byte>)
      returns (ok: bool, ghost run: seq<Moment>)
      requires Valid() && opcode != DB_BUF1_WRITE && opcode != DB_CONTINUOUS_ARRAY_READ
      requires ram.Length == |mem| && Memory(ram, mem)
      modifies this, chip, ram
      ensures dev == old(dev) && Memory(ram, mem)
      ensures Performed([Sent(dev, opcode, a, 0)], ok, run, old(chip.st), old(chip.trace))
    {
      hide Sent, Outcome, Memory, Patch, Ran, Pow2, Limit;
      dataPt, dataSize := 0, 0;
      var size := 4;
      if dev.pages >= LARGE {
        size := 5;
      }
      var r;
      ghost var back;
      r, back := SendCommand(opcode, size, a, ram, mem);
      assert back == [];
      PatchNothing(mem, 0);
      ghost var op, after := Sent(dev, opcode, a, 0), chip.st;
      ok := r == DATAFLASH_OK;
      ReliableIsQuick(dev, chip.health, old(chip.st), op, after, ok, back);
      if ok {
        ok := WaitRdy();
      }
      ghost var m := Moment(old(chip.st), Event(op, old(chip.st.busy) > 0, r == DATAFLASH_OK), after, back);
      RanOnce(dev, chip.health, m, ok, chip.st);
      run := [m];
      assert Events(run) == [m.event];
    }

    /** AT91F_MainMemoryToBufferTransfert and WAIT_RDY. */
    method FetchPage(page: nat, ram: array<byte>, ghost mem: seq<byte>) returns (ok: bool, ghost run: seq<Moment>)
      requires Valid() && ram.Length == |mem| && Memory(ram, mem)
      modifies this, chip, ram
      ensures dev == old(dev) && Memory(ram, mem)
      ensures Performed([Sent(dev, DB_PAGE_2_BUF1_TRF, page * dev.size, 0)], ok, run, old(chip.st), old(chip.trace))
    {
      ok, run := Command(DB_PAGE_2_BUF1_TRF, page * dev.size, ram, mem);
    }

    /** AT91F_PageErase and WAIT_RDY. */
    method ErasePage(page: nat, ram: array<byte>, ghost mem: seq<byte>) returns (ok: bool, ghost run: seq<Moment>)
      requires Valid() && ram.Length == |mem| && Memory(ram, mem)
      modifies this, chip, ram
      ensures dev == old(dev) && Memory(ram, mem)
      ensures Performed([Sent(dev, DB_PAGE_ERASE, page * dev.size, 0)], ok, run, old(chip.st), old(chip.trace))
    {
      ok, run := Command(DB_PAGE_ERASE, page * dev.size, ram, mem);
    }

    /** AT91F_WriteBufferToMain and WAIT_RDY: with or without erasing. */
    method ProgramPage(opcode: byte, a: nat, ram: array<byte>, ghost mem: seq<byte>)
      returns (ok: bool, ghost run: seq<Moment>)
      requires opcode == DB_BUF1_PAGE_PGM || opcode == DB_BUF1_PAGE_ERASE_PGM
      requires Valid() && ram.Length == |mem| && Memory(ram, mem)
      modifies this, chip, ram
      ensures dev == old(dev) && Memory(ram, mem)
      ensures Performed([Sent(dev, opcode, a, 0)], ok, run, old(chip.st), old(chip.trace))
    {
      ok, run := Command(opcode, a, ram, mem);
    }

    /** AT91F_DataFlashWriteBuffer. */
    method WriteBuffer(ram: array<byte>, src: nat, bufferAddress: nat, size: nat, ghost mem: seq<byte>)
      returns (r: int, ghost junk: seq<byte>)
      requires Valid() && src + size <= ram.Length == |mem| && Memory(ram, mem)
      modifies this`state, this`command, this`cmdSize, this`dataPt, this`dataSize, chip, ram
      ensures Valid() && src + |junk| <= |mem| && |junk| <= size && Memory(ram, Patch(mem, src, junk))
      ensures bufferAddress >= dev.size ==>
        r == DATAFLASH_BAD_ADDRESS && junk == [] && chip.st == old(chip.st) && chip.trace == old(chip.trace)
      ensures bufferAddress < dev.size ==>
        var op := BufferWrite(bufferAddress, mem[src..src + size]);
        |junk| == size && Outcome(dev, chip.health, old(chip.st), op, chip.st, r == DATAFLASH_OK, junk)
        && chip.trace == old(chip.trace) + [Event(op, old(chip.st.busy) > 0, r == DATAFLASH_OK)]
    {
      hide Outcome, Memory, Patch, BufferCommand, DecodeOp, Pow2, Limit;
      junk := [];
      PatchNothing(mem, src);
      if bufferAddress >= dev.size {
        return DATAFLASH_BAD_ADDRESS, junk;
      }
      if state != IDLE {
        return DATAFLASH_BUSY, junk;
      }
      command := BufferCommand(dev, DB_BUF1_WRITE, bufferAddress);
      cmdSize := if dev.pages >= LARGE then 5 else 4;
      dataPt, dataSize := src, size;
      BufferCommandDecodes(dev, bufferAddress, mem[src..src + size]);
      r, junk := SpiWrite(ram, mem);
    }

    /** AT91F_DataFlashWriteBuffer and WAIT_RDY. */
    method FillBuffer(ram: array<byte>, src: nat, at: nat, n: nat, ghost mem: seq<byte>)
      returns (ok: bool, ghost junk: seq<byte>, ghost run: seq<Moment>)
      requires Valid() && at < dev.size && src + n <= ram.Length == |mem| && Memory(ram, mem)
      modifies this, chip, ram
      ensures dev == old(dev) && |junk| == n && Memory(ram, Patch(mem, src, junk))
      ensures Performed([BufferWrite(at, mem[src..src + n])], ok, run, old(chip.st), old(chip.trace))
    {
      hide Outcome, Memory, Patch, Ran, Pow2, Limit;
      var r;
      r, junk := WriteBuffer(ram, src, at, n, mem);
      ghost var op, after := BufferWrite(at, mem[src..src + n]), chip.st;
      ok := r == DATAFLASH_OK;
      ReliableIsQuick(dev, chip.health, old(chip.st), op, after, ok, junk);
      if ok {
        ok := WaitRdy();
      }
      ghost var m := Moment(old(chip.st), Event(op, old(chip.st.busy) > 0, r == DATAFLASH_OK), after, junk);
      RanOnce(dev, chip.health, m, ok, chip.st);
      run := [m];
      assert Events(run) == [m.event];
    }

    /** The start of a partial write: fetch the page, and change a part of it in
        the buffer. */
    method StagePage(ram: array<byte>, src: nat, dest: nat, n: nat, ghost mem: seq<byte>)
      returns (ok: bool, ghost junk: seq<byte>, ghost run: seq<Moment>)
      requires Valid() && dest % dev.size < dev.size && src + n <= ram.Length == |mem| && Memory(ram, mem)
      modifies this, chip, ram
      ensures dev == old(dev) && |junk| <= n && Memory(ram, Patch(mem, src, junk)) && (ok ==> |junk| == n)
      ensures Performed([Sent(dev, DB_PAGE_2_BUF1_TRF, PageBase(dev, dest), 0),
                         BufferWrite(dest % dev.size, mem[src..src + n])], ok, run, old(chip.st), old(chip.trace))
    {
      hide Made, Memory, Patch, Ran, Sent, Pow2, Limit;
      DivMod(dest, dev.size);
      PatchNothing(mem, src);
      junk := [];
      var page: nat, at: nat := dest / dev.size, dest % dev.size;
      ghost var fetch := Sent(dev, DB_PAGE_2_BUF1_TRF, PageBase(dev, dest), 0);
      ghost var fill := BufferWrite(at, mem[src..src + n]);
      assert [fetch] + [fill] == [fetch, fill];
      ok, run := FetchPage(page, ram, mem);
      if !ok {
        RanStops(dev, chip.health, old(chip.st), [fetch], run, chip.st, [fill]);
        return;
      }
      ghost var st1, more := chip.st, [];
      ok, junk, more := FillBuffer(ram, src, at, n, mem);
      RanThen(dev, chip.health, old(chip.st), [fetch], run, st1, [fill], ok, more, chip.st);
      EventsThen(old(chip.trace), run, more);
      run := run + more;
    }

    /** AT91F_PartialPageWrite: change a part of a page. */
    method PartialPageWrite(ram: array<byte>, src: nat, dest: nat, size: nat, ghost mem: seq<byte>)
      returns (r: int, ghost junk: seq<byte>, ghost run: seq<Moment>)
      requires Valid() && src + size <= ram.Length == |mem| && Memory(ram, mem)
      modifies this, chip, ram
      ensures dev == old(dev) && |junk| <= size && Memory(ram, Patch(mem, src, junk))
      ensures r == DATAFLASH_OK || r == DATAFLASH_ERROR
      ensures r == DATAFLASH_OK ==> |junk| == size
      ensures Performed(PartPlan(dev, dest, mem[src..src + size]), r == DATAFLASH_OK, run, old(chip.st),
                        old(chip.trace))
    {
      hide Made, Memory, Patch, Ran, Sent, Pow2, Limit;
      DivMod(dest, dev.size);
      ghost var base, data := PageBase(dev, dest), mem[src..src + size];
      ghost var erase := if dev.pages >= LARGE then [Sent(dev, DB_PAGE_ERASE, base, 0)] else [];
      ghost var rewrite := [Sent(dev, DB_BUF1_PAGE_ERASE_PGM, base, 0)];
      ghost var stage := [Sent(dev, DB_PAGE_2_BUF1_TRF, base, 0), BufferWrite(dest % dev.size, data)];
      assert PartPlan(dev, dest, data) == stage + erase + rewrite == stage + (erase + rewrite);
      var page: nat := dest / dev.size;
      var ok;
      ok, junk, run := StagePage(ram, src, dest, size, mem);
      if !ok {
        RanStops(dev, chip.health, old(chip.st), stage, run, chip.st, erase + rewrite);
        return DATAFLASH_ERROR, junk, run;
      }
      ghost var more, st1 := [], chip.st;
      if dev.pages >= LARGE {
        ok, more := ErasePage(page, ram, Patch(mem, src, junk));
        RanThen(dev, chip.health, old(chip.st), stage, run, st1, erase, ok, more, chip.st);
        EventsThen(old(chip.trace), run, more);
        run := run + more;
        if !ok {
          RanStops(dev, chip.health, old(chip.st), stage + erase, run, chip.st, rewrite);
          return DATAFLASH_ERROR, junk, run;
        }
      } else {
        assert stage + erase == stage;
      }
      st1 := chip.st;
      ok, more := ProgramPage(DB_BUF1_PAGE_ERASE_PGM, page * dev.size, ram, Patch(mem, src, junk));
      RanThen(dev, chip.health, old(chip.st), stage + erase, run, st1, rewrite, ok, more, chip.st);
      EventsThen(old(chip.trace), run, more);
      run := run + more;
      r := if ok then DATAFLASH_OK else DATAFLASH_ERROR;
    }

    /** One whole page: fill the buffer, erase the page, program it. */
    method WritePage(ram: array<byte>, src: nat, dest: nat, ghost mem: seq<byte>)
      returns (r: int, ghost junk: seq<byte>, ghost run: seq<Moment>)
      requires Valid() && src + dev.size <= ram.Length == |mem| && Memory(ram, mem)
      modifies this, chip, ram
      ensures dev == old(dev) && |junk| == dev.size && Memory(ram, Patch(mem, src, junk))
      ensures r == DATAFLASH_OK || r == DATAFLASH_ERROR
      ensures Performed(WholePlan(dev, dest, mem[src..src + dev.size]), r == DATAFLASH_OK, run, old(chip.st),
                        old(chip.trace))
    {
      hide Made, Memory, Patch, Ran, Sent, Pow2, Limit;
      DivMod(dest, dev.size);
      ghost var fill := [BufferWrite(0, mem[src..src + dev.size])];
      ghost var erase := [Sent(dev, DB_PAGE_ERASE, PageBase(dev, dest), 0)];
      ghost var program := [Sent(dev, DB_BUF1_PAGE_PGM, dest, 0)];
      assert WholePlan(dev, dest, mem[src..src + dev.size]) == fill + erase + program == fill + (erase + program);
      var page: nat := dest / dev.size;
      var ok;
      ok, junk, run := FillBuffer(ram, src, 0, dev.size, mem);
      if !ok {
        RanStops(dev, chip.health, old(chip.st), fill, run, chip.st, erase + program);
        return DATAFLASH_ERROR, junk, run;
      }
      ghost var more, st1 := [], chip.st;
      ok, more := ErasePage(page, ram, Patch(mem, src, junk));
      RanThen(dev, chip.health, old(chip.st), fill, run, st1, erase, ok, more, chip.st);
      EventsThen(old(chip.trace), run, more);
      run := run + more;
      if !ok {
        RanStops(dev, chip.health, old(chip.st), fill + erase, run, chip.st, program);
        return DATAFLASH_ERROR, junk, run;
      }
      st1 := chip.st;
      ok, more := ProgramPage(DB_BUF1_PAGE_PGM, dest, ram, Patch(mem, src, junk));
      RanThen(dev, chip.health, old(chip.st), fill + erase, run, st1, program, ok, more, chip.st);
      EventsThen(old(chip.trace), run, more);
      run := run + more;
      r := if ok then DATAFLASH_OK else DATAFLASH_ERROR;
    }

    /** done bytes of a write were sent, and overwritten in the source by junk. */
    ghost predicate Writing(ram: array<byte>, job: Job, done: nat, junk: seq<byte>, plan: seq<Op>, run: seq<Moment>)
      reads this, chip, ram
    {
      Performed(plan, true, run, job.st, job.trace) && job.Fits(ram.Length) && done <= job.count && |junk| == done &&
      Memory(ram, Patch(job.mem, job.source, junk))
    }

    /** The next n bytes: a whole page, or a part of one. */
    method WriteChunk(whole: bool, ram: array<byte>, src: nat, to: nat, n: nat,
                      ghost job: Job, ghost done: nat, ghost junk: seq<byte>, ghost plan: seq<Op>,
                      ghost run: seq<Moment>)
      returns (r: int, ghost junk': seq<byte>, ghost run': seq<Moment>)
      requires Writing(ram, job, done, junk, plan, run) && done + n <= job.count && src == job.source + done
      requires whole ==> n == dev.size
      modifies this, chip, ram
      ensures dev == old(dev) && |junk'| <= job.count && Memory(ram, Patch(job.mem, job.source, junk'))
      ensures r == DATAFLASH_OK || r == DATAFLASH_ERROR
      ensures Performed(plan + ChunkPlan(dev, whole, to, job.mem[src..src + n]), r == DATAFLASH_OK, run', job.st,
                        job.trace)
      ensures r == DATAFLASH_OK ==>
        Writing(ram, job, done + n, junk', plan + ChunkPlan(dev, whole, to, job.mem[src..src + n]), run')
    {
      hide Made, Memory, Patch, Ran, PartPlan, WholePlan, Pow2, Limit;
      ghost var ram1, more, added, st1 := Patch(job.mem, job.source, junk), [], [], chip.st;
      SliceBeyond(job.mem, job.source, junk, src, src + n);
      if whole {
        r, more, added := WritePage(ram, src, to, ram1);
      } else {
        r, more, added := PartialPageWrite(ram, src, to, n, ram1);
      }
      PatchJoin(job.mem, job.source, junk, more);
      junk' := junk + more;
      RanThen(dev, chip.health, job.st, plan, run, st1, ChunkPlan(dev, whole, to, job.mem[src..src + n]),
              r == DATAFLASH_OK, added, chip.st);
      EventsThen(job.trace, run, added);
      run' := run + added;
    }

    /** The head of a write that does not start on a page boundary. */
    method WriteHead(ram: array<byte>, ghost job: Job, dest: nat, source: nat, size: nat)
      returns (r: int, length: nat, ghost junk: seq<byte>, ghost run: seq<Moment>)
      requires Writing(ram, job, 0, [], [], []) && dest == job.dest && source == job.source && size == job.count
      modifies this, chip, ram
      ensures dev == old(dev) && length == HeadLength(dev, dest, size)
      ensures |junk| <= job.count && Memory(ram, Patch(job.mem, job.source, junk))
      ensures r == DATAFLASH_OK || r == DATAFLASH_ERROR
      ensures Performed(HeadPlan(dev, dest, job.Left(0)), r == DATAFLASH_OK, run, job.st, job.trace)
      ensures r == DATAFLASH_OK ==> Writing(ram, job, length, junk, HeadPlan(dev, dest, job.Left(0)), run)
    {
      hide Made, Memory, Patch, Ran, PartPlan, Pow2, Limit;
      r, length, junk, run := DATAFLASH_OK, 0, [], [];
      DivMod(dest, dev.size);
      if dest % dev.size != 0 {
        length := dev.size - dest % dev.size;
        if size < length {
          length := size;
        }
        LeftSplits(job, 0, length);
        r, junk, run := WriteChunk(false, ram, source, dest, length, job, 0, [], [], []);
        assert [] + PartPlan(dev, dest, job.Left(0)[..length]) == PartPlan(dev, dest, job.Left(0)[..length]);
      }
    }

    /** Whole pages, and the tail. */
    method WriteRest(ram: array<byte>, ghost job: Job, dest: nat, source: nat, left: nat,
                     ghost done: nat, ghost written: seq<byte>, ghost plan: seq<Op>, ghost before: seq<Moment>)
      returns (r: int, ghost junk: seq<byte>, ghost run: seq<Moment>)
      requires Writing(ram, job, done, written, plan, before) && done + left == job.count && source == job.source + done
      modifies this, chip, ram
      ensures dev == old(dev) && |junk| <= job.count && Memory(ram, Patch(job.mem, job.source, junk))
      ensures r == DATAFLASH_OK || r == DATAFLASH_ERROR
      ensures Performed(plan + RestPlan(dev, dest, job.Left(done)), r == DATAFLASH_OK, run, job.st, job.trace)
    {
      hide Made, Memory, Patch, Ran, PartPlan, WholePlan, RestPlan, Pow2, Limit;
      var size: int, to: nat, src: nat := left, dest, source;
      junk, run := written, before;
      ghost var sofar, all := plan, plan + RestPlan(dev, dest, job.Left(done));
      while size - dev.size >= 0
        invariant dev == old(dev) && 0 <= size <= left && src == job.source + (job.count - size)
        invariant Writing(ram, job, job.count - size, junk, sofar, run)
        invariant sofar + RestPlan(dev, to, job.Left(job.count - size)) == all
        decreases size
      {
        ghost var now: nat := job.count - size;
        ghost var chunk := WholePlan(dev, to, job.mem[src..src + dev.size]);
        NextIsWhole(dev, to, job, now, sofar);
        r, junk, run := WriteChunk(true, ram, src, to, dev.size, job, now, junk, sofar, run);
        sofar := sofar + chunk;
        if r != DATAFLASH_OK {
          RanStops(dev, chip.health, job.st, sofar, run, chip.st,
                   RestPlan(dev, to + dev.size, job.Left(now + dev.size)));
          return DATAFLASH_ERROR, junk, run;
        }
        size := size - dev.size;
        to := to + dev.size;
        src := src + dev.size;
      }
      r := DATAFLASH_OK;
      LastIsPart(dev, to, job, job.count - size, sofar);
      if size > 0 {
        r, junk, run := WriteChunk(false, ram, src, to, size, job, job.count - size, junk, sofar, run);
      }
    }

    /** A write of data to the address b, inside the device: what it made of the
        flash, and when the trace is still disciplined. */
    ghost predicate Wrote(b: nat, data: seq<byte>, ok: bool, st: Store, trace: seq<Event>, failed: nat)
      reads this, chip
    {
      Valid() && b + |data| <= Total(dev) && WriteOutcome(dev, chip.health, st, b, data, ok, chip.st, failed) &&
      (Disciplined(dev, trace) ==> (Disciplined(dev, chip.trace) <==> st.busy == 0 || chip.trace == trace))
    }

    /** AT91F_DataFlashWrite: a head that does not start on a page boundary,
        whole pages, and a tail. The address is an int in the source. failed is
        the page at which an error stopped the write. */
    method Write(ram: array<byte>, source: nat, dest: nat, count: nat, ghost mem: seq<byte>)
      returns (r: int, ghost junk: seq<byte>, ghost failed: nat, ghost run: seq<Moment>)
      requires Valid() && source + count <= ram.Length == |mem| && Memory(ram, mem) && dest < 0x1_0000_0000
      modifies this, chip, ram
      ensures Valid() && dev == old(dev) && |junk| <= count && Memory(ram, Patch(mem, source, junk))
      ensures Signed(dest) + count > Total(dev) <==> r == DATAFLASH_MEMORY_OVERFLOW
      ensures r == DATAFLASH_MEMORY_OVERFLOW ==> chip.st == old(chip.st) && chip.trace == old(chip.trace)
      ensures r == DATAFLASH_OK || r == DATAFLASH_ERROR || r == DATAFLASH_MEMORY_OVERFLOW
      ensures r != DATAFLASH_MEMORY_OVERFLOW ==>
        Performed(WritePlan(dev, dest, mem[source..source + count]), r == DATAFLASH_OK, run, old(chip.st),
                  old(chip.trace))
      ensures dest + count <= Total(dev) ==>
        Wrote(dest, mem[source..source + count], r == DATAFLASH_OK, old(chip.st), old(chip.trace), failed)
      ensures dest >= 0x8000_0000 && Alias(dev, dest) + count <= Total(dev) ==>
        Wrote(Alias(dev, dest), mem[source..source + count], r == DATAFLASH_OK, old(chip.st), old(chip.trace), failed)
    {
      hide Made, Total, Memory, Patch, Ran, HeadPlan, RestPlan, WritePlan, Disciplined, Ended, Confined;
      hide Pow2, Limit, Reach, Alias;
      junk, failed, run := [], 0, [];
      PartIsSupported(chip.code, dev);
      PatchNothing(mem, source);
      if Signed(dest) + count > Total(dev) {
        return DATAFLASH_MEMORY_OVERFLOW, junk, failed, run;
      }
      ghost var job, data := Job(chip.st, chip.trace, dest, mem, source, count), mem[source..source + count];
      RanNothing(dev, chip.health, chip.st, chip.trace);
      var length;
      r, length, junk, run := WriteHead(ram, job, dest, source, count);
      ghost var head, rest := HeadPlan(dev, dest, data), RestPlan(dev, dest + length, data[length..]);
      HeadThenRest(dev, dest, data);
      if r != DATAFLASH_OK {
        RanStops(dev, chip.health, job.st, head, run, chip.st, rest);
        r := DATAFLASH_ERROR;
      } else {
        LeftSplits(job, 0, length);
        r, junk, run := WriteRest(ram, job, dest + length, source + length, count - length, length, junk, head, run);
      }
      if dest + count <= Total(dev) {
        failed := WriteConclusion(dev, chip.health, job.st, dest, data, r == DATAFLASH_OK, run, chip.st, job.trace);
      } else if Alias(dev, dest) + count <= Total(dev) {
        WritePlanSame(dev, dest, data);
        failed := WriteConclusion(dev, chip.health, job.st, Alias(dev, dest), data, r == DATAFLASH_OK, run, chip.st,
                                  job.trace);
      }
    }

    /** AT91F_DataFlashContinuousRead. The address is an int in the source. */
    method ContinuousRead(ram: array<byte>, src: nat, buffer: nat, size: nat, ghost mem: seq<byte>)
      returns (r: int, ghost got: seq<byte>)
      requires Valid() && buffer + size <= ram.Length == |mem| && Memory(ram, mem) && src < 0x1_0000_0000
      modifies this, chip, ram
      ensures Valid() && dev == old(dev) && chip.st.main == old(chip.st.main)
      ensures |got| <= size && Memory(ram, Patch(mem, buffer, got))
      ensures Signed(src) + size > Total(dev) <==> r == DATAFLASH_MEMORY_OVERFLOW
      ensures r == DATAFLASH_MEMORY_OVERFLOW ==> chip.st == old(chip.st) && chip.trace == old(chip.trace)
      ensures r == DATAFLASH_OK ==> |got| == size
      ensures var op := Sent(dev, DB_CONTINUOUS_ARRAY_READ, src, size);
        old(chip.st.busy) == 0 && op.ReadArray? ==>
          (r == DATAFLASH_OK ==> Ready() && got == ReadOut(chip.st.main, op.from, size))
          && (Disciplined(dev, old(chip.trace)) ==> Disciplined(dev, chip.trace))
      ensures chip.health == Reliable && r != DATAFLASH_MEMORY_OVERFLOW ==>
        r == DATAFLASH_OK && chip.st.busy < TIMEOUT_WRDY
      ensures size <= 0x8000 ==> ReadsChunks(old(chip.trace), chip.trace)
    {
      hide Made, Memory, Disciplined, Patch, ReadOut, Sent, Outcome, ReadsChunks, Pow2, Limit;
      got := [];
      PatchNothing(mem, buffer);
      ReadsNothing(chip.trace);
      if Signed(src) + size > Total(dev) {
        return DATAFLASH_MEMORY_OVERFLOW, got;
      }
      dataPt, dataSize := buffer, size;
      r, got := SendCommand(DB_CONTINUOUS_ARRAY_READ, 8, src, ram, mem);
      ghost var op := Sent(dev, DB_CONTINUOUS_ARRAY_READ, src, size);
      SentReads(dev, src, size);
      ReadsOne(old(chip.trace), dev, src, size, Event(op, old(chip.st.busy) > 0, r == DATAFLASH_OK));
      ReliableIsQuick(dev, chip.health, old(chip.st), op, chip.st, r == DATAFLASH_OK, got);
      ReadOutcome(dev, chip.health, old(chip.st), op, chip.st, r == DATAFLASH_OK, got);
      if op.ReadArray? && old(chip.st.busy) == 0 && Disciplined(dev, old(chip.trace)) {
        DisciplinedMore(dev, old(chip.trace), Event(op, false, r == DATAFLASH_OK));
      }
    }

    /** One chunk of a read: wait, then read. b is the address that it names, when
        it is inside the device. */
    method ReadChunk(ram: array<byte>, addr: nat, buffer: nat, n: nat, ghost b: nat, ghost mem: seq<byte>,
                     ghost to: nat, ghost sofar: seq<byte>)
      returns (ok: bool, ghost got: seq<byte>)
      requires Valid() && n > 0 && buffer == to + |sofar| && buffer + n <= ram.Length == |mem| && addr < 0x1_0000_0000
      requires Memory(ram, Patch(mem, to, sofar))
      requires b + n <= Total(dev) ==> Sent(dev, DB_CONTINUOUS_ARRAY_READ, addr, n) == ReadArray(b, n)
      modifies this, chip, ram
      ensures Valid() && dev == old(dev) && chip.st.main == old(chip.st.main)
      ensures |got| <= |sofar| + n && Memory(ram, Patch(mem, to, got)) && (ok ==> |got| == |sofar| + n)
      ensures ok ==> Signed(addr) + n <= Total(dev)
      ensures ok && b + n <= Total(dev) ==> Ready() && got == sofar + chip.st.main[b..b + n]
      ensures chip.health == Reliable && old(chip.st.busy) < TIMEOUT_WRDY ==>
        chip.st.busy < TIMEOUT_WRDY && (Signed(addr) + n <= Total(dev) ==> ok)
      ensures (b + n <= Total(dev) || Signed(addr) + n > Total(dev)) && Disciplined(dev, old(chip.trace)) ==>
        Disciplined(dev, chip.trace)
      ensures n <= 0x8000 ==> ReadsChunks(old(chip.trace), chip.trace)
    {
      hide Made, Memory, Disciplined, Patch, Sent, ReadOut, ReadsChunks, Pow2, Limit;
      got := sofar;
      ReadsNothing(chip.trace);
      ok := WaitRdy();
      if !ok {
        return;
      }
      var r;
      ghost var more;
      r, more := ContinuousRead(ram, addr, buffer, n, Patch(mem, to, sofar));
      PatchJoin(mem, to, sofar, more);
      got := sofar + more;
      ok := r == DATAFLASH_OK;
      if b + n <= Total(dev) {
        ReadOutInside(chip.st.main, b, n);
      }
    }

    /** The next n bytes of a read. */
    method ReadNext(ram: array<byte>, addr: nat, buffer: nat, n: nat, ghost from: nat, ghost done: nat,
                    ghost mem: seq<byte>, ghost to: nat, ghost sofar: seq<byte>)
      returns (ok: bool, ghost got: seq<byte>)
      requires Valid() && HasRead(Total(dev), chip.st, from, Alias(dev, from), done, sofar) && n > 0
      requires addr == from + done && addr < 0x1_0000_0000 && |sofar| == done
      requires buffer == to + done && buffer + n <= ram.Length == |mem| && Memory(ram, Patch(mem, to, sofar))
      modifies this, chip, ram
      ensures Valid() && dev == old(dev) && chip.st.main == old(chip.st.main)
      ensures |got| <= done + n && Memory(ram, Patch(mem, to, got))
      ensures ok ==> HasRead(Total(dev), chip.st, from, Alias(dev, from), done + n, got) && |got| == done + n
      ensures chip.health == Reliable && old(chip.st.busy) < TIMEOUT_WRDY ==>
        chip.st.busy < TIMEOUT_WRDY && (Signed(addr) + n <= Total(dev) ==> ok)
      ensures from < 0x8000_0000 || Alias(dev, from) + done + n <= Total(dev) ==>
        Disciplined(dev, old(chip.trace)) ==> Disciplined(dev, chip.trace)
      ensures n <= 0x8000 ==> ReadsChunks(old(chip.trace), chip.trace)
    {
      hide ReadsChunks, Made, Memory, Disciplined, Patch, Sent, Alias, HasRead, Pow2, Limit, Reach;
      ghost var a, total, st := Alias(dev, from), Total(dev), chip.st;
      PartIsSupported(chip.code, chip.dev);
      if from < total {
        AliasInside(dev, from);
      }
      if a + done + n <= total {
        ReadSame(dev, from, done, n);
      }
      NextIsInside(total, st, from, a, done, n, sofar);
      ok, got := ReadChunk(ram, addr, buffer, n, a + done, mem, to, sofar);
      if ok {
        ReadMore(total, st, chip.st, from, a, done, n, sofar, got);
      }
    }

    /** AT91F_DataFlashRead: in chunks of at most 0x8000 bytes, which the
        counters of the PDC can hold. */
    method Read(ram: array<byte>, from: nat, count: nat, to: nat, ghost mem: seq<byte>)
      returns (r: int, ghost got: seq<byte>)
      requires Valid() && to + count <= ram.Length == |mem| && Memory(ram, mem) && from + count <= 0x1_0000_0000
      modifies this, chip, ram
      ensures Valid() && dev == old(dev) && chip.st.main == old(chip.st.main)
      ensures |got| <= count && Memory(ram, Patch(mem, to, got))
      ensures r == DATAFLASH_OK || r == -1
      ensures r == DATAFLASH_OK && from < 0x8000_0000 ==> Ready() && (count == 0 || from + count <= Total(dev))
      ensures r == DATAFLASH_OK && Alias(dev, from) + count <= Total(dev) ==>
        got == chip.st.main[Alias(dev, from)..Alias(dev, from) + count]
      ensures r == DATAFLASH_OK && from + count <= Total(dev) ==> got == chip.st.main[from..from + count]
      ensures chip.health == Reliable && old(chip.st.busy) < TIMEOUT_WRDY ==>
        from + count <= Total(dev) || from >= 0x8000_0000 ==> r == DATAFLASH_OK
      ensures from < 0x8000_0000 || Alias(dev, from) + count <= Total(dev) ==>
        Disciplined(dev, old(chip.trace)) ==> Disciplined(dev, chip.trace)
      ensures ReadsChunks(old(chip.trace), chip.trace)
    {
      hide ReadsChunks, Made, Memory, Disciplined, Patch, Alias, HasRead, Pow2, Limit, Reach;
      got := [];
      PatchNothing(mem, to);
      ReadsNothing(chip.trace);
      var ok := WaitRdy();
      if !ok {
        return -1, got;
      }
      NothingRead(dev, chip.st, from, Alias(dev, from));
      var size: nat, addr: nat, buffer: nat := count, from, to;
      while size > 0
        invariant Valid() && dev == old(dev) && chip.st.main == old(chip.st.main)
        invariant size <= count && addr == from + (count - size) && buffer == to + (count - size)
        invariant |got| == count - size && Memory(ram, Patch(mem, to, got))
        invariant HasRead(Total(dev), chip.st, from, Alias(dev, from), count - size, got)
        invariant ReadsChunks(old(chip.trace), chip.trace)
        invariant from < 0x8000_0000 && size < count ==> addr <= Total(dev)
        invariant chip.health == Reliable && old(chip.st.busy) < TIMEOUT_WRDY ==> chip.st.busy < TIMEOUT_WRDY
        invariant from < 0x8000_0000 || Alias(dev, from) + count <= Total(dev) ==>
          Disciplined(dev, old(chip.trace)) ==> Disciplined(dev, chip.trace)
      {
        var sizeToRead: nat := if size < 0x8000 then size else 0x8000;
        ghost var before := chip.trace;
        ok, got := ReadNext(ram, addr, buffer, sizeToRead, from, count - size, mem, to, got);
        ReadsThen(old(chip.trace), before, chip.trace);
        if !ok {
          return -1, got;
        }
        AllRead(dev, chip.st, from, count - size + sizeToRead, got);
        size := size - sizeToRead;
        addr := addr + sizeToRead;
        buffer := buffer + sizeToRead;
      }
      AllRead(dev, chip.st, from, count, got);
      r := DATAFLASH_OK;
    }

    /** read_dataflash. A reliable chip accepts exactly the ranges inside the
        device and, besides, those at negative ints that pass the size test. */
    method ReadDataflash(addr: nat, size: nat, ram: array<byte>, result: nat, ghost mem: seq<byte>)
      returns (r: int, ghost got: seq<byte>)
      requires Valid() && addr < 0x1_0000_0000 && result + size <= ram.Length == |mem| && Memory(ram, mem)
      modifies this, chip, ram
      ensures Valid() && dev == old(dev) && chip.st.main == old(chip.st.main)
      ensures |got| <= size && Memory(ram, Patch(mem, result, got))
      ensures r == DATAFLASH_OK && addr < 0x8000_0000 ==> Ready() && (size == 0 || addr + size <= Total(dev))
      ensures r == DATAFLASH_OK && Alias(dev, addr) + size <= Total(dev) ==>
        got == chip.st.main[Alias(dev, addr)..Alias(dev, addr) + size]
      ensures r == DATAFLASH_OK && addr + size <= Total(dev) ==> got == chip.st.main[addr..addr + size]
      ensures chip.health == Reliable && old(chip.st.busy) < TIMEOUT_WRDY && addr + size <= Total(dev) ==>
        r == DATAFLASH_OK
      ensures chip.health == Reliable && old(chip.st.busy) < TIMEOUT_WRDY && size > 0 ==>
        (r == DATAFLASH_OK <==> addr + size <= Total(dev) || (addr >= 0x8000_0000 && SizeOk(dev, addr, size)))
      ensures addr < 0x8000_0000 || Alias(dev, addr) + size <= Total(dev) ==>
        Disciplined(dev, old(chip.trace)) ==> Disciplined(dev, chip.trace)
      ensures ReadsChunks(old(chip.trace), chip.trace)
    {
      hide Made, Memory, Disciplined, Patch, Alias, ReadsChunks, Pow2;
      ReadsNothing(chip.trace);
      PartIsSupported(chip.code, chip.dev);
      got := [];
      PatchNothing(mem, result);
      if !SizeOk(dev, addr, size) {
        return ERR_INVAL, got;
      }
      r, got := Read(ram, addr, size, result, mem);
    }

    /** write_dataflash. */
    method WriteDataflash(addrDest: nat, addrSrc: nat, size: nat, ram: array<byte>, ghost mem: seq<byte>)
      returns (r: int, ghost junk: seq<byte>, ghost failed: nat, ghost run: seq<Moment>)
      requires Valid() && addrDest < 0x1_0000_0000 && addrSrc + size <= ram.Length == |mem| && Memory(ram, mem)
      modifies this, chip, ram
      ensures Valid() && dev == old(dev) && |junk| <= size && Memory(ram, Patch(mem, addrSrc, junk))
      ensures if addrDest + size <= Total(dev) || (addrDest >= 0x8000_0000 && SizeOk(dev, addrDest, size)) then
                Performed(WritePlan(dev, addrDest, mem[addrSrc..addrSrc + size]), r == DATAFLASH_OK, run, old(chip.st),
                          old(chip.trace))
              else r != DATAFLASH_OK && chip.st == old(chip.st) && chip.trace == old(chip.trace)
      ensures addrDest + size <= Total(dev) ==>
        Wrote(addrDest, mem[addrSrc..addrSrc + size], r == DATAFLASH_OK, old(chip.st), old(chip.trace), failed)
      ensures addrDest >= 0x8000_0000 && SizeOk(dev, addrDest, size) && Alias(dev, addrDest) + size <= Total(dev) ==>
        Wrote(Alias(dev, addrDest), mem[addrSrc..addrSrc + size], r == DATAFLASH_OK, old(chip.st), old(chip.trace),
              failed)
    {
      hide Made, Memory, Disciplined, Patch, Ran, WritePlan, Ended, Confined, Alias, Pow2;
      PartIsSupported(chip.code, chip.dev);
      junk, failed, run := [], 0, [];
      PatchNothing(mem, addrSrc);
      if !SizeOk(dev, addrDest, size) {
        return ERR_INVAL, junk, failed, run;
      }
      if addrDest == 0xFFFF_FFFF {
        return -1, junk, failed, run;
      }
      r, junk, failed, run := Write(ram, addrSrc, addrDest, size, mem);
    }

    /** The chip is there; the driver may not know its geometry yet. */
    ghost predicate Attached()
      reads this, chip
    {
      chip.Valid() && |command| == 8
    }

    /** AT91F_DataflashInit: identify the chip from the status register. */
    method Init() returns (found: bool)
      requires Attached()
      modifies this, chip`st
      ensures Attached() && chip.st.main == old(chip.st.main) && chip.st.buffer == old(chip.st.buffer)
      ensures chip.st.busy <= old(chip.st.busy)
      ensures found ==> Valid()
      ensures chip.health == Reliable ==> found
    {
      PartIsSupported(chip.code, chip.dev);
      TableIsNarrow(chip.code);
      state := IDLE;
      dev := Device(0, dev.size, dev.offset, dev.mask);
      command := command[0 := DB_STATUS][1 := 0];
      var answer := chip.Status(command[0]);
      command := command[1 := answer];
      // bits 5 to 2
      var dfcode: byte := if command[1] == 0xFF then 0 else command[1] / 4 % 16 * 4;
      CodeBits(chip.code);
      if dfcode == 0 {
        return false;
      }
      status := IDLE;
      match DeviceOf(dfcode)
      case None => return false;
      case Some(d) =>
        dev := d;
        found := true;
    }
  }

  lemma TableIsNarrow(dfcode: byte)
    requires DeviceOf(dfcode).Some?
    ensures DeviceOf(dfcode).value.mask < 0x1_0000
  {
  }

  lemma CodeIsSmall(dfcode: byte)
    requires PartOf(dfcode).Some?
    ensures 0 < dfcode < 0x80
  {
  }

  /** Behind what was overwritten, the memory is as before. */
  lemma SliceBeyond(mem: seq<byte>, at: nat, junk: seq<byte>, i: nat, j: nat)
    requires at + |junk| <= i <= j <= |mem|
    ensures Patch(mem, at, junk)[i..j] == mem[i..j]
  {
  }

  lemma SliceJoin(mem: seq<byte>, a: nat, b: nat, c: nat)
    requires a <= b <= c <= |mem|
    ensures mem[a..b] + mem[b..c] == mem[a..c] && mem[a..c][..b - a] == mem[a..b]
  {
  }

  /** The device code is found in bits 5 to 2 of the status, busy or ready. */
  lemma CodeBits(dfcode: byte)
    requires DeviceOf(dfcode).Some?
    ensures dfcode / 4 % 16 * 4 == dfcode && (dfcode as int + 0x80) / 4 % 16 * 4 == dfcode as int
    ensures 0 < dfcode < 0x7F
  {
  }

  /** The first done bytes of a read were read: at the address from, which names
      b, in a device of total bytes. */
  ghost predicate HasRead(total: nat, st: Store, from: nat, b: nat, done: nat, got: seq<byte>) {
    |st.main| == total && |got| == done && (from < 0x8000_0000 && done > 0 ==> from + done <= total) &&
    (from < 0x8000_0000 || b + done <= total ==> st.busy == 0) &&
    (b + done <= total ==> got == st.main[b..b + done])
  }

  lemma NothingRead(d: Device, st: Store, from: nat, b: nat)
    requires Fits(d, st) && st.busy == 0
    ensures HasRead(Total(d), st, from, b, 0, [])
  {
  }

  /** What the next chunk asks of its address. */
  lemma NextIsInside(total: nat, st: Store, from: nat, b: nat, done: nat, n: nat, sofar: seq<byte>)
    requires HasRead(total, st, from, b, done, sofar) && total < 0x1000_0000 && n > 0
    requires from < total ==> b == from
    ensures from < 0x8000_0000 && from + done + n <= total ==> b == from
    ensures from < 0x8000_0000 && from + done < 0x1_0000_0000 && Signed(from + done) + n <= total ==>
      from + done + n <= total
    ensures from < 0x8000_0000 ==> from + done < 0x8000_0000
  {
  }

  lemma ReadMore(total: nat, st: Store, st': Store, from: nat, b: nat, done: nat, n: nat, sofar: seq<byte>,
                 got: seq<byte>)
    requires HasRead(total, st, from, b, done, sofar) && st'.main == st.main && |got| == done + n && n > 0
    requires b + done + n <= total ==>
      b + done + n <= |st.main| && st'.busy == 0 && got == sofar + st.main[b + done..b + done + n]
    requires from < 0x8000_0000 ==> from + done + n <= total && b == from
    ensures HasRead(total, st', from, b, done + n, got)
  {
    if b + done + n <= total {
      SliceJoin(st.main, b, b + done, b + done + n);
    }
  }

  lemma AllRead(d: Device, st: Store, from: nat, count: nat, got: seq<byte>)
    requires Addressable(d) && HasRead(Total(d), st, from, Alias(d, from), count, got)
    ensures |got| == count && |st.main| == Total(d)
    ensures from < 0x8000_0000 ==> st.busy == 0 && (count == 0 || from + count <= Total(d))
    ensures Alias(d, from) + count <= Total(d) ==> got == st.main[Alias(d, from)..Alias(d, from) + count]
    ensures from + count <= Total(d) ==> got == st.main[from..from + count]
  {
    hide Alias, Pow2, Limit, Reach;
    if from < Total(d) {
      AliasInside(d, from);
    }
  }

  /** What was added to a trace are reads of at most 0x8000 bytes; a read at a
      page that is not there is ignored. */
  ghost predicate ReadsChunks(before: seq<Event>, now: seq<Event>) {
    |before| <= |now| && now[..|before|] == before &&
    forall i :: |before| <= i < |now| ==>
      now[i].op.Ignored? || (now[i].op.ReadArray? && now[i].op.count <= 0x8000)
  }

  lemma ReadsNothing(trace: seq<Event>)
    ensures ReadsChunks(trace, trace)
  {
  }

  lemma ReadsOne(trace: seq<Event>, d: Device, src: nat, size: nat, e: Event)
    requires Addressable(d) && e.op == Sent(d, DB_CONTINUOUS_ARRAY_READ, src, size)
    ensures size <= 0x8000 ==> ReadsChunks(trace, trace + [e])
  {
    hide Pow2, Limit, Reach;
  }

  lemma ReadsThen(a: seq<Event>, b: seq<Event>, c: seq<Event>)
    requires ReadsChunks(a, b) && ReadsChunks(b, c)
    ensures ReadsChunks(a, c)
  {
    assert c[..|a|] == b[..|a|];
    forall i | |a| <= i < |c|
      ensures c[i].op.Ignored? || (c[i].op.ReadArray? && c[i].op.count <= 0x8000)
    {
      if i < |b| {
        assert c[i] == c[..|b|][i];
      }
    }
  }

  lemma LeftSplits(job: Job, done: nat, n: nat)
    requires job.source + job.count <= |job.mem| && done + n <= job.count
    ensures job.Left(done)[..n] == job.mem[job.source + done..job.source + done + n]
    ensures job.Left(done)[n..] == job.Left(done + n)
  {
  }

  lemma HeadThenRest(d: Device, a: nat, data: seq<byte>)
    requires Addressable(d)
    ensures var n := HeadLength(d, a, |data|);
            WritePlan(d, a, data) == HeadPlan(d, a, data) + RestPlan(d, a + n, data[n..])
  {
  }

  lemma NextIsWhole(d: Device, to: nat, job: Job, now: nat, sofar: seq<Op>)
    requires Addressable(d) && job.source + job.count <= |job.mem| && now + d.size <= job.count
    ensures sofar + RestPlan(d, to, job.Left(now))
         == sofar + WholePlan(d, to, job.mem[job.source + now..job.source + now + d.size])
            + RestPlan(d, to + d.size, job.Left(now + d.size))
  {
    hide WholePlan, PartPlan, Pow2, Limit;
    LeftSplits(job, now, d.size);
    var chunk := WholePlan(d, to, job.mem[job.source + now..job.source + now + d.size]);
    var rest := RestPlan(d, to + d.size, job.Left(now + d.size));
    assert sofar + (chunk + rest) == sofar + chunk + rest;
  }

  lemma LastIsPart(d: Device, to: nat, job: Job, now: nat, sofar: seq<Op>)
    requires Addressable(d) && job.source + job.count <= |job.mem| && now <= job.count < now + d.size
    ensures sofar + RestPlan(d, to, job.Left(now))
         == if now >= job.count then sofar
            else sofar + PartPlan(d, to, job.mem[job.source + now..job.source + job.count])
  {
    hide WholePlan, PartPlan, Pow2, Limit;
  }

  /** What a write may do to the chip, for a range inside the device: from a
      chip at rest that is not worn it ends in one of two ways; from any chip it
      keeps to its pages; and a reliable chip always gets to the end. */
  ghost predicate WriteOutcome(d: Device, health: Health, st: Store, dest: nat, data: seq<byte>, ok: bool, st': Store,
                               p: nat)
    requires d.size >= 1
  {
    Confined(d, st.main, st'.main, dest, |data|) &&
    (st.busy == 0 && health != Worn ==> Ended(d, st.main, dest, data, ok, st'.main, p)) &&
    (st.busy == 0 && ok ==> st'.busy == 0) && (health == Reliable ==> ok)
  }

  lemma WriteConclusion(d: Device, health: Health, st: Store, dest: nat, data: seq<byte>, ok: bool, run: seq<Moment>,
                        st': Store, trace: seq<Event>) returns (p: nat)
    requires Addressable(d) && dest + |data| <= Total(d) && (health == Reliable ==> ok)
    requires Ran(d, health, st, WritePlan(d, dest, data), ok, run, st')
    ensures WriteOutcome(d, health, st, dest, data, ok, st', p)
    ensures Disciplined(d, trace) ==>
      (Disciplined(d, trace + Events(run)) <==> st.busy == 0 || trace + Events(run) == trace)
  {
    hide WritePlan, Disciplined, Ended, Confined, Pow2, Limit, Happens;
    p := 0;
    WriteIsConfined(d, health, st, dest, data, ok, run, st');
    WritePlanFits(d, dest, data);
    if st.busy == 0 && health != Worn {
      p := WriteEnds(d, health, st, dest, data, ok, run, st');
    }
    if Disciplined(d, trace) {
      RunDiscipline(d, health, st, WritePlan(d, dest, data), ok, run, st', trace);
      NoEvents(trace, run);
    }
  }

  lemma NoEvents(trace: seq<Event>, run: seq<Moment>)
    ensures trace + Events(run) == trace <==> run == []
  {
    assert |trace + Events(run)| == |trace| + |run|;
  }

  lemma RanNothing(d: Device, health: Health, st: Store, trace: seq<Event>)
    requires Fits(d, st)
    ensures Ran(d, health, st, [], true, [], st) && trace + Events([]) == trace
  {
  }

  lemma SentReads(d: Device, a: nat, count: nat)
    requires Addressable(d)
    ensures var op := Sent(d, DB_CONTINUOUS_ARRAY_READ, a, count);
            (op.Ignored? || (op.ReadArray? && op.count == count)) && (a < Total(d) ==> op == ReadArray(a, count))
  {
    hide Pow2, Limit, Reach;
    if a < Total(d) {
      SentInside(d, DB_CONTINUOUS_ARRAY_READ, a, count);
    }
  }

  lemma ReadOutcome(d: Device, health: Health, st: Store, op: Op, st': Store, ok: bool, back: seq<byte>)
    requires Fits(d, st) && (op.ReadArray? || op.Ignored?) && Outcome(d, health, st, op, st', ok, back)
    ensures st'.main == st.main
    ensures ok && st.busy == 0 && op.ReadArray? ==> st'.busy == 0 && back == ReadOut(st.main, op.from, op.count)
  {
    hide ReadOut;
  }
}
