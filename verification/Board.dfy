/** The commands of the boot loader, over one memory that holds all its
    buffers: the received image, the copy to verify against, the compressed
    image read back, and the unpacked u-boot. */
module Board {
  import opened Bytes
  import opened Copying
  import opened Geometry
  import opened FlashChip
  import opened FlashTheory
  import opened FlashRuns
  import opened FlashWrites
  import opened DataFlash
  import opened Boot
  import opened Xmodem
  import opened XmodemReceiver
  import Crc
  import CrcLoop
  import Image
  import ImageDecoder

  const SCRATCH := 0
  const VERIFY := 0x80_0000
  const COMPR := 0x1E0_0000
  const START := 0x1F0_0000
  const RAM_SIZE := 0x200_0000

  /** How storing to the flash ended. */
  datatype Report = NotFound | WriteFailed(rc: int) | VerifyFailed | Stored

  /** What the flash may hold after an attempt to store data at dst: nothing
      changed, all stored, or the write stopped at page p. */
  ghost predicate Attempted(d: Device, main: seq<byte>, dst: nat, data: seq<byte>, now: seq<byte>, p: nat) {
    now == main ||
    (dst + |data| <= |main| &&
     (now == Patch(main, dst, data) ||
      (WrittenUpTo(d, main, Patch(main, dst, data), now, p) && OnTheWay(d, p, dst, |data|))))
  }

  /** What storing data at dst may lead to. Success is only reported when the
      flash holds the data, and only the pages of the data may change, whatever
      the chip is like. If it is at rest and not worn nothing else changes, and
      if it is reliable, too, it succeeds. */
  ghost predicate StoreOutcome(d: Device, health: Health, resting: bool, main: seq<byte>, dst: nat, data: seq<byte>,
                               rep: Report, now: seq<byte>, p: nat)
    requires d.size >= 1
  {
    |now| == |main| == Total(d) &&
    (rep == Stored && data != [] ==> dst + |data| <= |main|) &&
    (dst + |data| > |main| ==> now == main) &&
    (dst + |data| <= |main| ==>
       Confined(d, main, now, dst, |data|) && (rep == Stored ==> now[dst..dst + |data|] == data) &&
       (rep == Stored && resting && health != Worn ==> now == Patch(main, dst, data)) &&
       (resting && health == Reliable ==> rep == Stored)) &&
    (resting && health != Worn ==> Attempted(d, main, dst, data, now, p))
  }

  /** How an upload ended: the line fell silent, the image was not accepted, or
      it was handed to the flash. */
  datatype Upload = Hung | ImageError | Tried(rep: Report)

  /** What upload_uboot accepts. */
  predicate UbootImageOk(s: seq<byte>) {
    MIN_IMAGE_SIZE < |s| <= UBOOT_LEN - UBOOT_HDR_SIZE && s[0] == Image.LETTER_Z && s[1] == Image.LETTER_V
  }

  /** Memory after the header words for an image were put in place. */
  function WithHeader(mem: seq<byte>, image: seq<byte>): (r: seq<byte>)
    requires |mem| >= UBOOT_HDR_SIZE && |image| < 0x1_0000_0000
    ensures |r| == |mem|
  {
    Patch(Patch(mem, SCRATCH, Word(|image|)), SCRATCH + 4, CheckWord(Crc.Crc16(image)))
  }

  /** The vector table a loader image starts with: a branch, then seven loads
      of the program counter. */
  predicate VectorsOk(s: seq<byte>)
    requires |s| >= 32
  {
    s[3] == 0xEA && forall i :: 1 <= i < 8 ==> s[4 * i + 3] == 0xE5 && s[4 * i + 2] == 0x9F && s[4 * i + 1] / 16 == 0xF
  }

  predicate LoaderImageOk(s: seq<byte>) {
    MIN_IMAGE_SIZE < |s| < LOADER_LEN && VectorsOk(s)
  }

  /** The geometry for the boot ROM, in the slot of vector 6. */
  const GEOMETRY_SLOT := 0x14
  const GEOMETRY := 528 * 0x2_0000 + 12 * 0x2000 + 24

  function LoaderRecord(s: seq<byte>): (r: seq<byte>)
    requires GEOMETRY_SLOT + 4 <= |s|
    ensures |r| == |s|
  {
    Patch(s, GEOMETRY_SLOT, Word(GEOMETRY))
  }

  /** What an upload of an image leads to: when it is accepted, its record is
      stored; otherwise the flash is left alone. */
  ghost predicate UploadOutcome(d: Device, health: Health, resting: bool, main: seq<byte>, received: Reception,
                                accepted: bool, dst: nat, data: seq<byte>, res: Upload, now: seq<byte>, p: nat)
    requires d.size >= 1
  {
    if received.Complete? && accepted then
      res.Tried? && StoreOutcome(d, health, resting, main, dst, data, res.rep, now, p)
    else res == (if received.Waiting? then Hung else ImageError) && now == main
  }

  /** How an attempt to start u-boot ended. */
  datatype BootReport = FlashNotFound | ReadFailed | Checked(outcome: Outcome)

  class Board {
    const flash: DataFlash
    const ram: array<byte>

    constructor (flash: DataFlash, ram: array<byte>)
      requires ram.Length == RAM_SIZE
      ensures this.flash == flash && this.ram == ram
    {
      this.flash, this.ram := flash, ram;
    }

    ghost predicate Valid()
      reads this, flash, flash.chip
    {
      flash.Attached() && ram.Length == RAM_SIZE
    }

    /** Nothing is going on in the flash chip. */
    ghost predicate Quiet()
      reads this, flash, flash.chip
    {
      Valid() && flash.chip.st.busy == 0
    }

    /** flash_verify: read back over the source buffer, and compare with the
        copy. */
    method FlashVerify(addr: nat, len: nat, ghost mem: seq<byte>) returns (ok: bool, ghost mem': seq<byte>)
      requires Valid() && flash.Valid() && addr < 0x8000_0000 && len <= VERIFY && |mem| == RAM_SIZE && Memory(ram, mem)
      modifies flash, flash.chip, ram
      ensures Valid() && flash.chip.st.main == old(flash.chip.st.main)
      ensures |mem'| == RAM_SIZE && Memory(ram, mem')
      ensures ok ==> Quiet() && (len == 0 || addr + len <= Total(flash.chip.dev))
      ensures ok && addr + len <= Total(flash.chip.dev) ==>
        flash.chip.st.main[addr..addr + len] == mem[VERIFY..VERIFY + len]
      ensures var inside := addr + len <= Total(flash.chip.dev);
        flash.chip.health == Reliable && old(flash.chip.st.busy) < TIMEOUT_WRDY && inside ==>
        (ok <==> flash.chip.st.main[addr..addr + len] == mem[VERIFY..VERIFY + len])
      ensures Disciplined(flash.chip.dev, old(flash.chip.trace)) ==> Disciplined(flash.chip.dev, flash.chip.trace)
    {
      hide Made, Memory, Patch, Disciplined, ReadsChunks, Alias, SizeOk;
      var r;
      ghost var got;
      r, got := flash.ReadDataflash(addr, len, ram, SCRATCH, mem);
      mem' := Patch(mem, SCRATCH, got);
      if r != DATAFLASH_OK {
        return false, mem';
      }
      ok := Compare(VERIFY, SCRATCH, len, mem');
      if addr + len <= Total(flash.chip.dev) {
        SliceBeyond(mem, SCRATCH, got, VERIFY, VERIFY + len);
        SliceOfPatch(mem, SCRATCH, got);
      }
    }

    /** The comparison loop. */
    method Compare(a: nat, b: nat, len: nat, ghost mem: seq<byte>) returns (same: bool)
      requires a + len <= ram.Length == |mem| && b + len <= |mem| && Memory(ram, mem)
      ensures same <==> mem[a..a + len] == mem[b..b + len]
    {
      assert ram[..] == mem;
      for i := 0 to len
        invariant mem[a..a + i] == mem[b..b + i]
      {
        assert mem[a..a + i + 1] == mem[a..a + i] + [ram[a + i]];
        assert mem[b..b + i + 1] == mem[b..b + i] + [ram[b + i]];
        if ram[a + i] != ram[b + i] {
          assert mem[a..a + len][i] != mem[b..b + len][i];
          return false;
        }
      }
      same := true;
    }

    /** The first part of flash_store: save a copy, and write. */
    method SaveAndWrite(dst: nat, len: nat, ghost mem: seq<byte>)
      returns (rc: int, ghost mem': seq<byte>, ghost failed: nat)
      requires flash.Valid() && Valid() && dst < 0x8000_0000 && len <= VERIFY && |mem| == RAM_SIZE && Memory(ram, mem)
      modifies flash, flash.chip, ram
      ensures flash.Valid() && |mem'| == RAM_SIZE && Memory(ram, mem') && mem'[VERIFY..VERIFY + len] == mem[..len]
      ensures dst + len > Total(flash.dev) ==>
        rc != DATAFLASH_OK && flash.chip.st == old(flash.chip.st) && flash.chip.trace == old(flash.chip.trace)
      ensures dst + len <= Total(flash.dev) ==>
        WriteOutcome(flash.dev, flash.chip.health, old(flash.chip.st), dst, mem[..len], rc == DATAFLASH_OK,
                     flash.chip.st, failed)
        && (old(flash.chip.st.busy) == 0 && Disciplined(flash.dev, old(flash.chip.trace)) ==>
              Disciplined(flash.dev, flash.chip.trace))
    {
      hide Made, Memory, Patch, Disciplined, WriteOutcome, Ran;
      ghost var image := mem[..len];
      assert mem[SCRATCH..SCRATCH + len] == image;
      Memcpy(ram, VERIFY, SCRATCH, len, mem);
      ghost var saved := Patch(mem, VERIFY, image);
      SliceBefore(mem, VERIFY, image, SCRATCH, SCRATCH + len);
      SliceOfPatch(mem, VERIFY, image);
      ghost var junk, run;
      rc, junk, failed, run := flash.WriteDataflash(dst, SCRATCH, len, ram, saved);
      mem' := Patch(saved, SCRATCH, junk);
      SliceBeyond(saved, SCRATCH, junk, VERIFY, VERIFY + len);
    }

    /** flash_store: write the image in the scratch memory to the flash, and
        verify it against a copy, because writing destroys the source. */
    method FlashStore(dst: nat, len: nat, ghost mem: seq<byte>)
      returns (rep: Report, ghost mem': seq<byte>, ghost failed: nat)
      requires Valid() && dst < 0x8000_0000 && len <= VERIFY && |mem| == RAM_SIZE && Memory(ram, mem)
      modifies flash, flash.chip, ram
      ensures Valid() && |mem'| == RAM_SIZE && Memory(ram, mem')
      ensures rep == Stored ==> Quiet()
      ensures StoreOutcome(flash.chip.dev, flash.chip.health, old(flash.chip.st.busy) == 0, old(flash.chip.st.main),
                           dst, mem[..len], rep, flash.chip.st.main, failed)
      ensures old(flash.chip.st.busy) == 0 && Disciplined(flash.chip.dev, old(flash.chip.trace)) ==>
        Disciplined(flash.chip.dev, flash.chip.trace)
    {
      hide Made, Memory, Patch, Disciplined, Ended, Confined, StoreOutcome;
      ghost var image, main0, d, health := mem[..len], flash.chip.st.main, flash.chip.dev, flash.chip.health;
      ghost var resting := flash.chip.st.busy == 0;
      mem', failed := mem, 0;
      var found := flash.Init();
      if !found {
        NothingStored(d, health, resting, main0, dst, image, NotFound, failed);
        return NotFound, mem', failed;
      }
      var rc;
      rc, mem', failed := SaveAndWrite(dst, len, mem);
      if rc != DATAFLASH_OK {
        NotWritten(d, health, resting, main0, dst, image, rc, flash.chip.st.main, failed);
        return WriteFailed(rc), mem', failed;
      }
      ghost var written := flash.chip.st.main;
      var ok;
      ok, mem' := FlashVerify(dst, len, mem');
      rep := if ok then Stored else VerifyFailed;
      Written(d, health, resting, main0, dst, image, rep, written, failed);
    }

    /** upload_uboot: receive the packed u-boot behind the place of the header,
        put the header before it, and store both. */
    method UploadUboot(uart: Uart, ghost mem: seq<byte>) returns (res: Upload, ghost mem': seq<byte>, ghost failed: nat)
      requires Valid() && |mem| == RAM_SIZE && Memory(ram, mem)
      modifies flash, flash.chip, ram, uart
      ensures Valid() && |mem'| == RAM_SIZE && Memory(ram, mem')
      ensures if res.Tried? then res.rep == Stored ==> Quiet() else flash.chip.st == old(flash.chip.st)
      ensures var received := Receive(old(uart.rx), 1, UBOOT_LEN - UBOOT_HDR_SIZE);
              var image := if received.Complete? then received.data else [];
              UploadOutcome(flash.chip.dev, flash.chip.health, old(flash.chip.st.busy) == 0, old(flash.chip.st.main),
                            received, UbootImageOk(image), UBOOT_BASE, Record(image), res, flash.chip.st.main, failed)
      ensures old(flash.chip.st.busy) == 0 && Disciplined(flash.chip.dev, old(flash.chip.trace)) ==>
        Disciplined(flash.chip.dev, flash.chip.trace)
    {
      hide Made, Memory, Patch, Disciplined, StoreOutcome, Receive, Record, WithHeader, Accepted, Acks;
      failed := 0;
      var r;
      ghost var written;
      r, written := Rxmodem(uart, ram, SCRATCH + UBOOT_HDR_SIZE, UBOOT_LEN - UBOOT_HDR_SIZE, mem);
      mem' := Patch(mem, SCRATCH + UBOOT_HDR_SIZE, written);
      if r == None {
        return Hung, mem', failed;
      }
      var len := r.value;
      if !(MIN_IMAGE_SIZE < len <= UBOOT_LEN - UBOOT_HDR_SIZE) {
        return ImageError, mem', failed;
      }
      ghost var image := written[..len];
      StoredSlice(mem, UBOOT_HDR_SIZE, written, 0, len);
      assert written[0..len] == image;
      var received := Slice(UBOOT_HDR_SIZE, UBOOT_HDR_SIZE + len, mem');
      if received[0] != Image.LETTER_Z || received[1] != Image.LETTER_V {
        return ImageError, mem', failed;
      }
      PutHeader(received, mem');
      mem' := WithHeader(mem', received);
      RecordInMemory(mem, written, image);
      var rep;
      rep, mem', failed := FlashStore(UBOOT_BASE, UBOOT_HDR_SIZE + len, mem');
      res := Tried(rep);
    }

    /** The two header words before the image. */
    method PutHeader(image: seq<byte>, ghost mem: seq<byte>)
      requires ram.Length == |mem| >= UBOOT_HDR_SIZE && Memory(ram, mem) && |image| < 0x1_0000_0000
      modifies ram
      ensures Memory(ram, WithHeader(mem, image))
    {
      hide Made, Memory, Patch, Crc.Crc16, CheckWord, Word;
      StoreBytes(ram, SCRATCH, Word(|image|), mem);
      var crc := CrcLoop.Crc16Ccitt(image);
      StoreBytes(ram, SCRATCH + 4, CheckWord(crc), Patch(mem, SCRATCH, Word(|image|)));
    }

    /** upload_loader: receive a loader image, put the flash geometry into its
        vector table, and store it. */
    method UploadLoader(uart: Uart, ghost mem: seq<byte>)
      returns (res: Upload, ghost mem': seq<byte>, ghost failed: nat)
      requires Valid() && |mem| == RAM_SIZE && Memory(ram, mem)
      modifies flash, flash.chip, ram, uart
      ensures Valid() && |mem'| == RAM_SIZE && Memory(ram, mem')
      ensures if res.Tried? then res.rep == Stored ==> Quiet() else flash.chip.st == old(flash.chip.st)
      ensures var received := Receive(old(uart.rx), 1, LOADER_LEN);
              var accepted := received.Complete? && LoaderImageOk(received.data);
              UploadOutcome(flash.chip.dev, flash.chip.health, old(flash.chip.st.busy) == 0, old(flash.chip.st.main),
                            received, accepted, LOADER_BASE, if accepted then LoaderRecord(received.data) else [],
                            res, flash.chip.st.main, failed)
      ensures old(flash.chip.st.busy) == 0 && Disciplined(flash.chip.dev, old(flash.chip.trace)) ==>
        Disciplined(flash.chip.dev, flash.chip.trace)
    {
      hide Made, Memory, Patch, Disciplined, StoreOutcome, Receive, Accepted, Acks, VectorsOk;
      failed := 0;
      var r;
      ghost var written;
      r, written := Rxmodem(uart, ram, SCRATCH, LOADER_LEN, mem);
      mem' := Patch(mem, SCRATCH, written);
      if r == None {
        return Hung, mem', failed;
      }
      var len := r.value;
      if !(MIN_IMAGE_SIZE < len < LOADER_LEN) {
        return ImageError, mem', failed;
      }
      ghost var image := written[..len];
      StoredSlice(mem, SCRATCH, written, 0, len);
      assert written[0..len] == image;
      var received := Slice(SCRATCH, SCRATCH + len, mem');
      var ok := CheckVectors(received);
      if !ok {
        return ImageError, mem', failed;
      }
      StoreBytes(ram, SCRATCH + GEOMETRY_SLOT, Word(GEOMETRY), mem');
      ghost var mem1 := mem';
      mem' := Patch(mem', SCRATCH + GEOMETRY_SLOT, Word(GEOMETRY));
      LoaderInMemory(mem1, image);
      var rep;
      rep, mem', failed := FlashStore(LOADER_BASE, len, mem');
      res := Tried(rep);
    }

    /** loader_image_ok: the vector words, one by one, under their masks. */
    static method CheckVectors(img: seq<byte>) returns (ok: bool)
      requires |img| >= 32
      ensures ok <==> VectorsOk(img)
    {
      hide WordAt;
      TopOfWord(img, 0);
      if WordAt(img, 0) / 0x100_0000 != 0xEA {
        return false;
      }
      for i := 1 to 8
        invariant forall j :: 1 <= j < i ==>
          img[4 * j + 3] == 0xE5 && img[4 * j + 2] == 0x9F && img[4 * j + 1] / 16 == 0xF
      {
        TopOfWord(img, 4 * i);
        if WordAt(img, 4 * i) / 0x1000 != 0xE59FF {
          return false;
        }
      }
      ok := true;
    }

    /** erase_flash, after the question was answered: store all ones. */
    method EraseFlash(confirmed: bool, ghost mem: seq<byte>)
      returns (rep: Option<Report>, ghost mem': seq<byte>, ghost failed: nat)
      requires Valid() && |mem| == RAM_SIZE && Memory(ram, mem)
      modifies flash, flash.chip, ram
      ensures Valid() && |mem'| == RAM_SIZE && Memory(ram, mem')
      ensures rep.Some? <==> confirmed
      ensures rep == Some(Stored) ==> Quiet()
      ensures if confirmed then
                StoreOutcome(flash.chip.dev, flash.chip.health, old(flash.chip.st.busy) == 0, old(flash.chip.st.main),
                             LOADER_BASE, Filled(TOTAL_LEN, 0xFF), rep.value, flash.chip.st.main, failed)
              else flash.chip.st == old(flash.chip.st)
      ensures old(flash.chip.st.busy) == 0 && Disciplined(flash.chip.dev, old(flash.chip.trace)) ==>
        Disciplined(flash.chip.dev, flash.chip.trace)
    {
      hide Made, Memory, Patch, Disciplined, StoreOutcome;
      mem', failed := mem, 0;
      if !confirmed {
        return None, mem', failed;
      }
      Fill(SCRATCH, TOTAL_LEN, 0xFF, mem);
      mem' := Patch(mem, SCRATCH, Filled(TOTAL_LEN, 0xFF));
      SliceOfPatch(mem, SCRATCH, Filled(TOTAL_LEN, 0xFF));
      assert mem'[SCRATCH..SCRATCH + TOTAL_LEN] == mem'[..TOTAL_LEN];
      var r;
      r, mem', failed := FlashStore(LOADER_BASE, TOTAL_LEN, mem');
      rep := Some(r);
    }

    /** The loop that writes the same word all over a region. */
    method Fill(at: nat, n: nat, b: byte, ghost mem: seq<byte>)
      requires at + n <= ram.Length == |mem| && n % 4 == 0 && Memory(ram, mem)
      modifies ram
      ensures Memory(ram, Patch(mem, at, Filled(n, b)))
    {
      assert ram[..] == mem;
      var i := 0;
      while i < n
        invariant 0 <= i <= n && i % 4 == 0
        invariant forall j :: at <= j < at + i ==> ram[j] == b
        invariant forall j :: 0 <= j < ram.Length && !(at <= j < at + i) ==> ram[j] == mem[j]
      {
        ram[at + i], ram[at + i + 1], ram[at + i + 2], ram[at + i + 3] := b, b, b, b;
        i := i + 4;
      }
      assert ram[..] == Patch(mem, at, Filled(n, b));
    }

    /** boot_uboot up to the jump: read the u-boot region, check the header and
        the CRC, and unpack the image to the place where it is started. */
    method BootUboot(ghost mem: seq<byte>) returns (b: BootReport, ghost mem': seq<byte>)
      requires Valid() && |mem| == RAM_SIZE && Memory(ram, mem)
      modifies flash, flash.chip, ram
      ensures Valid() && |mem'| == RAM_SIZE && Memory(ram, mem') && flash.chip.st.main == old(flash.chip.st.main)
      ensures b.Checked? ==> Quiet() && ENV_END <= Total(flash.chip.dev)
      ensures b.Checked? ==> b.outcome == BootResult(flash.chip.st.main[UBOOT_BASE..ENV_BASE])
      ensures forall data :: b.Checked? ==>
        (b.outcome == Boots(data) <==> HoldsBootable(flash.chip.st.main[UBOOT_BASE..ENV_BASE], data))
      ensures b.Checked? && b.outcome.Boots? ==>
        |b.outcome.image| <= UBOOT_MAX_SIZE && mem'[START..START + |b.outcome.image|] == b.outcome.image
      ensures flash.chip.health == Reliable && old(flash.chip.st.busy) < TIMEOUT_WRDY ==> b.Checked?
      ensures Disciplined(flash.chip.dev, old(flash.chip.trace)) ==> Disciplined(flash.chip.dev, flash.chip.trace)
    {
      hide Made, Memory, Patch, Disciplined, BootResult, HoldsBootable, ReadsChunks, Alias, SizeOk;
      PartIsSupported(flash.chip.code, flash.chip.dev);
      mem' := mem;
      var found := flash.Init();
      if !found {
        return FlashNotFound, mem';
      }
      var r;
      ghost var got;
      r, got := flash.ReadDataflash(UBOOT_BASE, UBOOT_LEN, ram, COMPR, mem);
      mem' := Patch(mem, COMPR, got);
      if r != DATAFLASH_OK {
        return ReadFailed, mem';
      }
      SliceOfPatch(mem, COMPR, got);
      var region := Slice(COMPR, COMPR + UBOOT_LEN, mem');
      var outcome;
      outcome, mem' := CheckAndUnpack(region, mem');
      b := Checked(outcome);
    }

    /** The checks on the region, and the unpacking. */
    method CheckAndUnpack(region: seq<byte>, ghost mem: seq<byte>) returns (o: Outcome, ghost mem': seq<byte>)
      requires |region| == UBOOT_LEN && ram.Length == |mem| == RAM_SIZE && Memory(ram, mem)
      modifies ram
      ensures |mem'| == RAM_SIZE && Memory(ram, mem')
      ensures o == BootResult(region)
      ensures forall data :: o == Boots(data) <==> HoldsBootable(region, data)
      ensures o.Boots? ==> |o.image| <= UBOOT_MAX_SIZE && mem'[START..START + |o.image|] == o.image
    {
      hide Made, Memory, Patch, Image.Run, Crc.Crc16, Crc.Received, Crc.Remainder, Crc.Message, HoldsBootable;
      mem' := mem;
      forall data
        ensures BootResult(region) == Boots(data) <==> HoldsBootable(region, data)
      {
        BootsDecides(region, data);
      }
      var l := Signed(WordAt(region, 0));
      var w := WordAt(region, 4);
      HalvesOfWord(region, 4);
      if w / 0x1_0000 != UBOOT_HDR_MAGIC {
        return BadHeader, mem';
      }
      if l < UBOOT_MINLEN || l > UBOOT_LEN - UBOOT_HDR_SIZE {
        return BadLength, mem';
      }
      var image := region[UBOOT_HDR_SIZE..UBOOT_HDR_SIZE + l];
      var crc := CrcLoop.Crc16Ccitt(image);
      if crc != Crc.Received(region[5], region[4]) {
        return BadCrc, mem';
      }
      var size;
      ghost var output, behind;
      size, output, behind := ImageDecoder.DecompressImage(ram, START, image, UBOOT_MAX_SIZE, mem);
      mem' := Patch(mem, START, output);
      if size == 0 {
        return BadImage, mem';
      }
      SliceOfPatch(mem, START, output);
      var data := Slice(START, START + size, mem');
      o := Boots(data);
    }

    /** The bytes of a region. */
    method Slice(from: nat, to: nat, ghost mem: seq<byte>) returns (s: seq<byte>)
      requires from <= to <= ram.Length == |mem| && Memory(ram, mem)
      ensures s == mem[from..to]
    {
      s := ram[from..to];
    }
  }

  /** The masked upper bits of a word are its upper bytes. */
  lemma TopOfWord(s: seq<byte>, at: nat)
    requires at + 4 <= |s|
    ensures WordAt(s, at) / 0x100_0000 == 0xEA <==> s[at + 3] == 0xEA
    ensures WordAt(s, at) / 0x1000 == 0xE59FF <==> s[at + 3] == 0xE5 && s[at + 2] == 0x9F && s[at + 1] / 16 == 0xF
  {
  }

  lemma LoaderInMemory(mem: seq<byte>, image: seq<byte>)
    requires GEOMETRY_SLOT + 4 <= |image| <= |mem| && image == mem[0..|image|]
    ensures Patch(mem, GEOMETRY_SLOT, Word(GEOMETRY))[..|image|] == LoaderRecord(image)
  {
    hide Word;
  }

  /** The upper half of a word is its last two bytes. */
  lemma HalvesOfWord(s: seq<byte>, at: nat)
    requires at + 4 <= |s|
    ensures WordAt(s, at) / 0x1_0000 == HalfAt(s, at + 2)
  {
  }

  lemma NothingStored(d: Device, health: Health, resting: bool, main: seq<byte>, dst: nat, data: seq<byte>,
                      rep: Report, p: nat)
    requires d.size >= 1 && |main| == Total(d) && rep != Stored && health != Reliable
    ensures StoreOutcome(d, health, resting, main, dst, data, rep, main, p)
  {
    hide Patch, WrittenUpTo, OnTheWay;
  }

  lemma NotWritten(d: Device, health: Health, resting: bool, main: seq<byte>, dst: nat, data: seq<byte>, rc: int,
                   now: seq<byte>, p: nat)
    requires d.size >= 1 && |main| == |now| == Total(d)
    requires dst + |data| > |main| ==> now == main
    requires dst + |data| <= |main| ==> health != Reliable && Confined(d, main, now, dst, |data|)
    requires dst + |data| <= |main| && resting && health != Worn ==> Ended(d, main, dst, data, false, now, p)
    ensures StoreOutcome(d, health, resting, main, dst, data, WriteFailed(rc), now, p)
  {
    hide Patch, WrittenUpTo, OnTheWay, Confined;
  }

  lemma Written(d: Device, health: Health, resting: bool, main: seq<byte>, dst: nat, data: seq<byte>, rep: Report,
                now: seq<byte>, p: nat)
    requires d.size >= 1 && |main| == |now| == Total(d) && dst + |data| <= |main|
    requires rep == Stored || rep == VerifyFailed
    requires Confined(d, main, now, dst, |data|)
    requires resting && health != Worn ==> Ended(d, main, dst, data, true, now, p)
    requires rep == Stored ==> now[dst..dst + |data|] == data
    requires resting && health == Reliable && now[dst..dst + |data|] == data ==> rep == Stored
    ensures StoreOutcome(d, health, resting, main, dst, data, rep, now, p)
  {
    hide Patch, WrittenUpTo, OnTheWay, Confined;
    SliceOfPatch(main, dst, data);
  }

  /** The header words and the received image make up the record. */
  lemma RecordInMemory(mem: seq<byte>, written: seq<byte>, image: seq<byte>)
    requires UBOOT_HDR_SIZE + |written| <= |mem| && |image| <= |written| && image == written[..|image|]
    requires |image| < 0x1_0000_0000
    ensures WithHeader(Patch(mem, UBOOT_HDR_SIZE, written), image)[..UBOOT_HDR_SIZE + |image|] == Record(image)
  {
    hide Word, CheckWord, Crc.Crc16, Patch;
    var h, c, end := Word(|image|), CheckWord(Crc.Crc16(image)), UBOOT_HDR_SIZE + |image|;
    var m0 := Patch(mem, UBOOT_HDR_SIZE, written);
    var m1 := Patch(m0, 0, h);
    var m2 := Patch(m1, 4, c);
    SliceOfPatch(m0, 0, h);
    SliceBefore(m1, 4, c, 0, 4);
    SliceOfPatch(m1, 4, c);
    SliceBeyond(m1, 4, c, UBOOT_HDR_SIZE, end);
    SliceBeyond(m0, 0, h, UBOOT_HDR_SIZE, end);
    StoredSlice(mem, UBOOT_HDR_SIZE, written, 0, |image|);
    JoinParts(m2, 4, UBOOT_HDR_SIZE, end);
  }

  lemma JoinParts(s: seq<byte>, i: nat, j: nat, k: nat)
    requires i <= j <= k <= |s|
    ensures s[..k] == s[0..i] + s[i..j] + s[j..k]
  {
  }

  lemma SliceBefore(mem: seq<byte>, at: nat, data: seq<byte>, i: nat, j: nat)
    requires i <= j <= at && at + |data| <= |mem|
    ensures Patch(mem, at, data)[i..j] == mem[i..j]
  {
  }
}
