/** From the serial line to the running u-boot: what an upload followed by a
    start leads to. */
module Pipeline {
  import opened Bytes
  import opened Geometry
  import opened FlashChip
  import opened FlashTheory
  import opened Boot
  import opened Board
  import opened Xmodem
  import XmodemReceiver
  import Image

  /** An image that stands for anything starts with the letters that an upload
      asks for. */
  lemma MeaningStartsBlock(image: seq<byte>, data: seq<byte>)
    requires Image.Means(image, data) && data != []
    ensures Image.StartsBlock(image)
  {
    hide Image.Means, Image.ReadBlock, Image.StartsBlock;
    Image.RunDecides(image, data, |data|);
    if !Image.StartsBlock(image) {
      Image.RunTail(image, [], |data|);
    }
  }

  /** Hence an image of the right size that boots is also accepted. */
  lemma BootableIsAccepted(image: seq<byte>, data: seq<byte>)
    requires Bootable(image, data) && |image| <= UBOOT_LEN - UBOOT_HDR_SIZE
    ensures UbootImageOk(image)
  {
    hide Image.Means;
    MeaningStartsBlock(image, data);
  }

  lemma TailIsShort(padding: seq<byte>)
    requires Image.IsTail(padding)
    ensures !Image.StartsBlock(padding) && |padding| <= Image.XMODEM_PACKET_OVERHEAD && Image.IsTail([])
  {
  }

  /** An image as it is sent. */
  ghost function SentImage(image: seq<byte>): seq<byte>
    requires |image| % PAYLOAD == 0
  {
    FlattenPackets(image);
    Transfer(1, Packets(image))
  }

  /** Blocks that are sent as numbered packets, padded to whole packets with
      bytes that do not look like a block, are carried by the line as an image
      that boots with the content of the blocks. */
  lemma SentBlocksBoot(blocks: seq<Image.Block>, padding: seq<byte>, rest: seq<byte>)
    requires Image.AllValid(blocks) && Image.IsTail(padding)
    requires |Image.EncodeBlocks(blocks) + padding| % PAYLOAD == 0
    requires UBOOT_MINLEN <= |Image.EncodeBlocks(blocks) + padding|
    requires 1 <= |Image.Content(blocks)| <= UBOOT_MAX_SIZE
    ensures var image := Image.EncodeBlocks(blocks) + padding;
            Carries(SentImage(image) + rest, image, rest)
            && Bootable(image, Image.Content(blocks))
  {
    hide Image.AllValid, Image.EncodeBlocks, Image.Content, Image.IsTail, Image.StartsBlock, Image.Run, Image.Means;
    hide Transfer, Packets, Flatten;
    var image := Image.EncodeBlocks(blocks) + padding;
    FlattenPackets(image);
    assert CarriesPayloads(Transfer(1, Packets(image)) + rest, Packets(image), image, rest);
    TailIsShort(padding);
    Image.PaddingDecides(blocks, [], padding);
    assert Image.EncodeBlocks(blocks) + [] + padding == image && [] + padding == padding;
  }

  lemma RegionHoldsRecord(main: seq<byte>, image: seq<byte>)
    requires |image| <= UBOOT_LEN - UBOOT_HDR_SIZE && ENV_BASE <= |main|
    requires main[UBOOT_BASE..UBOOT_BASE + UBOOT_HDR_SIZE + |image|] == Record(image)
    ensures main[UBOOT_BASE..ENV_BASE] == Record(image) + main[UBOOT_BASE + UBOOT_HDR_SIZE + |image|..ENV_BASE]
  {
    hide Record;
  }

  /** The u-boot region starts with the record of an image. */
  ghost predicate Holds(main: seq<byte>, image: seq<byte>) {
    |image| <= UBOOT_LEN - UBOOT_HDR_SIZE && ENV_BASE <= |main| &&
    main[UBOOT_BASE..UBOOT_BASE + UBOOT_HDR_SIZE + |image|] == Record(image)
  }

  /** What starting u-boot does is decided by the record alone. */
  lemma BootOfHeld(main: seq<byte>, image: seq<byte>, data: seq<byte>)
    requires Holds(main, image)
    ensures BootResult(main[UBOOT_BASE..ENV_BASE]) == Boots(data) <==> Bootable(image, data)
  {
    hide Record, BootResult, Image.Means;
    RegionHoldsRecord(main, image);
    RecordBoots(image, main[UBOOT_BASE + UBOOT_HDR_SIZE + |image|..ENV_BASE], data);
  }

  /** Upload an image, and start u-boot when it was stored. Whatever the chip
      did to it, once the upload says that it is stored and the region can be
      read, exactly the bootable images boot, with their content in place; and
      on a reliable chip that was at rest that is always so. */
  method UploadThenBoot(board: Board, uart: XmodemReceiver.Uart, ghost mem: seq<byte>,
                        ghost image: seq<byte>, ghost rest: seq<byte>)
    returns (res: Upload, b: Option<BootReport>, ghost mem': seq<byte>)
    requires board.Valid() && |mem| == RAM_SIZE && Memory(board.ram, mem)
    requires Carries(uart.rx, image, rest) && UbootImageOk(image)
    modifies board.flash, board.flash.chip, board.ram, uart
    ensures |mem'| == RAM_SIZE && Memory(board.ram, mem')
    ensures b.Some? <==> res == Tried(Stored)
    ensures forall data :: b == Some(Checked(Boots(data))) ==>
      Bootable(image, data) && mem'[START..START + |data|] == data
    ensures forall data :: b.Some? && b.value.Checked? && Bootable(image, data) ==> b.value.outcome == Boots(data)
    ensures board.flash.chip.health == Reliable && old(board.flash.chip.st.busy) == 0 ==> b.Some? && b.value.Checked?
  {
    hide Memory, Carries, Receive, Record, StoreOutcome, BootResult, Bootable, Disciplined;
    ReceiveDecides(uart.rx, image, rest, UBOOT_LEN - UBOOT_HDR_SIZE);
    ghost var d, health, main0, failed := board.flash.chip.dev, board.flash.chip.health, board.flash.chip.st.main, 0;
    ghost var resting := board.flash.chip.st.busy == 0;
    res, mem', failed := board.UploadUboot(uart, mem);
    if res != Tried(Stored) {
      NotStored(d, health, resting, main0, image, res.rep, board.flash.chip.st.main, failed);
      return res, None, mem';
    }
    StoredIsHeld(d, health, resting, main0, image, board.flash.chip.st.main, failed);
    var report;
    report, mem' := board.BootUboot(mem');
    b := Some(report);
    forall data
      ensures report.Checked? ==> (report.outcome == Boots(data) <==> Bootable(image, data))
    {
      if report.Checked? {
        BootOfHeld(board.flash.chip.st.main, image, data);
      }
    }
  }

  lemma StoredIsHeld(d: Device, health: Health, resting: bool, main: seq<byte>, image: seq<byte>, now: seq<byte>,
                     p: nat)
    requires d.size >= 1 && UbootImageOk(image) && ENV_BASE <= Total(d)
    requires StoreOutcome(d, health, resting, main, UBOOT_BASE, Record(image), Stored, now, p)
    ensures Holds(now, image)
  {
    hide Record, Patch;
  }

  lemma NotStored(d: Device, health: Health, resting: bool, main: seq<byte>, image: seq<byte>, rep: Report,
                  now: seq<byte>, p: nat)
    requires d.size >= 1 && UbootImageOk(image) && rep != Stored && ENV_BASE <= Total(d)
    requires StoreOutcome(d, health, resting, main, UBOOT_BASE, Record(image), rep, now, p)
    ensures health == Reliable ==> !resting
  {
    hide Record, Patch;
  }

  /** End to end: blocks whose content fits are padded to whole packets, sent as
      a transfer, stored by an upload and started. On a reliable chip at rest
      u-boot starts, with the content of the blocks in place. */
  method SendAndBoot(board: Board, uart: XmodemReceiver.Uart, ghost mem: seq<byte>,
                     ghost blocks: seq<Image.Block>, ghost padding: seq<byte>, ghost rest: seq<byte>)
    returns (b: Option<BootReport>, ghost mem': seq<byte>)
    requires board.Quiet() && board.flash.chip.health == Reliable && |mem| == RAM_SIZE && Memory(board.ram, mem)
    requires Image.AllValid(blocks) && Image.IsTail(padding)
    requires |Image.EncodeBlocks(blocks) + padding| % PAYLOAD == 0
    requires UBOOT_MINLEN <= |Image.EncodeBlocks(blocks) + padding| <= UBOOT_LEN - UBOOT_HDR_SIZE
    requires 1 <= |Image.Content(blocks)| <= UBOOT_MAX_SIZE
    requires uart.rx == SentImage(Image.EncodeBlocks(blocks) + padding) + rest
    modifies board.flash, board.flash.chip, board.ram, uart
    ensures |mem'| == RAM_SIZE && Memory(board.ram, mem')
    ensures b == Some(Checked(Boots(Image.Content(blocks))))
    ensures mem'[START..START + |Image.Content(blocks)|] == Image.Content(blocks)
  {
    hide Memory, Carries, Bootable, SentImage, Image.AllValid, Image.IsTail, Image.EncodeBlocks, Image.Content;
    ghost var image, content := Image.EncodeBlocks(blocks) + padding, Image.Content(blocks);
    SentBlocksBoot(blocks, padding, rest);
    BootableIsAccepted(image, content);
    var res;
    res, b, mem' := UploadThenBoot(board, uart, mem, image, rest);
  }
}
