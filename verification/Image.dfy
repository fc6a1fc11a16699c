/** The framed image format: "ZV" blocks, stored raw or LZF packed, and the
    padding that XMODEM leaves behind the last of them. */
module Image {
  import opened Bytes
  import Lzf

  const LETTER_Z: byte := 0x5A
  const LETTER_V: byte := 0x56
  const TYPE0_HDR_SIZE := 5
  const TYPE1_HDR_SIZE := 7
  const MIN_HDR_SIZE := 5
  const XMODEM_PACKET_OVERHEAD := 127

  /** A raw block, or a packed block with the bytes it stands for. */
  datatype Block = Raw(data: seq<byte>) | Packed(payload: seq<byte>, data: seq<byte>)

  /** A packed block that declares no bytes may hold anything. */
  ghost predicate ValidBlock(b: Block) {
    |b.data| < 0x1_0000 &&
    (b.Packed? ==> |b.payload| < 0x1_0000 && (b.data != [] ==> Lzf.Means(b.payload, b.data)))
  }

  ghost predicate AllValid(blocks: seq<Block>) {
    forall b :: b in blocks ==> ValidBlock(b)
  }

  function HalfWord(n: nat): (s: seq<byte>)
    requires n < 0x1_0000
    ensures |s| == 2 && s[0] as int * 256 + s[1] as int == n
  {
    [n / 256, n % 256]
  }

  ghost function EncodeBlock(b: Block): seq<byte>
    requires ValidBlock(b)
  {
    match b
    case Raw(data) => [LETTER_Z, LETTER_V, 0] + HalfWord(|data|) + data
    case Packed(payload, data) => [LETTER_Z, LETTER_V, 1] + HalfWord(|payload|) + HalfWord(|data|) + payload
  }

  ghost function EncodeBlocks(blocks: seq<Block>): seq<byte>
    requires AllValid(blocks)
  {
    if blocks == [] then [] else EncodeBlock(blocks[0]) + EncodeBlocks(blocks[1..])
  }

  function Content(blocks: seq<Block>): seq<byte> {
    if blocks == [] then [] else blocks[0].data + Content(blocks[1..])
  }

  predicate StartsBlock(s: seq<byte>) {
    |s| >= MIN_HDR_SIZE && s[0] == LETTER_Z && s[1] == LETTER_V
  }

  /** What may follow the last block. */
  predicate IsTail(s: seq<byte>) {
    |s| <= XMODEM_PACKET_OVERHEAD && !StartsBlock(s)
  }

  ghost predicate Frames(blocks: seq<Block>, tail: seq<byte>, s: seq<byte>, data: seq<byte>) {
    AllValid(blocks) && IsTail(tail) && s == EncodeBlocks(blocks) + tail && data == Content(blocks)
  }

  /** s is an image, and data is what it stands for. */
  ghost predicate Means(s: seq<byte>, data: seq<byte>) {
    exists blocks, tail :: Frames(blocks, tail, s, data)
  }

  /** The header at the start of s, as the parser classifies it. */
  datatype Head = NoBlock | BadBlock | RawHead(us: nat) | PackedHead(cs: nat, us: nat)

  function ReadHead(s: seq<byte>): (h: Head)
    ensures h.RawHead? || h.PackedHead? ==> StartsBlock(s)
    ensures h.PackedHead? ==> |s| >= TYPE1_HDR_SIZE
  {
    if !StartsBlock(s) then NoBlock
    else if s[2] == 0 then RawHead(s[3] as int * 256 + s[4] as int)
    else if s[2] == 1 && |s| >= TYPE1_HDR_SIZE then
      PackedHead(s[3] as int * 256 + s[4] as int, s[5] as int * 256 + s[6] as int)
    else BadBlock
  }

  /** The us bytes a payload unpacks to, if it does. */
  function Unpack(payload: seq<byte>, us: nat): (r: Option<seq<byte>>)
    ensures r.Some? ==> |r.value| == us
  {
    if us == 0 then Some([])
    else
      var r := Lzf.Run(payload, [], us);
      if r.Some? && |r.value| == us then r else None
  }

  /** A complete block: the number of bytes it takes, and its content. */
  datatype Reading = Rejected | Read(size: nat, data: seq<byte>)

  /** The block at the start of s, if its content fits in room bytes. */
  function ReadBlock(s: seq<byte>, room: nat): (r: Reading)
    ensures r.Read? ==> TYPE0_HDR_SIZE <= r.size <= |s| && |r.data| <= room && StartsBlock(s)
  {
    match ReadHead(s)
    case NoBlock => Rejected
    case BadBlock => Rejected
    case RawHead(us) =>
      if us > room || us > |s| - TYPE0_HDR_SIZE then Rejected
      else Read(TYPE0_HDR_SIZE + us, s[TYPE0_HDR_SIZE..TYPE0_HDR_SIZE + us])
    case PackedHead(cs, us) =>
      if us > room || cs > |s| - TYPE1_HDR_SIZE then Rejected
      else
        match Unpack(s[TYPE1_HDR_SIZE..TYPE1_HDR_SIZE + cs], us)
        case None => Rejected
        case Some(data) => Read(TYPE1_HDR_SIZE + cs, data)
  }

  /** Decode s with out already produced; None is a rejected image. */
  function Run(s: seq<byte>, out: seq<byte>, outmax: nat): (r: Option<seq<byte>>)
    requires |out| <= outmax
    ensures r.Some? ==> |r.value| <= outmax
    decreases |s|
  {
    if !StartsBlock(s) then
      if |s| > XMODEM_PACKET_OVERHEAD then None else Some(out)
    else
      match ReadBlock(s, outmax - |out|)
      case Rejected => None
      case Read(size, data) => Run(s[size..], out + data, outmax)
  }

  lemma UnpackDecides(payload: seq<byte>, us: nat, data: seq<byte>)
    ensures Unpack(payload, us) == Some(data) <==> |data| == us && (data != [] ==> Lzf.Means(payload, data))
  {
    hide Lzf.Run, Lzf.Means;
    Lzf.RunDecides(payload, data, us);
  }

  lemma HeadOfRaw(data: seq<byte>, rest: seq<byte>)
    requires |data| < 0x1_0000
    ensures var s := EncodeBlock(Raw(data)) + rest;
            ReadHead(s) == RawHead(|data|) && s[TYPE0_HDR_SIZE..TYPE0_HDR_SIZE + |data|] == data
  {
  }

  lemma HeadOfPacked(b: Block, rest: seq<byte>)
    requires b.Packed? && ValidBlock(b)
    ensures var s := EncodeBlock(b) + rest;
            ReadHead(s) == PackedHead(|b.payload|, |b.data|)
            && s[TYPE1_HDR_SIZE..TYPE1_HDR_SIZE + |b.payload|] == b.payload
  {
    hide Lzf.Means;
  }

  lemma ReadBlockOfEncoded(b: Block, rest: seq<byte>, room: nat)
    requires ValidBlock(b) && |b.data| <= room
    ensures ReadBlock(EncodeBlock(b) + rest, room) == Read(|EncodeBlock(b)|, b.data)
  {
    hide ReadHead, Unpack, Lzf.Means, StartsBlock;
    if b.Packed? {
      HeadOfPacked(b, rest);
      UnpackDecides(b.payload, |b.data|, b.data);
    } else {
      HeadOfRaw(b.data, rest);
    }
  }

  lemma RawOfHead(s: seq<byte>, us: nat)
    requires ReadHead(s) == RawHead(us) && us <= |s| - TYPE0_HDR_SIZE
    ensures us < 0x1_0000
    ensures EncodeBlock(Raw(s[TYPE0_HDR_SIZE..TYPE0_HDR_SIZE + us])) == s[..TYPE0_HDR_SIZE + us]
  {
    hide HalfWord;
    HalfWordBack(s[3], s[4]);
    assert s[..TYPE0_HDR_SIZE + us] == s[..TYPE0_HDR_SIZE] + s[TYPE0_HDR_SIZE..TYPE0_HDR_SIZE + us];
  }

  lemma HalfWordBack(x: byte, y: byte)
    ensures HalfWord(x as int * 256 + y as int) == [x, y]
  {
  }

  lemma PackedOfHead(s: seq<byte>, cs: nat, us: nat, data: seq<byte>)
    requires ReadHead(s) == PackedHead(cs, us) && cs <= |s| - TYPE1_HDR_SIZE && |data| == us
    requires data != [] ==> Lzf.Means(s[TYPE1_HDR_SIZE..TYPE1_HDR_SIZE + cs], data)
    ensures cs < 0x1_0000 && us < 0x1_0000
    ensures EncodeBlock(Packed(s[TYPE1_HDR_SIZE..TYPE1_HDR_SIZE + cs], data)) == s[..TYPE1_HDR_SIZE + cs]
  {
    hide Lzf.Means, HalfWord;
    HalfWordBack(s[3], s[4]);
    HalfWordBack(s[5], s[6]);
    assert s[..TYPE1_HDR_SIZE + cs] == s[..TYPE1_HDR_SIZE] + s[TYPE1_HDR_SIZE..TYPE1_HDR_SIZE + cs];
  }

  lemma ReadBlockIsEncoded(s: seq<byte>, room: nat) returns (b: Block)
    requires ReadBlock(s, room).Read?
    ensures ValidBlock(b) && b.data == ReadBlock(s, room).data
    ensures EncodeBlock(b) == s[..ReadBlock(s, room).size]
  {
    hide ReadHead, Unpack, Lzf.Means, StartsBlock, EncodeBlock;
    match ReadHead(s)
    case RawHead(us) =>
      RawOfHead(s, us);
      b := Raw(s[TYPE0_HDR_SIZE..TYPE0_HDR_SIZE + us]);
    case PackedHead(cs, us) =>
      var payload := s[TYPE1_HDR_SIZE..TYPE1_HDR_SIZE + cs];
      var data := Unpack(payload, us).value;
      UnpackDecides(payload, us, data);
      PackedOfHead(s, cs, us, data);
      b := Packed(payload, data);
  }

  lemma DropFront(a: seq<byte>, b: seq<byte>)
    ensures (a + b)[|a|..] == b
  {
  }

  /** One block read leaves the rest of the image to read. */
  lemma RunBlock(s: seq<byte>, out: seq<byte>, outmax: nat)
    requires |out| <= outmax && StartsBlock(s)
    ensures match ReadBlock(s, outmax - |out|)
            case Rejected => Run(s, out, outmax) == None
            case Read(size, data) => Run(s, out, outmax) == Run(s[size..], out + data, outmax)
  {
    hide ReadBlock, StartsBlock;
  }

  lemma RunTail(s: seq<byte>, out: seq<byte>, outmax: nat)
    requires |out| <= outmax && !StartsBlock(s)
    ensures Run(s, out, outmax) == if IsTail(s) then Some(out) else None
  {
    hide ReadBlock, StartsBlock;
  }

  /** Valid blocks that fit are read in turn, whatever follows them. */
  lemma {:induction false} RunOfBlocks(blocks: seq<Block>, rest: seq<byte>, out: seq<byte>, outmax: nat)
    requires AllValid(blocks) && |out| + |Content(blocks)| <= outmax
    ensures Run(EncodeBlocks(blocks) + rest, out, outmax) == Run(rest, out + Content(blocks), outmax)
    decreases |blocks|
  {
    hide Run, ReadBlock, EncodeBlock, StartsBlock, ValidBlock;
    if blocks == [] {
      assert EncodeBlocks(blocks) + rest == rest;
      assert out + Content(blocks) == out;
    } else {
      var b, more := blocks[0], EncodeBlocks(blocks[1..]) + rest;
      assert EncodeBlock(b) + more == EncodeBlocks(blocks) + rest;
      ReadBlockOfEncoded(b, more, outmax - |out|);
      RunBlock(EncodeBlock(b) + more, out, outmax);
      DropFront(EncodeBlock(b), more);
      RunOfBlocks(blocks[1..], rest, out + b.data, outmax);
      assert out + Content(blocks) == out + b.data + Content(blocks[1..]);
    }
  }

  /** A sequence of valid blocks that fits, with an admissible tail, decodes to
      the content of the blocks. */
  lemma RunOfFrames(blocks: seq<Block>, tail: seq<byte>, out: seq<byte>, outmax: nat)
    requires AllValid(blocks) && IsTail(tail) && |out| + |Content(blocks)| <= outmax
    ensures Run(EncodeBlocks(blocks) + tail, out, outmax) == Some(out + Content(blocks))
  {
    hide *;
    RunOfBlocks(blocks, tail, out, outmax);
    TailDecides(tail, out + Content(blocks), outmax);
  }

  lemma TailDecides(tail: seq<byte>, out: seq<byte>, outmax: nat)
    requires |out| <= outmax
    ensures IsTail(tail) ==> Run(tail, out, outmax) == Some(out)
    ensures !StartsBlock(tail) ==> (Run(tail, out, outmax).Some? <==> |tail| <= 127)
  {
    hide ReadBlock, StartsBlock;
    if !StartsBlock(tail) {
      RunTail(tail, out, outmax);
    }
  }

  /** When there is no more room, only what adds nothing is accepted. */
  lemma {:induction false} RunWithoutRoom(s: seq<byte>, out: seq<byte>)
    ensures Run(s, out, |out|) == if Run(s, [], 0).Some? then Some(out) else None
    decreases |s|
  {
    hide Run, ReadBlock, StartsBlock;
    if StartsBlock(s) {
      RunBlock(s, out, |out|);
      RunBlock(s, [], 0);
      var r := ReadBlock(s, 0);
      if r.Read? {
        assert r.data == [] && out + r.data == out && [] + r.data == r.data;
        RunWithoutRoom(s[r.size..], out);
      }
    } else {
      RunTail(s, out, |out|);
      RunTail(s, [], 0);
    }
  }

  lemma BlocksThenMean(blocks: seq<Block>, rest: seq<byte>)
    requires AllValid(blocks)
    ensures Means(EncodeBlocks(blocks) + rest, Content(blocks)) <==> Run(rest, [], 0).Some?
  {
    hide *;
    var s, data := EncodeBlocks(blocks) + rest, Content(blocks);
    RunDecides(s, data, |data|);
    RunOfBlocks(blocks, rest, [], |data|);
    assert [] + data == data;
    RunWithoutRoom(rest, data);
  }

  /** When padding keeps the meaning of an image, which may have a tail already:
      exactly when the tail and the padding together are accepted as an image
      that adds nothing. If they do not start with "ZV" that is a matter of
      their length only. */
  lemma PaddingDecides(blocks: seq<Block>, tail: seq<byte>, padding: seq<byte>)
    requires AllValid(blocks) && IsTail(tail)
    ensures var s, data := EncodeBlocks(blocks) + tail, Content(blocks);
            (Means(s + padding, data) <==> Run(tail + padding, [], 0).Some?)
            && (!StartsBlock(tail + padding) ==>
                 (Means(s + padding, data) <==> |tail| + |padding| <= 127))
  {
    hide *;
    assert (EncodeBlocks(blocks) + tail) + padding == EncodeBlocks(blocks) + (tail + padding);
    BlocksThenMean(blocks, tail + padding);
    TailDecides(tail + padding, [], 0);
  }

  /** Whatever is accepted is such a sequence. */
  lemma {:induction false} RunIsFrames(s: seq<byte>, out: seq<byte>, outmax: nat)
    returns (blocks: seq<Block>, tail: seq<byte>)
    requires |out| <= outmax && Run(s, out, outmax).Some?
    ensures Frames(blocks, tail, s, Content(blocks)) && Run(s, out, outmax) == Some(out + Content(blocks))
    decreases |s|
  {
    hide Run, ReadBlock, EncodeBlock, StartsBlock, ValidBlock;
    if !StartsBlock(s) {
      RunTail(s, out, outmax);
      blocks, tail := [], s;
      assert EncodeBlocks(blocks) + tail == s;
      assert out + Content(blocks) == out;
    } else {
      RunBlock(s, out, outmax);
      var r := ReadBlock(s, outmax - |out|);
      var b := ReadBlockIsEncoded(s, outmax - |out|);
      var rest;
      rest, tail := RunIsFrames(s[r.size..], out + r.data, outmax);
      blocks := [b] + rest;
      assert blocks[1..] == rest;
      assert s == EncodeBlocks(blocks) + tail;
      assert out + Content(blocks) == out + r.data + Content(rest);
    }
  }

  /** The parser accepts exactly the images whose content fits, and yields
      their content. */
  lemma RunDecides(s: seq<byte>, data: seq<byte>, outmax: nat)
    ensures Run(s, [], outmax) == Some(data) <==> Means(s, data) && |data| <= outmax
  {
    hide Run, EncodeBlocks, IsTail;
    if Run(s, [], outmax) == Some(data) {
      var blocks, tail := RunIsFrames(s, [], outmax);
      assert [] + Content(blocks) == Content(blocks);
      assert Frames(blocks, tail, s, data);
    }
    if Means(s, data) && |data| <= outmax {
      var blocks, tail :| Frames(blocks, tail, s, data);
      RunOfFrames(blocks, tail, [], outmax);
      assert [] + Content(blocks) == Content(blocks);
    }
  }

  /** An image stands for one content only. */
  lemma MeaningIsUnique(s: seq<byte>, data: seq<byte>, data': seq<byte>)
    requires Means(s, data) && Means(s, data')
    ensures data == data'
  {
    hide *;
    RunDecides(s, data, |data| + |data'|);
    RunDecides(s, data', |data| + |data'|);
  }

  // A packed block without a payload, at the end of the image.

  /** The image is the header of such a block, and its content would fit. */
  predicate EmptyBlockEnds(s: seq<byte>, room: nat) {
    |s| == TYPE1_HDR_SIZE && ReadHead(s).PackedHead? && ReadHead(s).cs == 0 && ReadHead(s).us <= room
  }

  /** The parse reaches the header of such a block at the end of the image. */
  predicate EndsEmpty(s: seq<byte>, room: nat)
    decreases |s|
  {
    EmptyBlockEnds(s, room) ||
    match ReadBlock(s, room)
    case Rejected => false
    case Read(size, data) => EndsEmpty(s[size..], room - |data|)
  }

  lemma EndsEmptyStep(s: seq<byte>, room: nat)
    ensures EmptyBlockEnds(s, room) ==> EndsEmpty(s, room)
    ensures !EmptyBlockEnds(s, room) ==>
      match ReadBlock(s, room)
      case Rejected => !EndsEmpty(s, room)
      case Read(size, data) => EndsEmpty(s, room) == EndsEmpty(s[size..], room - |data|)
  {
    hide EmptyBlockEnds, ReadBlock;
  }

  /** The header of a packed block. */
  function PackedHeader(cs: nat, us: nat): seq<byte>
    requires cs < 0x1_0000 && us < 0x1_0000
  {
    [LETTER_Z, LETTER_V, 1] + HalfWord(cs) + HalfWord(us)
  }

  ghost predicate FramesBefore(blocks: seq<Block>, us: nat, s: seq<byte>, room: nat) {
    AllValid(blocks) && us < 0x1_0000 && |Content(blocks)| + us <= room &&
    s == EncodeBlocks(blocks) + PackedHeader(0, us)
  }

  lemma EmptyBlockIsHeader(s: seq<byte>, room: nat)
    requires EmptyBlockEnds(s, room)
    ensures ReadHead(s).PackedHead? && ReadHead(s).us < 0x1_0000 && ReadHead(s).us <= room
    ensures s == PackedHeader(0, ReadHead(s).us)
  {
  }

  lemma HeaderIsEmptyBlock(us: nat, room: nat)
    requires us < 0x1_0000 && us <= room
    ensures EmptyBlockEnds(PackedHeader(0, us), room)
  {
  }

  lemma LongerIsNotEmptyBlock(b: Block, rest: seq<byte>, room: nat)
    requires ValidBlock(b) && |rest| >= TYPE1_HDR_SIZE
    ensures !EmptyBlockEnds(EncodeBlock(b) + rest, room)
  {
    hide ReadHead, Lzf.Means;
  }

  lemma {:induction false} EndsEmptyOfBlocks(blocks: seq<Block>, rest: seq<byte>, room: nat)
    requires AllValid(blocks) && |Content(blocks)| <= room && |rest| == TYPE1_HDR_SIZE
    ensures EndsEmpty(EncodeBlocks(blocks) + rest, room) == EndsEmpty(rest, room - |Content(blocks)|)
    decreases |blocks|
  {
    hide EndsEmpty, EmptyBlockEnds, ReadBlock, EncodeBlock, ValidBlock;
    if blocks == [] {
      assert EncodeBlocks(blocks) + rest == rest;
    } else {
      var b, more := blocks[0], EncodeBlocks(blocks[1..]) + rest;
      assert EncodeBlock(b) + more == EncodeBlocks(blocks) + rest;
      ReadBlockOfEncoded(b, more, room);
      LongerIsNotEmptyBlock(b, more, room);
      EndsEmptyStep(EncodeBlock(b) + more, room);
      DropFront(EncodeBlock(b), more);
      EndsEmptyOfBlocks(blocks[1..], rest, room - |b.data|);
    }
  }

  lemma OneBlockMore(b: Block, rest: seq<Block>, us: nat, s: seq<byte>, size: nat, room: nat)
    requires size <= |s| && ValidBlock(b) && EncodeBlock(b) == s[..size] && |b.data| <= room
    requires FramesBefore(rest, us, s[size..], room - |b.data|)
    ensures FramesBefore([b] + rest, us, s, room)
  {
    hide EncodeBlock, ValidBlock, PackedHeader;
    var blocks := [b] + rest;
    assert blocks[1..] == rest;
    assert s == EncodeBlock(b) + (EncodeBlocks(rest) + PackedHeader(0, us));
  }

  lemma {:induction false} BlocksBeforeEmpty(s: seq<byte>, room: nat) returns (blocks: seq<Block>, us: nat)
    requires EndsEmpty(s, room)
    ensures FramesBefore(blocks, us, s, room)
    decreases |s|
  {
    hide EndsEmpty, EmptyBlockEnds, ReadBlock, EncodeBlock, ValidBlock, ReadHead, PackedHeader;
    EndsEmptyStep(s, room);
    if EmptyBlockEnds(s, room) {
      EmptyBlockIsHeader(s, room);
      blocks, us := [], ReadHead(s).us;
      assert EncodeBlocks(blocks) + s == s;
    } else {
      var r := ReadBlock(s, room);
      var b := ReadBlockIsEncoded(s, room);
      var rest;
      rest, us := BlocksBeforeEmpty(s[r.size..], room - |r.data|);
      blocks := [b] + rest;
      OneBlockMore(b, rest, us, s, r.size, room);
    }
  }

  /** These are exactly the images of valid blocks with such a header behind
      them. */
  lemma EndsEmptyDecides(s: seq<byte>, room: nat)
    ensures EndsEmpty(s, room) <==> exists blocks, us: nat :: FramesBefore(blocks, us, s, room)
  {
    hide EndsEmpty, EmptyBlockEnds, EncodeBlocks, AllValid;
    if EndsEmpty(s, room) {
      var blocks, us := BlocksBeforeEmpty(s, room);
      assert FramesBefore(blocks, us, s, room);
    }
    if blocks, us: nat :| FramesBefore(blocks, us, s, room) {
      var left := room - |Content(blocks)|;
      EndsEmptyOfBlocks(blocks, PackedHeader(0, us), room);
      HeaderIsEmptyBlock(us, left);
      EndsEmptyStep(PackedHeader(0, us), left);
    }
  }
}
