/** The image parser as it runs: it walks over the blocks and stores their
    content in the output buffer. */
module ImageDecoder {
  import opened Bytes
  import opened Copying
  import opened Image
  import Lzf
  import opened LzfDecoder

  /** The classification of the header at pos, field by field. */
  method ParseHeader(inmem: seq<byte>, pos: nat) returns (h: Head)
    requires pos < |inmem|
    ensures h == ReadHead(inmem[pos..])
  {
    var rem := |inmem| - pos;
    if rem < MIN_HDR_SIZE || inmem[pos] != LETTER_Z || inmem[pos + 1] != LETTER_V {
      return NoBlock;
    }
    if inmem[pos + 2] == 0 {
      var us := inmem[pos + 3] as int * 256 + inmem[pos + 4] as int;
      h := RawHead(us);
    } else if inmem[pos + 2] == 1 && rem >= TYPE1_HDR_SIZE {
      var cs := inmem[pos + 3] as int * 256 + inmem[pos + 4] as int;
      var us := inmem[pos + 5] as int * 256 + inmem[pos + 6] as int;
      h := PackedHead(cs, us);
    } else {
      h := BadBlock;
    }
  }

  lemma NoBlockAt(s: seq<byte>)
    ensures ReadHead(s) == NoBlock <==> !StartsBlock(s)
  {
  }

  /** What a header at pos says about the block at pos. */
  lemma BlockOfHead(inmem: seq<byte>, pos: nat, room: nat)
    requires pos < |inmem|
    ensures var r := ReadBlock(inmem[pos..], room);
      match ReadHead(inmem[pos..])
      case NoBlock => r == Rejected
      case BadBlock => r == Rejected
      case RawHead(us) =>
        var from := pos + TYPE0_HDR_SIZE;
        from <= |inmem| &&
        r == if us > room || us > |inmem| - from then Rejected
             else Read(TYPE0_HDR_SIZE + us, inmem[from..from + us])
      case PackedHead(cs, us) =>
        var from := pos + TYPE1_HDR_SIZE;
        from <= |inmem| &&
        if us > room || cs > |inmem| - from then r == Rejected
        else
          match Unpack(inmem[from..from + cs], us)
          case None => r == Rejected
          case Some(data) => r == Read(TYPE1_HDR_SIZE + cs, data)
  {
    hide Unpack;
    var s := inmem[pos..];
    match ReadHead(s)
    case NoBlock =>
    case BadBlock =>
    case RawHead(us) =>
      if us <= |s| - TYPE0_HDR_SIZE {
        assert s[TYPE0_HDR_SIZE..TYPE0_HDR_SIZE + us] == inmem[pos + TYPE0_HDR_SIZE..pos + TYPE0_HDR_SIZE + us];
      }
    case PackedHead(cs, us) =>
      if cs <= |s| - TYPE1_HDR_SIZE {
        assert s[TYPE1_HDR_SIZE..TYPE1_HDR_SIZE + cs] == inmem[pos + TYPE1_HDR_SIZE..pos + TYPE1_HDR_SIZE + cs];
      }
  }

  lemma DropDrop(s: seq<byte>, i: nat, j: nat)
    requires i + j <= |s|
    ensures s[i..][j..] == s[i + j..]
  {
  }

  /** Unpacking a payload with the decoder: it succeeds exactly when the number
      of bytes produced is the number declared. */
  lemma UnpackRun(payload: seq<byte>, us: nat, n: nat, output: seq<byte>)
    requires match Lzf.Run(payload, [], us)
             case Some(data) => n == |data| && output == data
             case None => n == 0
    requires us == 0 ==> output == []
    ensures Unpack(payload, us) == if n == us then Some(output) else None
  {
    hide Lzf.Run;
  }

  /** Store the content of the packed block whose payload is at pos. Without a
      payload the decoder reads the byte behind the header; behind says that
      this byte lies behind the image. */
  method DecodePacked(outmem: array<byte>, out: nat, inmem: seq<byte>, pos: nat, cs: nat, us: nat,
                      ghost base: nat, ghost mem: seq<byte>, ghost output: seq<byte>)
    returns (n: nat, ghost output': seq<byte>, ghost behind: bool)
    requires pos + cs <= |inmem| && out == base + |output| && out + us <= outmem.Length == |mem|
    requires Memory(outmem, Patch(mem, base, output))
    modifies outmem
    ensures |output'| <= |output| + us && Memory(outmem, Patch(mem, base, output'))
    ensures match Unpack(inmem[pos..pos + cs], us)
            case Some(data) => n == us && output' == output + data
            case None => n != us
    ensures behind <==> cs == 0 && pos == |inmem|
  {
    hide *;
    ghost var more, empty;
    n, more, empty := Decompress(inmem[pos..pos + cs], outmem, out, us, Patch(mem, base, output));
    UnpackRun(inmem[pos..pos + cs], us, n, more);
    PatchJoin(mem, base, output, more);
    output', behind := output + more, empty && pos == |inmem|;
  }

  /** Decode the image inmem into the outmax bytes at base. The result is the
      number of bytes of the content, or 0 for an image that is rejected. behind
      says that a byte behind the image was read. */
  method DecompressImage(outmem: array<byte>, base: nat, inmem: seq<byte>, outmax: nat, ghost mem: seq<byte>)
    returns (ret: nat, ghost output: seq<byte>, ghost behind: bool)
    requires base + outmax <= outmem.Length == |mem| && Memory(outmem, mem)
    modifies outmem
    ensures |output| <= outmax && Memory(outmem, Patch(mem, base, output))
    ensures match Run(inmem, [], outmax)
            case Some(data) => ret == |data| && output == data
            case None => ret == 0
    ensures behind <==> EndsEmpty(inmem, outmax)
  {
    hide ReadHead, ReadBlock, Unpack, Run, StartsBlock, IsTail, EndsEmpty, Memory, Patch;
    var insize := |inmem|;
    var pos, out := 0, base;
    ret, output, behind := 0, [], false;
    PatchNothing(mem, base);
    assert inmem[0..] == inmem;
    while pos < insize
      invariant pos <= insize && ret == |output| <= outmax && out == base + ret
      invariant Memory(outmem, Patch(mem, base, output))
      invariant Run(inmem, [], outmax) == Run(inmem[pos..], output, outmax)
      invariant EndsEmpty(inmem, outmax) == (behind || EndsEmpty(inmem[pos..], outmax - ret))
    {
      ghost var s := inmem[pos..];
      var rem := insize - pos;
      var h := ParseHeader(inmem, pos);
      BlockOfHead(inmem, pos, outmax - ret);
      NoBlockAt(s);
      EndsEmptyStep(s, outmax - ret);
      if h == NoBlock {
        RunTail(s, output, outmax);
        TailSize(s);
        if rem > XMODEM_PACKET_OVERHEAD {
          ret := 0;
        }
        return;
      }
      RunBlock(s, output, outmax);
      if h == BadBlock {
        return 0, output, behind;
      }
      var hdr := if h.RawHead? then TYPE0_HDR_SIZE else TYPE1_HDR_SIZE;
      var us := h.us;
      pos := pos + hdr;
      rem := rem - hdr;
      if us > outmax - ret || (if h.RawHead? then us else h.cs) > rem {
        return 0, output, behind;
      }
      var size := if h.RawHead? then us else h.cs;
      DropDrop(inmem, pos - hdr, hdr + size);
      if h.RawHead? {
        StoreBytes(outmem, out, inmem[pos..pos + us], Patch(mem, base, output));
        PatchJoin(mem, base, output, inmem[pos..pos + us]);
        output := output + inmem[pos..pos + us];
      } else {
        var n;
        ghost var here;
        n, output, here := DecodePacked(outmem, out, inmem, pos, size, us, base, mem, output);
        behind := behind || here;
        if n != us {
          return 0, output, behind;
        }
      }
      pos := pos + size;
      out := out + us;
      ret := ret + us;
    }
    assert inmem[pos..] == [];
    EmptyTail(output, outmax);
  }

  lemma TailSize(s: seq<byte>)
    ensures !StartsBlock(s) ==> (IsTail(s) <==> |s| <= XMODEM_PACKET_OVERHEAD)
  {
  }

  lemma EmptyTail(output: seq<byte>, outmax: nat)
    requires |output| <= outmax
    ensures Run([], output, outmax) == Some(output)
    ensures !EndsEmpty([], outmax - |output|)
  {
  }
}
