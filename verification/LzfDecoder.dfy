/** The LZF decoder as it runs: one pass over the input that stores into the
    output buffer in place. Pointers are offsets; the output begins at base. */
module LzfDecoder {
  import opened Bytes
  import opened Copying
  import opened Lzf

  /** What a back reference must do to a memory: continue the output in
      [base, start) by len bytes and leave everything else alone. */
  ghost function Continued(mem: seq<byte>, base: nat, start: nat, dist: nat, len: nat): (r: seq<byte>)
    requires base + dist <= start && 1 <= dist && start + len <= |mem|
    ensures |r| == |mem|
  {
    Patch(mem, start, Repetition(mem[base..start], dist, len))
  }

  lemma ContinuedMore(mem: seq<byte>, base: nat, start: nat, dist: nat, k: nat)
    requires base + dist <= start && 1 <= dist && start + k < |mem|
    ensures Continued(mem, base, start, dist, k + 1)
         == var m := Continued(mem, base, start, dist, k); m[start + k := m[start + k - dist]]
  {
    var out := mem[base..start];
    var e, r, m := Extend(out, dist, k), Repetition(out, dist, k), Continued(mem, base, start, dist, k);
    ExtendAppends(out, dist, k);
    assert Extend(out, dist, k + 1) == e + [e[|e| - dist]];
    assert m[base..start + k] == e;
    assert m[start + k - dist] == e[|e| - dist];
    assert Repetition(out, dist, k + 1) == r + [e[|e| - dist]];
    PatchMore(mem, start, r, e[|e| - dist]);
  }

  lemma UntouchedIsContinued(mem: seq<byte>, base: nat, start: nat, dist: nat)
    requires base + dist <= start <= |mem| && 1 <= dist
    ensures Continued(mem, base, start, dist, 0) == mem
  {
  }

  /** One `*op++ = *ref++`, after k bytes of the reference were copied. */
  method PutNext(a: array<byte>, op: nat, dist: nat, ghost mem: seq<byte>, ghost base: nat, ghost start: nat,
                 ghost k: nat)
    returns (op': nat)
    requires 1 <= dist && base + dist <= start && op == start + k < a.Length == |mem|
    requires Memory(a, Continued(mem, base, start, dist, k))
    modifies a
    ensures op' == op + 1 && Memory(a, Continued(mem, base, start, dist, k + 1))
  {
    ContinuedMore(mem, base, start, dist, k);
    hide Continued;
    a[op] := a[op - dist];
    op' := op + 1;
  }

  /** The unrolled copy, a switch entered at case len: every label copies one
      byte and falls through to the one below, case 0 copies two. */
  method CopyUnrolled(a: array<byte>, from: nat, dist: nat, len: nat,
                      ghost mem: seq<byte>, ghost base: nat, ghost start: nat, ghost k: nat, ghost n: nat)
    returns (op: nat)
    requires 1 <= dist && base + dist <= start && from == start + k && n == k + len + 2 &&
             start + n <= a.Length == |mem|
    requires Memory(a, Continued(mem, base, start, dist, k))
    modifies a
    ensures op == start + n && Memory(a, Continued(mem, base, start, dist, n))
    decreases len
  {
    hide *;
    op := PutNext(a, from, dist, mem, base, start, k);
    if len == 0 {
      op := PutNext(a, op, dist, mem, base, start, k + 1);
    } else {
      op := CopyUnrolled(a, op, dist, len - 1, mem, base, start, k + 1, n);
    }
  }

  /** The copy through memcpy, for areas that do not overlap. */
  method CopyBlock(a: array<byte>, start: nat, ref: nat, len: nat, ghost mem: seq<byte>, ghost base: nat,
                   ghost dist: nat)
    returns (op: nat)
    requires base <= ref < start == ref + dist && len <= dist && start + len <= a.Length == |mem| && Memory(a, mem)
    modifies a
    ensures op == start + len && Memory(a, Continued(mem, base, start, dist, len))
  {
    hide *;
    ContinuedBlock(mem, base, start, ref, len);
    Memcpy(a, start, ref, len, mem);
    op := start + len;
  }

  lemma ContinuedBlock(mem: seq<byte>, base: nat, start: nat, ref: nat, len: nat)
    requires base <= ref < start && ref + len <= start && start + len <= |mem|
    ensures Continued(mem, base, start, start - ref, len) == Patch(mem, start, mem[ref..ref + len])
  {
    hide Extend, Patch;
    ExtendIsBlock(mem[base..start], start - ref, len);
    ExtendAppends(mem[base..start], start - ref, len);
    SliceOfSlice(mem, base, start, ref, ref + len);
  }

  /** The copy one byte at a time, for areas that overlap. */
  method CopyBytewise(a: array<byte>, start: nat, count: nat, dist: nat, ghost mem: seq<byte>, ghost base: nat)
    returns (op: nat)
    requires 1 <= dist && base + dist <= start && 1 <= count && start + count <= a.Length == |mem| && Memory(a, mem)
    modifies a
    ensures op == start + count && Memory(a, Continued(mem, base, start, dist, count))
  {
    hide *;
    UntouchedIsContinued(mem, base, start, dist);
    op := start;
    var len := count;
    ghost var k := 0;
    while true
      invariant 1 <= len <= count && op == start + k && k + len == count
      invariant Memory(a, Continued(mem, base, start, dist, k))
      decreases len
    {
      op := PutNext(a, op, dist, mem, base, start, k);
      k := k + 1;
      len := len - 1;
      if len == 0 {
        break;
      }
    }
  }

  /** The switch over the length of a back reference: the unrolled copy for
      the short lengths, and for the others memcpy or the byte loop. */
  method CopyReference(a: array<byte>, start: nat, ref: nat, len: nat,
                       ghost mem: seq<byte>, ghost base: nat, ghost n: nat) returns (op: nat)
    requires base <= ref < start && n == len + 2 && start + n <= a.Length == |mem| && Memory(a, mem)
    modifies a
    ensures op == start + n && Memory(a, Continued(mem, base, start, start - ref, n))
  {
    hide *;
    var dist := start - ref;
    UntouchedIsContinued(mem, base, start, dist);
    if len <= 9 {
      op := CopyUnrolled(a, start, dist, len, mem, base, start, 0, n);
    } else {
      var count := len + 2;
      if start >= ref + count {
        op := CopyBlock(a, start, ref, count, mem, base, dist);
      } else {
        op := CopyBytewise(a, start, count, dist, mem, base);
      }
    }
  }

  /** The unrolled literal run: a switch entered at case count, one byte per
      label, falling through. */
  method CopyLiteral(input: seq<byte>, ip: nat, a: array<byte>, start: nat, count: nat, ghost mem: seq<byte>)
    returns (op: nat)
    requires 1 <= count && ip + count <= |input| && start + count <= a.Length == |mem| && Memory(a, mem)
    modifies a
    ensures op == start + count && Memory(a, Patch(mem, start, input[ip..ip + count]))
    decreases count
  {
    hide *;
    op := PutByte(a, start, input[ip], mem);
    if count == 1 {
      OneByteSlice(input, ip);
    } else {
      FirstByteOfSlice(input, ip, count);
      PatchJoin(mem, start, [input[ip]], input[ip + 1..ip + count]);
      op := CopyLiteral(input, ip + 1, a, op, count - 1, Patch(mem, start, [input[ip]]));
    }
  }

  method PutByte(a: array<byte>, at: nat, b: byte, ghost mem: seq<byte>) returns (next: nat)
    requires at < a.Length == |mem| && Memory(a, mem)
    modifies a
    ensures next == at + 1 && Memory(a, Patch(mem, at, [b]))
  {
    a[at] := b;
    next := at + 1;
  }

  lemma OneByteSlice(s: seq<byte>, i: nat)
    requires i < |s|
    ensures s[i..i + 1] == [s[i]]
  {
  }

  lemma FirstByteOfSlice(s: seq<byte>, i: nat, n: nat)
    requires 1 <= n && i + n <= |s|
    ensures s[i..i + n] == [s[i]] + s[i + 1..i + n]
  {
  }

  /** Continuing the output of a memory continues what it has produced. */
  lemma ContinuedOutput(mem: seq<byte>, base: nat, output: seq<byte>, dist: nat, len: nat)
    requires 1 <= dist <= |output| && base + |output| + len <= |mem|
    ensures Continued(Patch(mem, base, output), base, base + |output|, dist, len)
         == Patch(mem, base, Extend(output, dist, len))
  {
    ExtendAppends(output, dist, len);
    var now := Patch(mem, base, output);
    assert now[base..base + |output|] == output;
    PatchJoin(mem, base, output, Repetition(output, dist, len));
  }

  /** The instruction at pos can be read and carried out within room. */
  ghost predicate Feasible(input: seq<byte>, pos: nat, output: seq<byte>, room: nat) {
    pos < |input| &&
    var i := First(input[pos..]);
    i.Some? && Reaches(i.value, output) && |Apply(i.value, output)| <= room
  }

  /** One round of the decoding loop carries out the instruction at pos. */
  ghost predicate Round(input: seq<byte>, pos: nat, ip: nat, output: seq<byte>, output': seq<byte>, room: nat) {
    Feasible(input, pos, output, room) &&
    var i := First(input[pos..]).value;
    ip == pos + |EncodeOne(i)| && output' == Apply(i, output)
  }

  /** A round leaves the rest of the decoding to do. */
  lemma RoundRun(input: seq<byte>, pos: nat, ip: nat, output: seq<byte>, output': seq<byte>, room: nat)
    requires Round(input, pos, ip, output, output', room)
    ensures pos < ip <= |input| && |output'| <= room
    ensures Run(input[pos..], output, room) == Run(input[ip..], output', room)
  {
    hide First, EncodeOne, Apply, Reaches;
    assert input[pos..][ip - pos..] == input[ip..];
  }

  lemma Stuck(input: seq<byte>, pos: nat, output: seq<byte>, room: nat)
    requires pos < |input| && !Feasible(input, pos, output, room)
    ensures Run(input[pos..], output, room) == None
  {
    hide First, EncodeOne, Apply, Reaches;
  }

  lemma RoundIs(input: seq<byte>, pos: nat, output: seq<byte>, room: nat)
    requires pos < |input|
    ensures First(input[pos..]) == None ==> !Feasible(input, pos, output, room)
    ensures First(input[pos..]).Some? ==>
      var i := First(input[pos..]).value;
      if Reaches(i, output) && |Apply(i, output)| <= room
      then Feasible(input, pos, output, room)
        && Round(input, pos, pos + |EncodeOne(i)|, output, Apply(i, output), room)
      else !Feasible(input, pos, output, room)
  {
    hide First, EncodeOne, Reaches, Apply;
  }

  /** The round of a control byte below 32. */
  lemma LiteralRound(input: seq<byte>, pos: nat, output: seq<byte>, room: nat)
    requires pos < |input| && input[pos] < 32
    ensures var end := pos + input[pos] as int + 2;
            if end <= |input| && |output| + (end - pos - 1) <= room
            then Feasible(input, pos, output, room)
                 && Round(input, pos, end, output, output + input[pos + 1..end], room)
            else !Feasible(input, pos, output, room)
  {
    var end := pos + input[pos] as int + 2;
    if end <= |input| {
      assert input[pos..][1..input[pos] as int + 2] == input[pos + 1..end];
    }
  }

  /** A back reference in the input: how far and how much, and its own size. */
  datatype Reference = Missing | Reference(dist: nat, len: nat, size: nat)

  ghost function ReferenceAt(input: seq<byte>, pos: nat): (r: Reference)
    requires pos < |input| && input[pos] >= 32
    ensures r.Reference? ==> 1 <= r.dist && 3 <= r.len
  {
    var high, len, left := input[pos] as int % 32 * 256, input[pos] as int / 32, |input| - pos;
    if left < 2 || (len == 7 && left < 3) then Missing
    else if len == 7 then Reference(high + input[pos + 2] as int + 1, input[pos + 1] as int + 9, 3)
    else Reference(high + input[pos + 1] as int + 1, len + 2, 2)
  }

  lemma FirstReference(input: seq<byte>, pos: nat)
    requires pos < |input| && input[pos] >= 32
    ensures First(input[pos..]) == match ReferenceAt(input, pos)
                                   case Missing => None
                                   case Reference(dist, len, size) => Some(Copy(dist, len))
    ensures match ReferenceAt(input, pos)
            case Missing => true
            case Reference(dist, len, size) => |EncodeOne(Copy(dist, len))| == size
  {
  }

  /** The round of a control byte of 32 or more. */
  lemma ReferenceRound(input: seq<byte>, pos: nat, output: seq<byte>, room: nat)
    requires pos < |input| && input[pos] >= 32
    ensures var r := ReferenceAt(input, pos);
            if r.Reference? && r.dist <= |output| && |output| + r.len <= room
            then Feasible(input, pos, output, room)
              && Round(input, pos, pos + r.size, output, Extend(output, r.dist, r.len), room)
            else !Feasible(input, pos, output, room)
  {
    hide First, EncodeOne, Extend, ReferenceAt, Feasible, Round;
    FirstReference(input, pos);
    RoundIs(input, pos, output, room);
  }

  lemma BehindTheEnd(input: seq<byte>, output: seq<byte>, room: nat)
    ensures !Feasible(input, |input|, output, room)
  {
  }

  /** A control byte below 32. */
  method DecodeLiteral(input: seq<byte>, pos: nat, control: byte, a: array<byte>, start: nat, outEnd: nat,
                       ghost base: nat, ghost mem: seq<byte>, ghost output: seq<byte>, ghost room: nat)
    returns (ok: bool, ip: nat, op: nat, ghost output': seq<byte>)
    requires pos <= |input| && (pos < |input| ==> control == input[pos]) && control < 32
    requires start == base + |output| && |output| <= room && outEnd == base + room <= a.Length == |mem|
    requires Memory(a, Patch(mem, base, output))
    modifies a
    ensures op == base + |output'| <= outEnd && Memory(a, Patch(mem, base, output'))
    ensures ok <==> Feasible(input, pos, output, room)
    ensures if ok then Round(input, pos, ip, output, output', room) else |output'| == |output|
  {
    hide *;
    BehindTheEnd(input, output, room);
    if pos < |input| {
      LiteralRound(input, pos, output, room);
    }
    var inEnd := |input|;
    var ctrl: int := control;
    ip, op, output' := pos + 1, start, output;
    ctrl := ctrl + 1;
    if op + ctrl > outEnd {
      return false, ip, op, output;
    }
    if ip + ctrl > inEnd {
      return false, ip, op, output;
    }
    ghost var run := input[ip..ip + ctrl];
    output' := output + run;
    PatchJoin(mem, base, output, run);
    op := CopyLiteral(input, ip, a, op, ctrl, Patch(mem, base, output));
    ok := true;
    ip := ip + ctrl;
  }

  /** Fetch the rest of a back reference whose control byte was at pos: its
      source relative to op, its length less two, and what follows it. */
  method FetchReference(input: seq<byte>, pos: nat, control: byte, op: int)
    returns (ok: bool, ip: nat, ref: int, len: nat)
    requires pos <= |input| && (pos < |input| ==> control == input[pos]) && control >= 32
    ensures ok <==> pos < |input| && ReferenceAt(input, pos).Reference?
    ensures ok ==> var r := ReferenceAt(input, pos); r.dist == op - ref && r.len == len + 2 && r.size == ip - pos
  {
    var inEnd := |input|;
    var ctrl: int := control;
    ip, ref, len := pos + 1, op - ctrl % 32 * 256 - 1, ctrl / 32;
    if ip >= inEnd {
      return false, ip, ref, len;
    }
    if len == 7 {
      len := len + input[ip] as int;
      ip := ip + 1;
      if ip >= inEnd {
        return false, ip, ref, len;
      }
    }
    ref := ref - input[ip] as int;
    ip := ip + 1;
    ok := true;
  }

  /** A control byte of 32 or more. */
  method DecodeReference(input: seq<byte>, pos: nat, control: byte, a: array<byte>, outData: nat, start: nat,
                         outEnd: nat, ghost mem: seq<byte>, ghost output: seq<byte>, ghost room: nat)
    returns (ok: bool, ip: nat, op: nat, ghost output': seq<byte>)
    requires pos <= |input| && (pos < |input| ==> control == input[pos]) && control >= 32
    requires start == outData + |output| && |output| <= room && outEnd == outData + room <= a.Length == |mem|
    requires Memory(a, Patch(mem, outData, output))
    modifies a
    ensures op == outData + |output'| <= outEnd && Memory(a, Patch(mem, outData, output'))
    ensures ok <==> Feasible(input, pos, output, room)
    ensures if ok then Round(input, pos, ip, output, output', room) else |output'| == |output|
  {
    hide *;
    BehindTheEnd(input, output, room);
    if pos < |input| {
      ReferenceRound(input, pos, output, room);
    }
    var ref, len;
    op, output' := start, output;
    ok, ip, ref, len := FetchReference(input, pos, control, op);
    if !ok {
      return;
    }
    ghost var dist, n := start - ref, len + 2;
    if op + len + 2 > outEnd {
      return false, ip, op, output;
    }
    if ref < outData {
      return false, ip, op, output;
    }
    output' := Extend(output, dist, n);
    ContinuedOutput(mem, outData, output, dist, n);
    op := CopyReference(a, op, ref, len, Patch(mem, outData, output), outData, n);
  }

  lemma RunOfEnd(output: seq<byte>, room: nat)
    ensures Run([], output, room) == Some(output)
  {
  }

  /** Decode input into the outLen bytes of out at base. The result is the
      number of bytes produced, or 0. The control byte is fetched before the
      length is looked at; behind says that one was fetched behind the input,
      where it may be anything. */
  method Decompress(input: seq<byte>, out: array<byte>, base: nat, outLen: nat, ghost mem: seq<byte>)
    returns (n: nat, ghost output: seq<byte>, ghost behind: bool)
    requires base + outLen <= out.Length == |mem| && Memory(out, mem)
    modifies out
    ensures behind <==> input == []
    ensures |output| <= outLen && Memory(out, Patch(mem, base, output))
    ensures match Run(input, [], outLen)
            case Some(data) => n == |data| && output == data
            case None => n == 0
  {
    hide *;
    RunOfEnd([], outLen);
    assert input[0..] == input;
    PatchNothing(mem, base);
    var ip, op := 0, base;
    output, behind := [], false;
    while true
      invariant ip <= |input| && (ip < |input| || ip == 0) && (ip == 0 ==> output == [])
      invariant behind ==> input == []
      invariant ip > 0 ==> input != []
      invariant op == base + |output| && |output| <= outLen
      invariant Memory(out, Patch(mem, base, output))
      invariant Run(input, [], outLen) == Run(input[ip..], output, outLen)
      decreases |input| - ip
    {
      var ok: bool;
      ghost var pos, before := ip, output;
      var ctrl: byte := *;
      if ip < |input| {
        ctrl := input[ip];
      } else {
        behind := true;
      }
      if ctrl < 32 {
        ok, ip, op, output := DecodeLiteral(input, ip, ctrl, out, op, base + outLen, base, mem, output, outLen);
      } else {
        ok, ip, op, output := DecodeReference(input, ip, ctrl, out, base, op, base + outLen, mem, output, outLen);
      }
      if !ok {
        if pos < |input| {
          Stuck(input, pos, before, outLen);
        }
        return 0, output, behind;
      }
      RoundRun(input, pos, ip, before, output, outLen);
      if ip >= |input| {
        break;
      }
    }
    assert input[ip..] == [];
    RunOfEnd(output, outLen);
    n := op - base;
  }
}
