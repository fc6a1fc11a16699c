/** The LZF stream format: instructions, what they mean and how they are
    written, and the one-pass decoder that reads them. */
module Lzf {
  import opened Arith
  import opened Bytes

  /** A literal run, or a copy of len bytes starting dist bytes back. */
  datatype Instr = Literal(run: seq<byte>) | Copy(dist: nat, len: nat)

  predicate Encodable(i: Instr) {
    match i
    case Literal(run) => 1 <= |run| <= 32
    case Copy(dist, len) => 1 <= dist <= 8192 && 3 <= len <= 264
  }

  function EncodeOne(i: Instr): (s: seq<byte>)
    requires Encodable(i)
    ensures 2 <= |s|
  {
    match i
    case Literal(run) => [(|run| - 1) as byte] + run
    case Copy(dist, len) =>
      var high, low := (dist - 1) / 256, (dist - 1) % 256;
      if len <= 8 then [((len - 2) * 32 + high) as byte, low]
      else [(7 * 32 + high) as byte, (len - 9) as byte, low]
  }

  predicate AllEncodable(prog: seq<Instr>) {
    forall i :: i in prog ==> Encodable(i)
  }

  function Encode(prog: seq<Instr>): seq<byte>
    requires AllEncodable(prog)
  {
    if prog == [] then [] else EncodeOne(prog[0]) + Encode(prog[1..])
  }

  /** The last dist bytes of out, repeated for len bytes, appended to out. */
  function Extend(out: seq<byte>, dist: nat, len: nat): (r: seq<byte>)
    requires 1 <= dist <= |out|
    ensures |r| == |out| + len
  {
    if len == 0 then out
    else
      var shorter := Extend(out, dist, len - 1);
      shorter + [shorter[|shorter| - dist]]
  }

  /** Does the instruction only reach back into out? */
  predicate Reaches(i: Instr, out: seq<byte>) {
    i.Copy? ==> 1 <= i.dist <= |out|
  }

  function Apply(i: Instr, out: seq<byte>): (r: seq<byte>)
    requires Reaches(i, out)
    ensures |r| == |out| + (if i.Literal? then |i.run| else i.len)
  {
    match i
    case Literal(run) => out + run
    case Copy(dist, len) => Extend(out, dist, len)
  }

  /** Every instruction reaches only into what was produced before it. */
  predicate Meaningful(prog: seq<Instr>, out: seq<byte>) {
    prog == [] || (Reaches(prog[0], out) && Meaningful(prog[1..], Apply(prog[0], out)))
  }

  /** out followed by the bytes the instructions stand for. */
  function Denote(prog: seq<Instr>, out: seq<byte>): seq<byte>
    requires Meaningful(prog, out)
  {
    if prog == [] then out else Denote(prog[1..], Apply(prog[0], out))
  }

  /** The first instruction of a stream, if all of it is there. */
  function First(s: seq<byte>): (r: Option<Instr>)
    requires s != []
    ensures r.Some? ==> Encodable(r.value) && |EncodeOne(r.value)| <= |s|
  {
    var ctrl: int := s[0];
    var len, high := ctrl / 32, ctrl % 32;
    if ctrl < 32 then
      if ctrl + 2 <= |s| then Some(Literal(s[1..ctrl + 2])) else None
    else if |s| < 2 then None
    else if len < 7 then Some(Copy(high * 256 + s[1] as int + 1, len + 2))
    else if |s| < 3 then None
    else Some(Copy(high * 256 + s[2] as int + 1, 7 + s[1] as int + 2))
  }

  /** Decode s with out already produced and room for room bytes in all. */
  function Run(s: seq<byte>, out: seq<byte>, room: nat): Option<seq<byte>>
    decreases |s|
  {
    if s == [] then Some(out)
    else
      match First(s)
      case None => None
      case Some(i) =>
        if !Reaches(i, out) || |Apply(i, out)| > room then None
        else Run(s[|EncodeOne(i)|..], Apply(i, out), room)
  }

  /** Whatever follows an encoded instruction, reading gives it back. */
  lemma FirstOfEncoded(i: Instr, rest: seq<byte>)
    requires Encodable(i)
    ensures First(EncodeOne(i) + rest) == Some(i)
  {
    match i
    case Literal(run) =>
      assert (EncodeOne(i) + rest)[1..|run| + 1] == run;
    case Copy(dist, len) =>
      FirstOfCopy(dist, len, EncodeOne(i) + rest);
  }

  lemma FirstOfCopy(dist: nat, len: nat, s: seq<byte>)
    requires 1 <= dist <= 8192 && 3 <= len <= 264
    requires var high: nat, low := (dist - 1) / 256, (dist - 1) % 256;
      if len <= 8 then |s| >= 2 && s[0] == (len - 2) * 32 + high && s[1] == low
      else |s| >= 3 && s[0] == 7 * 32 + high && s[1] == len - 9 && s[2] == low
    ensures First(s) == Some(Copy(dist, len))
  {
    var high: nat := (dist - 1) / 256;
    assert high < 32 && dist == high * 256 + (dist - 1) % 256 + 1;
    DivModUnique(s[0], 32, if len <= 8 then len - 2 else 7, high);
  }

  /** An instruction that was read is what the stream begins with. */
  lemma FirstIsEncoded(s: seq<byte>)
    requires s != [] && First(s).Some?
    ensures var i := First(s).value; EncodeOne(i) == s[..|EncodeOne(i)|]
  {
  }

  /** Decoding preserves meaning: encoded instructions decode to the bytes
      they stand for, when these fit. */
  lemma {:induction false} RunOfEncoded(prog: seq<Instr>, out: seq<byte>, room: nat)
    requires AllEncodable(prog) && Meaningful(prog, out) && |Denote(prog, out)| <= room
    ensures Run(Encode(prog), out, room) == Some(Denote(prog, out))
    decreases |prog|
  {
    hide First, EncodeOne, Apply, Reaches;
    if prog != [] {
      var s, head := Encode(prog), EncodeOne(prog[0]);
      FirstOfEncoded(prog[0], Encode(prog[1..]));
      assert s[|head|..] == Encode(prog[1..]);
      RunOfEncoded(prog[1..], Apply(prog[0], out), room);
    }
  }

  /** Decoding accepts nothing else: every accepted stream is the encoding of
      instructions, and its result is what they stand for. */
  lemma {:induction false} RunIsEncoded(s: seq<byte>, out: seq<byte>, room: nat) returns (prog: seq<Instr>)
    requires Run(s, out, room).Some?
    ensures AllEncodable(prog) && Encode(prog) == s
    ensures Meaningful(prog, out) && Run(s, out, room) == Some(Denote(prog, out))
    ensures |out| <= room ==> |Denote(prog, out)| <= room
    decreases |s|
  {
    hide First, EncodeOne, Apply, Reaches;
    if s == [] {
      prog := [];
    } else {
      var i := First(s).value;
      var k := |EncodeOne(i)|;
      FirstIsEncoded(s);
      var rest := RunIsEncoded(s[k..], Apply(i, out), room);
      prog := [i] + rest;
      assert prog[1..] == rest;
      assert s == EncodeOne(i) + s[k..];
    }
  }

  /** The streams a decoder with that much room accepts, and their meaning. */
  ghost predicate Means(s: seq<byte>, data: seq<byte>) {
    exists prog: seq<Instr> :: Writes(prog, s, data)
  }

  ghost predicate Writes(prog: seq<Instr>, s: seq<byte>, data: seq<byte>) {
    AllEncodable(prog) && Encode(prog) == s && Meaningful(prog, []) && Denote(prog, []) == data
  }

  /** The decoder decides exactly the meaning of a stream. */
  lemma RunDecides(s: seq<byte>, data: seq<byte>, room: nat)
    ensures Run(s, [], room) == Some(data) <==> Means(s, data) && |data| <= room
  {
    if Run(s, [], room) == Some(data) {
      var prog := RunIsEncoded(s, [], room);
      assert Writes(prog, s, data);
    }
    if Means(s, data) && |data| <= room {
      var prog: seq<Instr> :| Writes(prog, s, data);
      RunOfEncoded(prog, [], room);
    }
  }

  /** The len bytes a copy adds to the output. */
  function Repetition(out: seq<byte>, dist: nat, len: nat): (r: seq<byte>)
    requires 1 <= dist <= |out|
    ensures |r| == len
  {
    Extend(out, dist, len)[|out|..]
  }

  lemma {:induction false} ExtendAppends(out: seq<byte>, dist: nat, len: nat)
    requires 1 <= dist <= |out|
    ensures Extend(out, dist, len) == out + Repetition(out, dist, len)
  {
    if len > 0 {
      ExtendAppends(out, dist, len - 1);
    }
  }

  /** A copy is the periodic continuation of the last dist bytes. */
  lemma {:induction false} ExtendIsPeriodic(out: seq<byte>, dist: nat, len: nat, i: nat)
    requires 1 <= dist <= |out| && i < len
    ensures Extend(out, dist, len)[|out| + i] == out[|out| - dist + i % dist]
  {
    if i < len - 1 {
      ExtendIsPeriodic(out, dist, len - 1, i);
    } else if i >= dist {
      ExtendIsPeriodic(out, dist, len - 1, i - dist);
      ModStep(i - dist, dist);
    } else {
      ExtendAppends(out, dist, len - 1);
      DivModUnique(i, dist, 0, i);
    }
  }

  /** When source and destination do not overlap, a copy moves one block. */
  lemma {:induction false} ExtendIsBlock(out: seq<byte>, dist: nat, len: nat)
    requires 1 <= dist <= |out| && len <= dist
    ensures Extend(out, dist, len) == out + out[|out| - dist..|out| - dist + len]
  {
    if len > 0 {
      ExtendIsBlock(out, dist, len - 1);
      var shorter := Extend(out, dist, len - 1);
      assert shorter[|shorter| - dist] == out[|out| - dist + len - 1];
      assert out[|out| - dist..|out| - dist + len]
          == out[|out| - dist..|out| - dist + len - 1] + [out[|out| - dist + len - 1]];
    }
  }

  /** A decoder's output is at most 88 times its input. */
  lemma {:induction false} RunExpansion(s: seq<byte>, out: seq<byte>, room: nat)
    ensures match Run(s, out, room)
            case Some(r) => |r| <= |out| + 88 * |s| && (s != [] ==> |r| > |out|)
            case None => true
    decreases |s|
  {
    if s != [] && First(s).Some? {
      var i := First(s).value;
      if Reaches(i, out) && |Apply(i, out)| <= room {
        RunExpansion(s[|EncodeOne(i)|..], Apply(i, out), room);
      }
    }
  }
}
