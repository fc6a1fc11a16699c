/** What sequences of chip commands amount to. */
module FlashTheory {
  import opened Arith
  import opened Bytes
  import opened Geometry
  import opened FlashChip

  lemma AllOnes(b: byte)
    ensures ByteAnd(0xFF, b) == b
  {
    hide Bits, OfBits;
    BitsOfAllOnes();
    AndAllOnes(Bits(b));
    OfBitsBits(b);
  }

  lemma BitsOfAllOnes()
    ensures Bits(0xFF) == 0xFF
  {
  }

  lemma AndAllOnes(v: bv8)
    ensures 0xFF & v == v
  {
  }

  /** Programming an erased page stores the data, although programming only
      clears bits. */
  lemma MergeErased(data: seq<byte>)
    ensures Merge(Filled(|data|, 0xFF), data) == data
  {
    hide ByteAnd;
    var m := Merge(Filled(|data|, 0xFF), data);
    forall i | 0 <= i < |data|
      ensures m[i] == data[i]
    {
      AllOnes(data[i]);
    }
  }

  /** The bits that are set in y and clear in x. */
  function Lacking(x: byte, y: byte): bv8 {
    Bits(y) & !Bits(x)
  }

  lemma CoversBits(v: bv8, w: bv8)
    ensures v & w == w <==> w & !v == 0
  {
  }

  lemma MergeByte(x: byte, y: byte)
    ensures ByteAnd(x, y) == y <==> Lacking(x, y) == 0
  {
    hide Bits, OfBits;
    CoversBits(Bits(x), Bits(y));
    OfBitsBits(y);
    BitsOfBits(Bits(x) & Bits(y));
  }

  /** Without an erase before it, programming stores the data only if no bit is
      to be set that is clear in a cell. */
  lemma MergeKeepsClearBits(cells: seq<byte>, data: seq<byte>)
    requires |cells| == |data|
    ensures Merge(cells, data) == data <==> forall i :: 0 <= i < |data| ==> Lacking(cells[i], data[i]) == 0
  {
    hide ByteAnd, Lacking;
    var m := Merge(cells, data);
    forall i | 0 <= i < |data|
      ensures m[i] == data[i] <==> Lacking(cells[i], data[i]) == 0
    {
      MergeByte(cells[i], data[i]);
    }
    assert m == data ==> forall i :: 0 <= i < |data| ==> m[i] == data[i];
  }

  /** A buffer write that stays inside the page does not wrap. */
  lemma {:induction false} WrapStoreInside(buffer: seq<byte>, at: nat, data: seq<byte>)
    requires at + |data| <= |buffer|
    ensures WrapStore(buffer, at, data) == Patch(buffer, at, data)
    decreases |data|
  {
    if data == [] {
      PatchNothing(buffer, at);
    } else {
      var n := |data| - 1;
      WrapStoreInside(buffer, at, data[..n]);
      DivModUnique(at + n, |buffer|, 0, at + n);
      PatchMore(buffer, at, data[..n], data[n]);
      assert data[..n] + [data[n]] == data;
    }
  }

  /** A read that stays inside the memory does not wrap. */
  lemma ReadOutInside(main: seq<byte>, from: nat, count: nat)
    requires from + count <= |main|
    ensures ReadOut(main, from, count) == main[from..from + count]
  {
    var r := ReadOut(main, from, count);
    forall i | 0 <= i < count
      ensures r[i] == main[from + i]
    {
      DivModUnique(from + i, |main|, 0, from + i);
    }
  }

  lemma PatchTwice(s: seq<byte>, at: nat, a: seq<byte>, b: seq<byte>)
    requires at + |a| <= |s| && |a| == |b|
    ensures Patch(Patch(s, at, a), at, b) == Patch(s, at, b)
  {
  }

  lemma SliceOfPatch(s: seq<byte>, at: nat, a: seq<byte>)
    requires at + |a| <= |s|
    ensures Patch(s, at, a)[at..at + |a|] == a
  {
  }

  /** Copy a page to the buffer, change a part of it, and write it back. */
  lemma ReadModifyWrite(d: Device, main: seq<byte>, p: nat, at: nat, data: seq<byte>)
    requires |main| == Total(d) && p < d.pages && at + |data| <= d.size
    ensures p * d.size + at + |data| <= |main|
    ensures WithPage(d, main, p, Patch(Page(d, main, p), at, data)) == Patch(main, p * d.size + at, data)
  {
    hide Patch;
    PageFits(d, p);
    var base := p * d.size;
    WindowPatch(main, base, d.size, at, data);
  }

  lemma WindowPatch(s: seq<byte>, base: nat, size: nat, at: nat, data: seq<byte>)
    requires base + size <= |s| && at + |data| <= size
    ensures Patch(s, base, Patch(s[base..base + size], at, data)) == Patch(s, base + at, data)
  {
    var l, r := Patch(s, base, Patch(s[base..base + size], at, data)), Patch(s, base + at, data);
    assert forall i :: 0 <= i < |s| ==> l[i] == r[i];
  }

  // The discipline of a command trace.

  /** Event i came when the chip was ready; a buffer write stays in the page;
      programming without erase comes directly after a successful erase of the
      same page. */
  ghost predicate Proper(d: Device, trace: seq<Event>, i: nat)
    requires i < |trace|
  {
    !trace[i].early &&
    match trace[i].op
    case BufferWrite(at, data) => at + |data| <= d.size
    case Program(p) => i > 0 && trace[i - 1] == Event(Erase(p), false, true)
    case Ignored => false
    case _ => true
  }

  ghost predicate Disciplined(d: Device, trace: seq<Event>) {
    forall i :: 0 <= i < |trace| ==> Proper(d, trace, i)
  }

  lemma DisciplinedMore(d: Device, trace: seq<Event>, e: Event)
    requires Disciplined(d, trace) && !e.early && !e.op.Ignored?
    requires e.op.BufferWrite? ==> e.op.at + |e.op.data| <= d.size
    requires e.op.Program? ==> trace != [] && trace[|trace| - 1] == Event(Erase(e.op.page), false, true)
    ensures Disciplined(d, trace + [e])
  {
    var t := trace + [e];
    forall i | 0 <= i < |t|
      ensures Proper(d, t, i)
    {
      if i < |trace| {
        assert Proper(d, trace, i);
      }
    }
  }
}
