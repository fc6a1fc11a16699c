/** Copying into memory, byte by byte. */
module Copying {
  import opened Bytes

  /** Copy between regions that do not overlap, byte by byte. */
  method Memcpy(a: array<byte>, dst: nat, src: nat, n: nat, ghost mem: seq<byte>)
    requires dst + n <= a.Length && src + n <= a.Length == |mem| && Memory(a, mem)
    requires src + n <= dst || dst + n <= src
    modifies a
    ensures Memory(a, Patch(mem, dst, mem[src..src + n]))
  {
    assert a[..] == mem;
    for i := 0 to n
      invariant forall j :: dst <= j < dst + i ==> a[j] == mem[src + (j - dst)]
      invariant forall j :: 0 <= j < a.Length && !(dst <= j < dst + i) ==> a[j] == mem[j]
    {
      a[dst + i] := a[src + i];
    }
    assert a[..] == Patch(mem, dst, mem[src..src + n]);
  }

  /** Store bytes that come from elsewhere. */
  method StoreBytes(a: array<byte>, at: nat, bytes: seq<byte>, ghost mem: seq<byte>)
    requires at + |bytes| <= a.Length == |mem| && Memory(a, mem)
    modifies a
    ensures Memory(a, Patch(mem, at, bytes))
  {
    assert a[..] == mem;
    for i := 0 to |bytes|
      invariant forall j :: at <= j < at + i ==> a[j] == bytes[j - at]
      invariant forall j :: 0 <= j < a.Length && !(at <= j < at + i) ==> a[j] == mem[j]
    {
      a[at + i] := bytes[i];
    }
    assert a[..] == Patch(mem, at, bytes);
  }
}
