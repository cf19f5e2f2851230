/** gimli's `EndianSlice`: the unread rest of a byte string together with its address. */
module Slices {
  import opened Words
  import opened Wrappers

  datatype RawSlice = Slice(ptr: Word, data: seq<Byte>)

  /** `get_unlimited_slice` (src/util.rs) never builds a slice that wraps around the address space. */
  type Slice = s: RawSlice | s.ptr + |s.data| < WORD witness Slice(0, [])

  function Drop(s: Slice, n: nat): Slice
    requires n <= |s.data|
  {
    Slice(s.ptr + n, s.data[n..])
  }

  lemma DropPrefix(p: Word, e: seq<Byte>, t: seq<Byte>)
    requires p + |e| + |t| < WORD
    ensures Drop(Slice(p, e + t), |e|) == Slice(p + |e|, t)
  {
  }

  /** `rest` is shorter than `s` by at least `n` bytes. */
  ghost predicate Shorter(rest: Slice, s: Slice, n: nat) {
    |rest.data| + n <= |s.data|
  }

  function Skip(s: Slice, n: nat): (r: Outcome<Slice>)
    ensures r.Done? ==> Shorter(r.value, s, n)
  {
    if n <= |s.data| then Done(Drop(s, n)) else Error
  }

  function ReadU8(s: Slice): (r: Outcome<(Byte, Slice)>)
    ensures r.Done? ==> Shorter(r.value.1, s, 1)
  {
    if s.data == [] then Error else Done((s.data[0], Drop(s, 1)))
  }

  function Pow256(n: nat): (p: nat)
    ensures p > 0
  {
    if n == 0 then 1 else 256 * Pow256(n - 1)
  }

  /** Little-endian value of a byte string. */
  function FromLE(bs: seq<Byte>): (v: nat)
    ensures v < Pow256(|bs|)
  {
    if bs == [] then 0 else bs[0] + 256 * FromLE(bs[1..])
  }

  function ToLE(v: nat, n: nat): (bs: seq<Byte>)
    ensures |bs| == n
  {
    if n == 0 then [] else [v % 256] + ToLE(v / 256, n - 1)
  }

  /** Each byte weighs 256 times the one before it. */
  lemma {:induction false} LittleEndian(a: seq<Byte>, b: seq<Byte>)
    ensures FromLE([]) == 0 && forall x: Byte :: FromLE([x]) == x
    ensures FromLE(a + b) == FromLE(a) + Pow256(|a|) * FromLE(b)
    ensures Pow256(0) == 1 && Pow256(|a| + 1) == 256 * Pow256(|a|)
  {
    forall x: Byte ensures FromLE([x]) == x { assert [x][1..] == []; }
    if a == [] {
      assert a + b == b;
    } else {
      assert (a + b)[1..] == a[1..] + b;
      LittleEndian(a[1..], b);
      Distribute(Pow256(|a| - 1), FromLE(b));
    }
  }

  lemma Distribute(p: nat, v: nat)
    ensures 256 * (p * v) == (256 * p) * v
  {
  }

  lemma {:induction false} FromToLE(v: nat, n: nat)
    requires v < Pow256(n)
    ensures FromLE(ToLE(v, n)) == v
  {
    if n != 0 {
      FromToLE(v / 256, n - 1);
      assert ToLE(v, n)[1..] == ToLE(v / 256, n - 1);
    }
  }

  lemma {:induction false} ToFromLE(bs: seq<Byte>)
    ensures ToLE(FromLE(bs), |bs|) == bs
  {
    if bs != [] {
      var rest := FromLE(bs[1..]);
      assert (bs[0] + 256 * rest) % 256 == bs[0] && (bs[0] + 256 * rest) / 256 == rest;
      ToFromLE(bs[1..]);
    }
  }

  /** A fixed-size unsigned little-endian read of `n` bytes. */
  function ReadFixed(s: Slice, n: nat): (r: Outcome<(nat, Slice)>)
    ensures r.Done? ==> r.value.0 < Pow256(n) && Shorter(r.value.1, s, n)
  {
    if n <= |s.data| then Done((FromLE(s.data[..n]), Drop(s, n))) else Error
  }

  /** A mutable reader, as `&mut StaticSlice` is passed around in src/personality.rs. */
  class Reader {
    var rest: Slice

    constructor (s: Slice)
      ensures rest == s
    {
      rest := s;
    }
  }
}
