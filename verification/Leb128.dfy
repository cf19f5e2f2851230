/**
 LEB128 integers (section 7.6 of DWARF 5), read into 64 bits with an overflow error:
 the tenth byte may only hold the one remaining bit, or copies of it when signed.
 */
module Leb128 {
  import opened Words
  import opened Wrappers
  import opened Slices

  /** The bytes of one LEB128 integer: every byte but the last has its high bit set. */
  predicate IsLeb(e: seq<Byte>) {
    e != [] && (if e[0] < 128 then |e| == 1 else IsLeb(e[1..]))
  }

  function UnsignedValue(e: seq<Byte>): nat
    requires IsLeb(e)
  {
    if e[0] < 128 then e[0] else e[0] - 128 + 128 * UnsignedValue(e[1..])
  }

  function SignedValue(e: seq<Byte>): int
    requires IsLeb(e)
  {
    if e[0] < 64 then e[0]
    else if e[0] < 128 then e[0] - 128
    else e[0] - 128 + 128 * SignedValue(e[1..])
  }

  /** 2^(63 - 7k): half the number of values that still fit when `k` bytes have been read. */
  function HalfLimit(k: nat): (n: int)
    requires k <= 9
    ensures k < 9 ==> n >= 128
  {
    if k == 0 then HALF
    else if k == 1 then 0x100_0000_0000_0000
    else if k == 2 then 0x2_0000_0000_0000
    else if k == 3 then 0x400_0000_0000
    else if k == 4 then 0x8_0000_0000
    else if k == 5 then 0x1000_0000
    else if k == 6 then 0x20_0000
    else if k == 7 then 0x4000
    else if k == 8 then 0x80
    else 1
  }

  predicate UnsignedFits(v: int, k: nat)
    requires k <= 9
  {
    0 <= v < 2 * HalfLimit(k)
  }

  predicate SignedFits(v: int, k: nat)
    requires k <= 9
  {
    -HalfLimit(k) <= v < HalfLimit(k)
  }

  /** Seven more low bits fit exactly when the bits above them do. */
  lemma FitsStep(low: int, high: int, k: nat)
    requires k < 9 && 0 <= low < 128
    ensures UnsignedFits(low + 128 * high, k) <==> UnsignedFits(high, k + 1)
    ensures SignedFits(low + 128 * high, k) <==> SignedFits(high, k + 1)
  {
    assert HalfLimit(k) == 128 * HalfLimit(k + 1);
  }

  /** Decodes from the byte with index `k`: the value of the bytes read and how many they are. */
  function UnsignedFrom(data: seq<Byte>, k: nat): (r: Option<(int, nat)>)
    requires k <= 9
    ensures r.Some? ==> UnsignedFits(r.value.0, k) && 1 <= r.value.1 <= |data|
    decreases |data|
  {
    if data == [] || (k == 9 && data[0] != 0 && data[0] != 1) then None
    else if data[0] < 128 then Some((data[0], 1))
    else
      match UnsignedFrom(data[1..], k + 1)
      case None => None
      case Some((high, n)) =>
        FitsStep(data[0] - 128, high, k);
        Some((data[0] - 128 + 128 * high, n + 1))
  }

  function SignedFrom(data: seq<Byte>, k: nat): (r: Option<(int, nat)>)
    requires k <= 9
    ensures r.Some? ==> SignedFits(r.value.0, k) && 1 <= r.value.1 <= |data|
    decreases |data|
  {
    if data == [] || (k == 9 && data[0] != 0 && data[0] != 0x7f) then None
    else if data[0] < 64 then Some((data[0], 1))
    else if data[0] < 128 then
      var v := data[0] as int - 128;
      Some((v, 1))
    else
      match SignedFrom(data[1..], k + 1)
      case None => None
      case Some((high, n)) =>
        FitsStep(data[0] - 128, high, k);
        Some((data[0] - 128 + 128 * high, n + 1))
  }

  function ReadUleb128(s: Slice): (r: Outcome<(Word, Slice)>)
    ensures r.Done? ==> Shorter(r.value.1, s, 1)
  {
    match UnsignedFrom(s.data, 0)
    case None => Error
    case Some((v, n)) => Done((v, Drop(s, n)))
  }

  function ReadSleb128(s: Slice): (r: Outcome<(Signed, Slice)>)
    ensures r.Done? ==> Shorter(r.value.1, s, 1)
  {
    match SignedFrom(s.data, 0)
    case None => Error
    case Some((v, n)) => Done((v, Drop(s, n)))
  }

  lemma {:induction false} UnsignedFromExact(e: seq<Byte>, t: seq<Byte>, k: nat)
    requires IsLeb(e) && k <= 9
    ensures UnsignedFrom(e + t, k) ==
            if |e| <= 10 - k && UnsignedFits(UnsignedValue(e), k)
            then Some((UnsignedValue(e), |e|)) else None
    decreases 9 - k
  {
    if 128 <= e[0] && k < 9 {
      assert (e + t)[1..] == e[1..] + t;
      FitsStep(e[0] - 128, UnsignedValue(e[1..]), k);
      UnsignedFromExact(e[1..], t, k + 1);
    }
  }

  lemma {:induction false} SignedFromExact(e: seq<Byte>, t: seq<Byte>, k: nat)
    requires IsLeb(e) && k <= 9
    ensures SignedFrom(e + t, k) ==
            if |e| <= 10 - k && SignedFits(SignedValue(e), k)
            then Some((SignedValue(e), |e|)) else None
    decreases 9 - k
  {
    if 128 <= e[0] && k < 9 {
      assert (e + t)[1..] == e[1..] + t;
      FitsStep(e[0] - 128, SignedValue(e[1..]), k);
      SignedFromExact(e[1..], t, k + 1);
    }
  }

  /**
   Reading accepts exactly the encodings of at most ten bytes whose value fits in 64 bits,
   however padded, and returns that value.
   */
  lemma UlebExact(p: Word, e: seq<Byte>, t: seq<Byte>)
    requires IsLeb(e) && p + |e| + |t| < WORD
    ensures |e| <= 10 && UnsignedValue(e) < WORD
            <==> ReadUleb128(Slice(p, e + t)) == Done((UnsignedValue(e), Slice(p + |e|, t)))
    ensures |e| <= 10 && UnsignedValue(e) < WORD <==> ReadUleb128(Slice(p, e + t)).Done?
  {
    UnsignedFromExact(e, t, 0);
    DropPrefix(p, e, t);
  }

  lemma SlebExact(p: Word, e: seq<Byte>, t: seq<Byte>)
    requires IsLeb(e) && p + |e| + |t| < WORD
    ensures |e| <= 10 && -HALF <= SignedValue(e) < HALF
            <==> ReadSleb128(Slice(p, e + t)) == Done((SignedValue(e), Slice(p + |e|, t)))
    ensures |e| <= 10 && -HALF <= SignedValue(e) < HALF <==> ReadSleb128(Slice(p, e + t)).Done?
  {
    SignedFromExact(e, t, 0);
    DropPrefix(p, e, t);
  }

  /** The length of the integer that a byte string starts with; bytes that never end one have none. */
  function LebLength(data: seq<Byte>): (n: Option<nat>)
    ensures n.Some? ==> n.value <= |data| && IsLeb(data[..n.value])
    ensures n.None? <==> forall i | 0 <= i < |data| :: data[i] >= 128
  {
    if data == [] then None
    else if data[0] < 128 then Some(1)
    else
      match LebLength(data[1..])
      case None =>
        assert forall i | 1 <= i < |data| :: data[i] == data[1..][i - 1];
        None
      case Some(n) =>
        assert data[..n + 1][1..] == data[1..][..n];
        assert exists i | 0 <= i < |data[1..]| :: data[1..][i] < 128 && data[i + 1] == data[1..][i];
        Some(n + 1)
  }

  lemma {:induction false} UnterminatedFails(data: seq<Byte>, k: nat)
    requires k <= 9 && forall i | 0 <= i < |data| :: data[i] >= 128
    ensures UnsignedFrom(data, k) == None && SignedFrom(data, k) == None
    decreases |data|
  {
    if data != [] && k < 9 {
      UnterminatedFails(data[1..], k + 1);
    }
  }

  /** What any bytes are read as: the integer they start with if it is short and small enough, else an error. */
  lemma UlebTotal(s: Slice)
    ensures ReadUleb128(s) ==
            var n := LebLength(s.data);
            if n.Some? && n.value <= 10 && UnsignedValue(s.data[..n.value]) < WORD
            then Done((UnsignedValue(s.data[..n.value]), Drop(s, n.value))) else Error
  {
    hide UnsignedFrom, UnsignedValue;
    var n := LebLength(s.data);
    if n.Some? {
      assert s.data[..n.value] + s.data[n.value..] == s.data;
      UlebExact(s.ptr, s.data[..n.value], s.data[n.value..]);
      UlebNeverPanics(s);
    } else {
      UnterminatedFails(s.data, 0);
    }
  }

  lemma UlebNeverPanics(s: Slice)
    ensures ReadUleb128(s) != Panic && ReadSleb128(s) != Panic
  {
  }

  lemma SlebTotal(s: Slice)
    ensures ReadSleb128(s) ==
            var n := LebLength(s.data);
            if n.Some? && n.value <= 10 && -HALF <= SignedValue(s.data[..n.value]) < HALF
            then Done((SignedValue(s.data[..n.value]), Drop(s, n.value))) else Error
  {
    hide SignedFrom, SignedValue;
    var n := LebLength(s.data);
    if n.Some? {
      assert s.data[..n.value] + s.data[n.value..] == s.data;
      SlebExact(s.ptr, s.data[..n.value], s.data[n.value..]);
      UlebNeverPanics(s);
    } else {
      UnterminatedFails(s.data, 0);
    }
  }

  /** The examples of section 7.6 of DWARF 5, tables 7.7 and 7.8. */
  lemma DwarfExamples(p: Word)
    requires p + 2 < WORD
    ensures ReadUleb128(Slice(p, [2])) == Done((2, Slice(p + 1, [])))
            && ReadUleb128(Slice(p, [127])) == Done((127, Slice(p + 1, [])))
    ensures ReadUleb128(Slice(p, [128, 1])) == Done((128, Slice(p + 2, [])))
    ensures ReadUleb128(Slice(p, [57 + 128, 100])) == Done((12857, Slice(p + 2, [])))
    ensures ReadSleb128(Slice(p, [2])) == Done((2, Slice(p + 1, [])))
            && ReadSleb128(Slice(p, [0x7e])) == Done((-2, Slice(p + 1, [])))
    ensures ReadSleb128(Slice(p, [127 + 128, 0])) == Done((127, Slice(p + 2, [])))
    ensures ReadSleb128(Slice(p, [1 + 128, 0x7f])) == Done((-127, Slice(p + 2, [])))
    ensures ReadSleb128(Slice(p, [0 + 128, 1])) == Done((128, Slice(p + 2, [])))
    ensures ReadSleb128(Slice(p, [0 + 128, 0x7f])) == Done((-128, Slice(p + 2, [])))
  {
    TwoBytes(128, 1);
    TwoBytes(57 + 128, 100);
    TwoBytes(127 + 128, 0);
    TwoBytes(1 + 128, 0x7f);
    TwoBytes(0 + 128, 0x7f);
  }

  /** A byte with its high bit set gives the low seven bits, and the next one those above them. */
  lemma TwoBytes(a: Byte, b: Byte)
    requires a >= 128 && b < 128
    ensures UnsignedFrom([a, b], 0) == Some((a - 128 + 128 * b, 2))
    ensures SignedFrom([a, b], 0) == Some((a - 128 + 128 * (if b < 64 then b else b - 128), 2))
  {
    assert [a, b][1..] == [b];
  }

  /** The shortest unsigned encoding. */
  function EncodeUnsigned(v: nat): (e: seq<Byte>)
    ensures IsLeb(e) && UnsignedValue(e) == v
  {
    if v < 128 then [v]
    else
      var tail := EncodeUnsigned(v / 128);
      assert ([v % 128 + 128] + tail)[1..] == tail;
      [v % 128 + 128] + tail
  }

  /** The shortest signed encoding. */
  function EncodeSigned(v: int): (e: seq<Byte>)
    ensures IsLeb(e) && SignedValue(e) == v
    decreases if v < 0 then -v else v
  {
    if 0 <= v < 64 then [v]
    else if -64 <= v < 0 then [v + 128]
    else
      var tail := EncodeSigned(v / 128);
      assert ([v % 128 + 128] + tail)[1..] == tail;
      [v % 128 + 128] + tail
  }

  lemma {:induction false} EncodeUnsignedLength(v: nat, k: nat)
    requires k <= 9 && UnsignedFits(v, k)
    ensures |EncodeUnsigned(v)| <= 10 - k
    decreases 9 - k
  {
    if v >= 128 {
      FitsStep(v % 128, v / 128, k);
      EncodeUnsignedLength(v / 128, k + 1);
    }
  }

  lemma {:induction false} EncodeSignedLength(v: int, k: nat)
    requires k <= 9 && SignedFits(v, k)
    ensures |EncodeSigned(v)| <= 10 - k
    decreases 9 - k
  {
    if v < -64 || 64 <= v {
      FitsStep(v % 128, v / 128, k);
      EncodeSignedLength(v / 128, k + 1);
    }
  }

  lemma UlebRoundTrip(p: Word, v: Word, t: seq<Byte>)
    requires p + |EncodeUnsigned(v)| + |t| < WORD
    ensures ReadUleb128(Slice(p, EncodeUnsigned(v) + t)) == Done((v, Slice(p + |EncodeUnsigned(v)|, t)))
  {
    EncodeUnsignedLength(v, 0);
    UlebExact(p, EncodeUnsigned(v), t);
  }

  lemma SlebRoundTrip(p: Word, v: Signed, t: seq<Byte>)
    requires p + |EncodeSigned(v)| + |t| < WORD
    ensures ReadSleb128(Slice(p, EncodeSigned(v) + t)) == Done((v, Slice(p + |EncodeSigned(v)|, t)))
  {
    EncodeSignedLength(v, 0);
    SlebExact(p, EncodeSigned(v), t);
  }
}
