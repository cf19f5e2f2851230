/** Encoded pointers (section 10.5 of the LSB Core Specification; src/personality.rs:23-79). */
module Pointers {
  import opened Words
  import opened Wrappers
  import opened Slices
  import opened Leb128

  /** What the accessors of `UnwindContext` answer about the frame whose LSDA is being read. */
  datatype View = View(
    memory: Memory,
    textBase: Option<Word>,
    dataBase: Option<Word>,
    regionStart: Word,
    ip: Word,
    signal: bool
  )

  datatype Pointer = Direct(address: Word) | Indirect(address: Word)

  /** `deref_pointer` (src/util.rs:13-18). */
  function Deref(m: Memory, p: Pointer): Word {
    match p
    case Direct(a) => a
    case Indirect(a) => Load(m, a)
  }

  const OMIT: Byte := 0xff

  const ABSPTR: Byte := 0x00
  const ULEB128: Byte := 0x01
  const UDATA2: Byte := 0x02
  const UDATA4: Byte := 0x03
  const UDATA8: Byte := 0x04
  const SLEB128: Byte := 0x09
  const SDATA2: Byte := 0x0a
  const SDATA4: Byte := 0x0b
  const SDATA8: Byte := 0x0c

  const PCREL: Byte := 0x10
  const TEXTREL: Byte := 0x20
  const DATAREL: Byte := 0x30
  const FUNCREL: Byte := 0x40
  const ALIGNED: Byte := 0x50

  function Format(e: Byte): Byte { e % 16 }

  function Application(e: Byte): Byte { e / 16 % 8 * 16 }

  predicate IsIndirect(e: Byte) { e >= 128 }

  predicate ValidFormat(f: Byte) {
    f in [ABSPTR, ULEB128, UDATA2, UDATA4, UDATA8, SLEB128, SDATA2, SDATA4, SDATA8]
  }

  predicate ValidApplication(a: Byte) {
    a in [ABSPTR, PCREL, TEXTREL, DATAREL, FUNCREL, ALIGNED]
  }

  /** gimli's `is_valid_encoding`. */
  predicate ValidEncoding(e: Byte) {
    e == OMIT || (ValidFormat(Format(e)) && ValidApplication(Application(e)))
  }

  function PointerEncoding(s: Slice): (r: Outcome<(Byte, Slice)>)
    ensures r.Done? ==> ValidEncoding(r.value.0) && Shorter(r.value.1, s, 1)
    ensures r != Panic
  {
    var (e, rest) :- ReadU8(s);
    if ValidEncoding(e) then Done((e, rest)) else Error
  }

  /** The bytes to skip from `p` to the next multiple of eight. */
  function Padding(p: Word): (n: nat)
    ensures n < 8 && (p + n) % 8 == 0
  {
    (8 - p % 8) % 8
  }

  /** The base that the offset is added to, and the slice the offset is read from. */
  function PointerBase(application: Byte, view: View, s: Slice): (r: Outcome<(Word, Slice)>)
    ensures r.Done? ==> Shorter(r.value.1, s, 0)
  {
    if application == ABSPTR then Done((0, s))
    else if application == PCREL then Done((s.ptr, s))
    else if application == TEXTREL then
      match view.textBase { case None => Panic case Some(b) => Done((b, s)) }
    else if application == DATAREL then
      match view.dataBase { case None => Panic case Some(b) => Done((b, s)) }
    else if application == FUNCREL then Done((view.regionStart, s))
    else if application == ALIGNED then
      var rest :- Skip(s, Padding(s.ptr));
      Done((0, rest))
    else Panic
  }

  /** Sign extension of an `n`-byte two's complement value to a word. */
  function SignExtend(v: nat, n: nat): Word
    requires n <= 8 && v < Pow256(n)
  {
    PowBound(n);
    if 2 * v < Pow256(n) then v else v - Pow256(n) + WORD
  }

  lemma PowBound(n: nat)
    requires n <= 8
    ensures Pow256(n) <= WORD
  {
    assert Pow256(4) == 0x1_0000_0000 && Pow256(8) == 0x1_0000_0000 * Pow256(4);
    assert n <= 4 ==> Pow256(n) <= Pow256(4);
  }

  function ReadUnsigned(s: Slice, n: nat): (r: Outcome<(Word, Slice)>)
    requires n <= 8
    ensures r.Done? ==> Shorter(r.value.1, s, n)
    ensures r != Panic
  {
    PowBound(n);
    var (v, rest) :- ReadFixed(s, n);
    Done((v, rest))
  }

  function ReadSigned(s: Slice, n: nat): (r: Outcome<(Word, Slice)>)
    requires n <= 8
    ensures r.Done? ==> Shorter(r.value.1, s, n)
    ensures r != Panic
  {
    var (v, rest) :- ReadFixed(s, n);
    Done((SignExtend(v, n), rest))
  }

  function ReadOffset(format: Byte, s: Slice): (r: Outcome<(Word, Slice)>)
    ensures r.Done? ==> Shorter(r.value.1, s, 1)
    ensures r == Panic ==> !ValidFormat(format)
  {
    if format == ABSPTR then ReadUnsigned(s, 8)
    else if format == ULEB128 then ReadUleb128(s)
    else if format == UDATA2 then ReadUnsigned(s, 2)
    else if format == UDATA4 then ReadUnsigned(s, 4)
    else if format == UDATA8 then ReadUnsigned(s, 8)
    else if format == SLEB128 then
      var (v, rest) :- ReadSleb128(s);
      Done((AsWord(v), rest))
    else if format == SDATA2 then ReadSigned(s, 2)
    else if format == SDATA4 then ReadSigned(s, 4)
    else if format == SDATA8 then ReadSigned(s, 8)
    else Panic
  }

  /** The pointer that an encoding makes of an address: the address itself or a place holding it. */
  function Encoded(e: Byte, address: Word): Pointer {
    if IsIndirect(e) then Indirect(address) else Direct(address)
  }

  function EncodedPointer(e: Byte, view: View, s: Slice): (r: Outcome<(Pointer, Slice)>)
    ensures r.Done? ==> Shorter(r.value.1, s, 1)
  {
    if e == OMIT then Error
    else
      var (base, s1) :- PointerBase(Application(e), view, s);
      var (offset, s2) :- ReadOffset(Format(e), s1);
      var address := WrappingAdd(base, offset);
      Done((Encoded(e, address), s2))
  }

  /** Neither `unreachable!` is hit once an encoding was validated: only a missing base panics. */
  lemma ValidatedNeverUnreachable(e: Byte, view: View, s: Slice)
    requires ValidEncoding(e)
    ensures EncodedPointer(e, view, s) == Panic <==>
            e != OMIT && ((Application(e) == TEXTREL && view.textBase == None) ||
                          (Application(e) == DATAREL && view.dataBase == None))
  {
  }

  // ----- The encodings by number (section 10.5 of the LSB Core Specification) -----

  lemma EncodingBytes(e: Byte)
    ensures ValidEncoding(e) <==> e == 0xff || (e % 16 in {0, 1, 2, 3, 4, 9, 10, 11, 12} && e / 16 % 8 <= 5)
  {
  }

  /** The `n` bytes at the cursor as an unsigned integer, and as a signed one modulo 2^64. */
  lemma OffsetMeans(format: Byte, s: Slice)
    ensures format == 1 ==> ReadOffset(format, s) == ReadUleb128(s)
    ensures format in {0, 4, 12} ==>
              ReadOffset(format, s) == if |s.data| < 8 then Error else Done((FromLE(s.data[..8]), Drop(s, 8)))
    ensures format == 2 ==>
              ReadOffset(format, s) == if |s.data| < 2 then Error else Done((FromLE(s.data[..2]), Drop(s, 2)))
    ensures format == 3 ==>
              ReadOffset(format, s) == if |s.data| < 4 then Error else Done((FromLE(s.data[..4]), Drop(s, 4)))
    ensures format == 10 ==>
              if |s.data| < 2 then ReadOffset(format, s) == Error
              else
                var v := FromLE(s.data[..2]);
                ReadOffset(format, s) == Done(((if v < 0x8000 then v else v - 0x1_0000) % WORD, Drop(s, 2)))
    ensures format == 11 ==>
              if |s.data| < 4 then ReadOffset(format, s) == Error
              else
                var v := FromLE(s.data[..4]);
                ReadOffset(format, s) == Done(((if v < 0x8000_0000 then v else v - 0x1_0000_0000) % WORD, Drop(s, 4)))
    ensures format == 9 ==>
              if ReadSleb128(s).Done?
              then ReadOffset(format, s) == Done((ReadSleb128(s).value.0 % WORD, ReadSleb128(s).value.1))
              else ReadOffset(format, s) == ReadSleb128(s).PropagateFailure()
    ensures format !in {0, 1, 2, 3, 4, 9, 10, 11, 12} ==> ReadOffset(format, s) == Panic
  {
    hide ReadUleb128, ReadSleb128, FromLE, Pow256;
    Pows();
  }

  /** What an offset is relative to: nothing, the cursor, the text, the data or the function; or aligned to eight. */
  lemma BaseMeans(application: Byte, view: View, s: Slice, n: nat)
    ensures application == 0x00 ==> PointerBase(application, view, s) == Done((0, s))
    ensures application == 0x10 ==> PointerBase(application, view, s) == Done((s.ptr, s))
    ensures application == 0x20 ==>
              PointerBase(application, view, s) == if view.textBase.Some? then Done((view.textBase.value, s)) else Panic
    ensures application == 0x30 ==>
              PointerBase(application, view, s) == if view.dataBase.Some? then Done((view.dataBase.value, s)) else Panic
    ensures application == 0x40 ==> PointerBase(application, view, s) == Done((view.regionStart, s))
    ensures application == 0x50 && n < 8 && (s.ptr + n) % 8 == 0 ==>
              PointerBase(application, view, s) == if n <= |s.data| then Done((0, Drop(s, n))) else Error
    ensures application !in {0x00, 0x10, 0x20, 0x30, 0x40, 0x50} ==> PointerBase(application, view, s) == Panic
  {
    if n < 8 && (s.ptr + n) % 8 == 0 { PaddingUnique(s.ptr, n); }
  }

  lemma PaddingUnique(p: Word, n: nat)
    requires n < 8 && (p + n) % 8 == 0
    ensures n == Padding(p)
  {
    var m := Padding(p);
    assert (p + n) - (p + m) == n - m;
  }

  /** A pointer is the sum of the two; with the high bit of the encoding set, it is the word stored there. */
  lemma PointerMeans(e: Byte, view: View, s: Slice, base: Word, s1: Slice, offset: Word, s2: Slice)
    requires e != 0xff
    requires PointerBase(e / 16 % 8 * 16, view, s) == Done((base, s1)) && ReadOffset(e % 16, s1) == Done((offset, s2))
    ensures EncodedPointer(e, view, s).Done? && EncodedPointer(e, view, s).value.1 == s2
    ensures Deref(view.memory, EncodedPointer(e, view, s).value.0) ==
            if e >= 128 then Load(view.memory, (base + offset) % WORD) else (base + offset) % WORD
  {
    hide PointerBase, ReadOffset;
  }

  /** Reading fails as its base or else its offset does; the marker of an absent pointer is none to read. */
  lemma PointerFails(e: Byte, view: View, s: Slice)
    ensures EncodedPointer(0xff, view, s) == Error
    ensures var base := PointerBase(e / 16 % 8 * 16, view, s);
            && (e != 0xff && !base.Done? ==> EncodedPointer(e, view, s) == base.PropagateFailure())
            && (e != 0xff && base.Done? && !ReadOffset(e % 16, base.value.1).Done? ==>
                  EncodedPointer(e, view, s) == ReadOffset(e % 16, base.value.1).PropagateFailure())
  {
    hide PointerBase, ReadOffset;
  }

  /** An encoding is one byte; there must be one, and it must be a valid one. */
  lemma PointerEncodingMeans(s: Slice)
    ensures PointerEncoding(s) ==
            if s.data != [] &&
               (s.data[0] == 0xff || (s.data[0] % 16 in {0, 1, 2, 3, 4, 9, 10, 11, 12} && s.data[0] / 16 % 8 <= 5))
            then Done((s.data[0], Drop(s, 1))) else Error
  {
    if s.data != [] { EncodingBytes(s.data[0]); }
  }

  /** The words a format can hold as an offset. */
  predicate FitsFormat(format: Byte, offset: Word) {
    if format == UDATA2 then offset < 0x1_0000
    else if format == UDATA4 then offset < 0x1_0000_0000
    else if format == SDATA2 then -0x8000 <= AsSigned(offset) < 0x8000
    else if format == SDATA4 then -0x8000_0000 <= AsSigned(offset) < 0x8000_0000
    else true
  }

  /** The `n`-byte two's complement form of a signed value. */
  function ToTwos(v: int, n: nat): nat
    requires 0 <= 2 * v + Pow256(n)
  {
    if v < 0 then v + Pow256(n) else v
  }

  function EncodeOffset(format: Byte, offset: Word): seq<Byte>
    requires ValidFormat(format) && FitsFormat(format, offset)
  {
    Pows();
    if format == ULEB128 then EncodeUnsigned(offset)
    else if format == SLEB128 then EncodeSigned(AsSigned(offset))
    else if format == UDATA2 then ToLE(offset, 2)
    else if format == UDATA4 then ToLE(offset, 4)
    else if format == SDATA2 then ToLE(ToTwos(AsSigned(offset), 2), 2)
    else if format == SDATA4 then ToLE(ToTwos(AsSigned(offset), 4), 4)
    else ToLE(offset, 8)
  }

  predicate HasBase(e: Byte, view: View) {
    && (Application(e) == TEXTREL ==> view.textBase.Some?)
    && (Application(e) == DATAREL ==> view.dataBase.Some?)
  }

  /** The base of a pointer encoded at address `p`. */
  function BaseAt(e: Byte, view: View, p: Word): Word
    requires HasBase(e, view)
  {
    var a := Application(e);
    if a == PCREL then p
    else if a == TEXTREL then view.textBase.value
    else if a == DATAREL then view.dataBase.value
    else if a == FUNCREL then view.regionStart
    else 0
  }

  function PaddingAt(e: Byte, p: Word): nat {
    if Application(e) == ALIGNED then Padding(p) else 0
  }

  function OffsetAt(e: Byte, view: View, p: Word, address: Word): Word
    requires HasBase(e, view)
  {
    WrappingSub(address, BaseAt(e, view, p))
  }

  /** `address` can be written at `p` in the encoding `e`. */
  predicate Encodable(e: Byte, view: View, p: Word, address: Word) {
    && ValidEncoding(e) && e != OMIT && HasBase(e, view)
    && FitsFormat(Format(e), OffsetAt(e, view, p, address))
  }

  function EncodePointer(e: Byte, view: View, p: Word, address: Word): (bytes: seq<Byte>)
    requires Encodable(e, view, p, address)
  {
    seq(PaddingAt(e, p), _ => 0) + EncodeOffset(Format(e), OffsetAt(e, view, p, address))
  }

  lemma FixedRoundTrip(p: Word, v: nat, n: nat, t: seq<Byte>)
    requires v < Pow256(n) && p + n + |t| < WORD
    ensures ReadFixed(Slice(p, ToLE(v, n) + t), n) == Done((v, Slice(p + n, t)))
  {
    FromToLE(v, n);
    assert (ToLE(v, n) + t)[..n] == ToLE(v, n);
    assert (ToLE(v, n) + t)[n..] == t;
  }

  lemma Pows()
    ensures Pow256(2) == 0x1_0000 && Pow256(4) == 0x1_0000_0000 && Pow256(8) == WORD
  {
    assert Pow256(8) == 0x1_0000_0000 * Pow256(4);
  }

  lemma SignedRoundTrip(offset: Word, n: nat, p: Word, t: seq<Byte>)
    requires n <= 8 && Pow256(n) <= WORD && p + n + |t| < WORD
    requires 0 <= 2 * AsSigned(offset) + Pow256(n) < 2 * Pow256(n)
    ensures ReadSigned(Slice(p, ToLE(ToTwos(AsSigned(offset), n), n) + t), n) == Done((offset, Slice(p + n, t)))
  {
    FixedRoundTrip(p, ToTwos(AsSigned(offset), n), n, t);
  }

  lemma UnsignedOffsetRoundTrip(format: Byte, offset: Word, p: Word, t: seq<Byte>)
    requires format in [ABSPTR, UDATA2, UDATA4, UDATA8] && FitsFormat(format, offset)
    requires p + |EncodeOffset(format, offset)| + |t| < WORD
    ensures ReadOffset(format, Slice(p, EncodeOffset(format, offset) + t))
         == Done((offset, Slice(p + |EncodeOffset(format, offset)|, t)))
  {
    Pows();
    var n := if format == UDATA2 then 2 else if format == UDATA4 then 4 else 8;
    assert EncodeOffset(format, offset) == ToLE(offset, n);
    FixedRoundTrip(p, offset, n, t);
  }

  lemma SignedOffsetRoundTrip(format: Byte, offset: Word, p: Word, t: seq<Byte>)
    requires format in [SDATA2, SDATA4, SDATA8] && FitsFormat(format, offset)
    requires p + |EncodeOffset(format, offset)| + |t| < WORD
    ensures ReadOffset(format, Slice(p, EncodeOffset(format, offset) + t))
         == Done((offset, Slice(p + |EncodeOffset(format, offset)|, t)))
  {
    Pows();
    var n := if format == SDATA2 then 2 else if format == SDATA4 then 4 else 8;
    assert EncodeOffset(format, offset) == ToLE(ToTwos(AsSigned(offset), n), n);
    SignedRoundTrip(offset, n, p, t);
  }

  /** Reading the encoding of an offset gives the offset back, whatever follows it. */
  lemma OffsetRoundTrip(format: Byte, offset: Word, p: Word, t: seq<Byte>)
    requires ValidFormat(format) && FitsFormat(format, offset)
    requires p + |EncodeOffset(format, offset)| + |t| < WORD
    ensures ReadOffset(format, Slice(p, EncodeOffset(format, offset) + t))
         == Done((offset, Slice(p + |EncodeOffset(format, offset)|, t)))
  {
    hide ReadUnsigned, ReadSigned, ReadUleb128, ReadSleb128, EncodeUnsigned, EncodeSigned, ToLE;
    if format == ULEB128 {
      UlebRoundTrip(p, offset, t);
    } else if format == SLEB128 {
      SlebRoundTrip(p, AsSigned(offset), t);
    } else if format in [ABSPTR, UDATA2, UDATA4, UDATA8] {
      UnsignedOffsetRoundTrip(format, offset, p, t);
    } else {
      SignedOffsetRoundTrip(format, offset, p, t);
    }
  }

  /** What a format can be read as is exactly what it can hold. */
  lemma OffsetReadFits(format: Byte, s: Slice)
    requires ReadOffset(format, s).Done?
    ensures FitsFormat(format, ReadOffset(format, s).value.0)
  {
    assert Pow256(2) == 0x1_0000 && Pow256(4) == 0x1_0000_0000 && Pow256(8) == WORD;
  }

  lemma SkipPadding(e: Byte, view: View, p: Word, pad: seq<Byte>, t: seq<Byte>)
    requires ValidEncoding(e) && e != OMIT && HasBase(e, view)
    requires |pad| == PaddingAt(e, p) && p + |pad| + |t| < WORD
    ensures PointerBase(Application(e), view, Slice(p, pad + t)) == Done((BaseAt(e, view, p), Slice(p + |pad|, t)))
  {
    assert (pad + t)[|pad|..] == t;
    if |pad| == 0 {
      assert pad + t == t;
    }
  }

  lemma EncodedPointerSteps(e: Byte, view: View, s: Slice, base: Word, s1: Slice, offset: Word, s2: Slice)
    requires e != OMIT
    requires PointerBase(Application(e), view, s) == Done((base, s1))
    requires ReadOffset(Format(e), s1) == Done((offset, s2))
    ensures EncodedPointer(e, view, s) == Done((Encoded(e, WrappingAdd(base, offset)), s2))
  {
  }

  lemma PartsRoundTrip(e: Byte, view: View, p: Word, offset: Word, pad: seq<Byte>, bytes: seq<Byte>, t: seq<Byte>)
    requires ValidEncoding(e) && e != OMIT && HasBase(e, view) && FitsFormat(Format(e), offset)
    requires |pad| == PaddingAt(e, p) && bytes == EncodeOffset(Format(e), offset)
    requires p + |pad| + |bytes| + |t| < WORD
    ensures EncodedPointer(e, view, Slice(p, pad + (bytes + t)))
         == Done((Encoded(e, WrappingAdd(BaseAt(e, view, p), offset)), Slice(p + |pad| + |bytes|, t)))
  {
    var s := Slice(p, pad + (bytes + t));
    var s1 := Slice(p + |pad|, bytes + t);
    var s2 := Slice(p + |pad| + |bytes|, t);
    SkipPadding(e, view, p, pad, bytes + t);
    OffsetRoundTrip(Format(e), offset, p + |pad|, t);
    EncodedPointerSteps(e, view, s, BaseAt(e, view, p), s1, offset, s2);
  }

  /** Decoding inverts encoding for every valid format and application, modulo 2^64. */
  lemma PointerRoundTrip(e: Byte, view: View, p: Word, address: Word, t: seq<Byte>)
    requires Encodable(e, view, p, address)
    requires p + |EncodePointer(e, view, p, address)| + |t| < WORD
    ensures EncodedPointer(e, view, Slice(p, EncodePointer(e, view, p, address) + t))
         == Done((Encoded(e, address), Slice(p + |EncodePointer(e, view, p, address)|, t)))
  {
    var pad: seq<Byte> := seq(PaddingAt(e, p), _ => 0);
    var offset := OffsetAt(e, view, p, address);
    var bytes := EncodeOffset(Format(e), offset);
    assert pad + bytes + t == pad + (bytes + t);
    PartsRoundTrip(e, view, p, offset, pad, bytes, t);
  }

  method ParsePointerEncoding(input: Reader) returns (r: Outcome<Byte>)
    modifies input
    ensures match PointerEncoding(old(input.rest)) {
      case Done((e, rest)) => r == Done(e) && input.rest == rest
      case Error => r == Error
      case Panic => false
    }
  {
    var b := ReadU8(input.rest);
    if b.IsFailure() { return b.PropagateFailure(); }
    input.rest := b.value.1;
    if ValidEncoding(b.value.0) {
      return Done(b.value.0);
    } else {
      return Error;
    }
  }

  method ParseEncodedPointer(e: Byte, view: View, input: Reader) returns (r: Outcome<Pointer>)
    modifies input
    ensures match EncodedPointer(e, view, old(input.rest)) {
      case Done((p, rest)) => r == Done(p) && input.rest == rest
      case Error => r == Error
      case Panic => r == Panic
    }
  {
    if e == OMIT { return Error; }
    var base: Word;
    var a := Application(e);
    if a == ABSPTR {
      base := 0;
    } else if a == PCREL {
      base := input.rest.ptr;
    } else if a == TEXTREL {
      if view.textBase == None { return Panic; }
      base := view.textBase.value;
    } else if a == DATAREL {
      if view.dataBase == None { return Panic; }
      base := view.dataBase.value;
    } else if a == FUNCREL {
      base := view.regionStart;
    } else if a == ALIGNED {
      var skipped := Skip(input.rest, Padding(input.rest.ptr));
      if skipped.IsFailure() { return skipped.PropagateFailure(); }
      input.rest := skipped.value;
      base := 0;
    } else {
      return Panic;
    }
    var offset := ReadOffset(Format(e), input.rest);
    if offset.IsFailure() { return offset.PropagateFailure(); }
    input.rest := offset.value.1;
    var address := WrappingAdd(base, offset.value.0);
    return Done(Encoded(e, address));
  }
}
