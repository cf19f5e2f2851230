/** Straight-line machine code over registers and byte-addressed memory, for any word size. */
module Assembly {
  import opened Slices
  import Words

  type Byte = Words.Byte

  /** Every address is mapped; a byte never written reads as zero. */
  type Memory = map<int, Byte>

  function Peek(m: Memory, a: int): Byte {
    if a in m then m[a] else 0
  }

  function Bytes(m: Memory, a: int, n: nat): (bs: seq<Byte>)
    ensures |bs| == n && forall i | 0 <= i < n :: bs[i] == Peek(m, a + i)
  {
    seq<Byte>(n, i requires 0 <= i < n => Peek(m, a + i))
  }

  function Write(m: Memory, a: int, bs: seq<Byte>): Memory
    decreases |bs|
  {
    if bs == [] then m else Write(m[a := bs[0]], a + 1, bs[1..])
  }

  function Load(m: Memory, a: int, n: nat): nat {
    FromLE(Bytes(m, a, n))
  }

  function Store(m: Memory, a: int, n: nat, v: nat): Memory {
    Write(m, a, ToLE(v, n))
  }

  /** How many values a word of `n` bytes has. */
  function Size(n: nat): nat {
    Pow256(n)
  }

  lemma {:induction false} PeekWritten(m: Memory, a: int, bs: seq<Byte>, x: int)
    ensures Peek(Write(m, a, bs), x) == if a <= x < a + |bs| then bs[x - a] else Peek(m, x)
    decreases |bs|
  {
    if bs != [] {
      PeekWritten(m[a := bs[0]], a + 1, bs[1..], x);
    }
  }

  /** A load sees only the bytes it reads. */
  lemma LoadSame(m: Memory, m': Memory, a: int, n: nat)
    requires forall x | a <= x < a + n :: Peek(m, x) == Peek(m', x)
    ensures Load(m, a, n) == Load(m', a, n)
  {
    assert Bytes(m, a, n) == Bytes(m', a, n);
  }

  lemma LoadElsewhere(m: Memory, a: int, n: nat, v: nat, b: int, k: nat)
    requires b + k <= a || a + n <= b
    ensures Load(Store(m, a, n, v), b, k) == Load(m, b, k)
  {
    forall x | b <= x < b + k ensures Peek(Store(m, a, n, v), x) == Peek(m, x) {
      PeekWritten(m, a, ToLE(v, n), x);
    }
    LoadSame(m, Store(m, a, n, v), b, k);
  }

  lemma LoadStored(m: Memory, a: int, n: nat, v: nat)
    requires v < Size(n)
    ensures Load(Store(m, a, n, v), a, n) == v
  {
    hide Peek, ToLE;
    var bs := ToLE(v, n);
    forall i | 0 <= i < n ensures Bytes(Write(m, a, bs), a, n)[i] == bs[i] {
      PeekWritten(m, a, bs, a + i);
    }
    assert Bytes(Write(m, a, bs), a, n) == bs;
    FromToLE(v, n);
  }

  /** Writing back what is there changes nothing that can be read. */
  lemma StoreSame(m: Memory, a: int, n: nat, x: int)
    ensures Peek(Store(m, a, n, Load(m, a, n)), x) == Peek(m, x)
  {
    hide Peek, ToLE, FromLE;
    ToFromLE(Bytes(m, a, n));
    PeekWritten(m, a, Bytes(m, a, n), x);
  }

  lemma LoadBound(m: Memory, a: int, n: nat)
    ensures Load(m, a, n) < Size(n)
  {
  }

  // ----- Machines -----

  /** Registers are numbered as in the DWARF numbering of the target. */
  type Reg = nat

  /**
   Calls carry the return address they push. The control registers are opaque words, of which
   `stmxcsr` moves four bytes and `fnstcw` two.
   */
  datatype Instr =
    | MovLoad(dst: Reg, base: Reg, off: nat)
    | MovStore(base: Reg, off: nat, src: Reg)
    | MovReg(dst: Reg, src: Reg)
    | Lea(dst: Reg, base: Reg, off: nat)
    | SubSp(n: nat)
    | AddSp(n: nat)
    | Push(src: Reg)
    | Stmxcsr(base: Reg, off: nat)
    | Fnstcw(base: Reg, off: nat)
    | Ldmxcsr(base: Reg, off: nat)
    | Fldcw(base: Reg, off: nat)
    | CallReg(target: Reg, back: nat)
    | CallMem(base: Reg, off: nat, back: nat)
    | Ret

  /** Straight-line code. */
  datatype Code = End | Then(head: Instr, tail: Code)

  /** `word` is the size of a word in bytes and `sp` the number of the stack pointer. */
  datatype Target = Target(word: nat, sp: Reg)

  datatype Machine = Machine(regs: map<Reg, nat>, mxcsr: nat, fcw: nat, pc: nat, memory: Memory)

  function R(s: Machine, r: Reg): nat {
    if r in s.regs then s.regs[r] else 0
  }

  function SetR(s: Machine, r: Reg, v: nat): Machine {
    s.(regs := s.regs[r := v])
  }

  function Minus(a: nat, n: nat): nat {
    if n <= a then a - n else 0
  }

  function PushWord(t: Target, s: Machine, v: nat): Machine {
    SetR(s, t.sp, Minus(R(s, t.sp), t.word)).(memory := Store(s.memory, Minus(R(s, t.sp), t.word), t.word, v))
  }

  /** One instruction; `pc` changes only through calls and returns. */
  function Step(t: Target, s: Machine, i: Instr): Machine {
    match i
    case MovLoad(dst, base, off) => SetR(s, dst, Load(s.memory, R(s, base) + off, t.word))
    case MovStore(base, off, src) => s.(memory := Store(s.memory, R(s, base) + off, t.word, R(s, src)))
    case MovReg(dst, src) => SetR(s, dst, R(s, src))
    case Lea(dst, base, off) => SetR(s, dst, R(s, base) + off)
    case SubSp(n) => SetR(s, t.sp, Minus(R(s, t.sp), n))
    case AddSp(n) => SetR(s, t.sp, R(s, t.sp) + n)
    case Push(src) => PushWord(t, s, R(s, src))
    case Stmxcsr(base, off) => s.(memory := Store(s.memory, R(s, base) + off, 4, s.mxcsr))
    case Fnstcw(base, off) => s.(memory := Store(s.memory, R(s, base) + off, 2, s.fcw))
    case Ldmxcsr(base, off) => s.(mxcsr := Load(s.memory, R(s, base) + off, 4))
    case Fldcw(base, off) => s.(fcw := Load(s.memory, R(s, base) + off, 2))
    case CallReg(target, back) => PushWord(t, s, back).(pc := R(s, target))
    case CallMem(base, off, back) => PushWord(t, s, back).(pc := Load(s.memory, R(s, base) + off, t.word))
    case Ret => SetR(s, t.sp, R(s, t.sp) + t.word).(pc := Load(s.memory, R(s, t.sp), t.word))
  }

  function Exec(t: Target, s: Machine, code: Code): Machine
    decreases code
  {
    match code
    case End => s
    case Then(i, rest) => Exec(t, Step(t, s, i), rest)
  }

  /** Registers hold words of the target, and the control registers what their stores move. */
  ghost predicate WordsOk(t: Target, s: Machine) {
    && (forall r :: R(s, r) < Size(t.word))
    && s.mxcsr < Size(4) && s.fcw < Size(2)
  }

  // ----- Runs of loads and of stores -----

  /** Loads of registers, each with its offset from `base`. */
  function LoadAll(base: Reg, slots: seq<(Reg, nat)>, rest: Code): Code {
    if slots == [] then rest else Then(MovLoad(slots[0].0, base, slots[0].1), LoadAll(base, slots[1..], rest))
  }

  function StoreAll(base: Reg, slots: seq<(Reg, nat)>, rest: Code): Code {
    if slots == [] then rest else Then(MovStore(base, slots[0].1, slots[0].0), StoreAll(base, slots[1..], rest))
  }

  ghost predicate DistinctRegs(slots: seq<(Reg, nat)>, base: Reg) {
    && (forall i | 0 <= i < |slots| :: slots[i].0 != base)
    && (forall i, j | 0 <= i < j < |slots| :: slots[i].0 != slots[j].0)
  }

  /** `s'` is `s` with every listed register loaded from its slot. */
  ghost predicate Loaded(t: Target, s: Machine, base: Reg, slots: seq<(Reg, nat)>, s': Machine) {
    && s'.memory == s.memory && s'.mxcsr == s.mxcsr && s'.fcw == s.fcw && s'.pc == s.pc
    && (forall i | 0 <= i < |slots| :: R(s', slots[i].0) == Load(s.memory, R(s, base) + slots[i].1, t.word))
    && (forall r | (forall i | 0 <= i < |slots| :: slots[i].0 != r) :: R(s', r) == R(s, r))
  }

  lemma LoadedStep(t: Target, s: Machine, base: Reg, slots: seq<(Reg, nat)>, s1: Machine, s': Machine)
    requires slots != [] && DistinctRegs(slots, base)
    requires s1 == SetR(s, slots[0].0, Load(s.memory, R(s, base) + slots[0].1, t.word))
    requires Loaded(t, s1, base, slots[1..], s')
    ensures Loaded(t, s, base, slots, s')
  {
    hide Load;
    var rest := slots[1..];
    assert forall i | 0 <= i < |rest| :: rest[i] == slots[i + 1];
    assert R(s1, base) == R(s, base);
    forall i | 0 <= i < |slots| ensures R(s', slots[i].0) == Load(s.memory, R(s, base) + slots[i].1, t.word) {
      if i > 0 { assert rest[i - 1] == slots[i]; }
    }
  }

  lemma {:induction false} LoadAllLoads(t: Target, s: Machine, base: Reg, slots: seq<(Reg, nat)>, rest: Code)
    returns (s': Machine)
    requires DistinctRegs(slots, base)
    ensures Exec(t, s, LoadAll(base, slots, rest)) == Exec(t, s', rest)
    ensures Loaded(t, s, base, slots, s')
    decreases |slots|
  {
    hide Load, Loaded;
    if slots == [] {
      s' := s;
      assert Loaded(t, s, base, [], s) by { LoadedNone(t, s, base); }
    } else {
      var s1 := SetR(s, slots[0].0, Load(s.memory, R(s, base) + slots[0].1, t.word));
      assert s1 == Step(t, s, MovLoad(slots[0].0, base, slots[0].1));
      s' := LoadAllLoads(t, s1, base, slots[1..], rest);
      LoadedStep(t, s, base, slots, s1, s');
    }
  }

  lemma LoadedNone(t: Target, s: Machine, base: Reg)
    ensures Loaded(t, s, base, [], s)
  {
  }

  /** The slots lie in order and do not overlap. */
  ghost predicate Ascending(slots: seq<(Reg, nat)>, word: nat) {
    forall i, j | 0 <= i < j < |slots| :: slots[i].1 + word <= slots[j].1
  }

  /** `n` bytes at `a` and `k` bytes at `b` do not overlap. */
  predicate Apart(a: int, n: nat, b: int, k: nat) { b + k <= a || a + n <= b }

  /** `k` bytes at `b` overlap none of the slots. */
  ghost predicate Outside(base: nat, slots: seq<(Reg, nat)>, word: nat, b: int, k: nat) {
    forall i | 0 <= i < |slots| :: Apart(base + slots[i].1, word, b, k)
  }

  ghost predicate SlotsHold(m: Memory, a: nat, slots: seq<(Reg, nat)>, word: nat, s: Machine) {
    forall i | 0 <= i < |slots| :: Load(m, a + slots[i].1, word) == R(s, slots[i].0)
  }

  ghost predicate SameOutside(m: Memory, m': Memory, a: nat, slots: seq<(Reg, nat)>, word: nat) {
    forall b, k | Outside(a, slots, word, b, k) :: Load(m', b, k) == Load(m, b, k)
  }

  /** `s'` is `s` with every listed register stored in its slot, and memory otherwise the same. */
  ghost predicate Stored(t: Target, s: Machine, base: Reg, slots: seq<(Reg, nat)>, s': Machine) {
    && s'.regs == s.regs && s'.mxcsr == s.mxcsr && s'.fcw == s.fcw && s'.pc == s.pc
    && SlotsHold(s'.memory, R(s, base), slots, t.word, s)
    && SameOutside(s.memory, s'.memory, R(s, base), slots, t.word)
  }

  lemma SlotsHoldStep(m: Memory, a: nat, slots: seq<(Reg, nat)>, word: nat, s: Machine)
    requires slots != [] && SlotsHold(m, a, slots[1..], word, s) && Load(m, a + slots[0].1, word) == R(s, slots[0].0)
    ensures SlotsHold(m, a, slots, word, s)
  {
    hide Load;
    forall i | 0 <= i < |slots| ensures Load(m, a + slots[i].1, word) == R(s, slots[i].0) {
      if i > 0 { assert slots[1..][i - 1] == slots[i]; }
    }
  }

  lemma SameOutsideStep(m: Memory, m': Memory, a: nat, slots: seq<(Reg, nat)>, word: nat, v: nat)
    requires slots != [] && SameOutside(Store(m, a + slots[0].1, word, v), m', a, slots[1..], word)
    ensures SameOutside(m, m', a, slots, word)
  {
    hide Load, Store;
    var rest, a0 := slots[1..], a + slots[0].1;
    assert forall i | 0 <= i < |rest| :: rest[i] == slots[i + 1];
    forall b, k | Outside(a, slots, word, b, k) ensures Load(m', b, k) == Load(m, b, k) {
      assert Apart(a0, word, b, k) && Outside(a, rest, word, b, k);
      LoadElsewhere(m, a0, word, v, b, k);
    }
  }

  lemma FirstIsApart(a: nat, slots: seq<(Reg, nat)>, word: nat)
    requires slots != [] && Ascending(slots, word)
    ensures Outside(a, slots[1..], word, a + slots[0].1, word)
  {
    assert forall i | 0 <= i < |slots[1..]| :: slots[1..][i] == slots[i + 1];
  }

  lemma SlotsHoldSame(m: Memory, a: nat, slots: seq<(Reg, nat)>, word: nat, s: Machine, s': Machine)
    requires SlotsHold(m, a, slots, word, s) && forall i | 0 <= i < |slots| :: R(s, slots[i].0) == R(s', slots[i].0)
    ensures SlotsHold(m, a, slots, word, s')
  {
    hide Load;
  }

  lemma StoredStep(t: Target, s: Machine, base: Reg, slots: seq<(Reg, nat)>, s1: Machine, s': Machine)
    requires slots != [] && Ascending(slots, t.word) && R(s, slots[0].0) < Size(t.word)
    requires s1 == s.(memory := Store(s.memory, R(s, base) + slots[0].1, t.word, R(s, slots[0].0)))
    requires Stored(t, s1, base, slots[1..], s')
    ensures Stored(t, s, base, slots, s')
  {
    hide Load, Store, Size, SlotsHold, Outside;
    var a, rest, v := R(s, base), slots[1..], R(s, slots[0].0);
    var a0 := a + slots[0].1;
    LoadStored(s.memory, a0, t.word, v);
    FirstIsApart(a, slots, t.word);
    SlotsHoldSame(s'.memory, a, rest, t.word, s1, s);
    SlotsHoldStep(s'.memory, a, slots, t.word, s);
    SameOutsideStep(s.memory, s'.memory, a, slots, t.word, v);
  }

  lemma StoredNone(t: Target, s: Machine, base: Reg)
    ensures Stored(t, s, base, [], s)
  {
  }

  lemma {:induction false} StoreAllStores(t: Target, s: Machine, base: Reg, slots: seq<(Reg, nat)>, rest: Code)
    returns (s': Machine)
    requires WordsOk(t, s) && Ascending(slots, t.word)
    ensures Exec(t, s, StoreAll(base, slots, rest)) == Exec(t, s', rest)
    ensures Stored(t, s, base, slots, s')
    decreases |slots|
  {
    hide Load, Store, Stored, Size;
    if slots == [] {
      s' := s;
      assert Stored(t, s, base, [], s) by { StoredNone(t, s, base); }
    } else {
      var s1 := s.(memory := Store(s.memory, R(s, base) + slots[0].1, t.word, R(s, slots[0].0)));
      assert s1 == Step(t, s, MovStore(base, slots[0].1, slots[0].0));
      assert forall r :: R(s1, r) == R(s, r);
      s' := StoreAllStores(t, s1, base, slots[1..], rest);
      StoredStep(t, s, base, slots, s1, s');
    }
  }
}
