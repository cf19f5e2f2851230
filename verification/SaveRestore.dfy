/** Saving and restoring a context on x86_64 and x86 (src/unwinder/arch/x86_64.rs, src/unwinder/arch/x86.rs). */
module SaveRestore {
  import opened Slices
  import opened Assembly

  /**
   How a target lays out and moves its context. `low` and `high` are the registers stored before
   and after the stack pointer's slot, `loads` those restored before `base`, the register that
   `restore_context` finds the context in; register 0 is free to pass values through.
   */
  datatype Layout = Layout(
    target: Target,
    base: Reg,
    frame: nat,
    low: seq<(Reg, nat)>,
    high: seq<(Reg, nat)>,
    loads: seq<(Reg, nat)>,
    spOff: nat,
    raOff: nat,
    mxcsrOff: nat,
    fcwOff: nat,
    baseOff: nat
  )

  /** The order in which x86_64 loads registers: all but rsp and rdi, by number. */
  function Loaded64(k: nat): Reg {
    if k < 5 then k else if k == 5 then 6 else k + 2
  }

  /** rsp is register 7 and rdi register 5; a register's slot is at eight times its number. */
  const X64 := Layout(
    Target(8, 7), 5, 0x98,
    [(3, 0x18), (6, 0x30)],
    [(12, 0x60), (13, 0x68), (14, 0x70), (15, 0x78)],
    seq(14, k requires 0 <= k < 14 => (Loaded64(k), 8 * Loaded64(k))),
    0x38, 0x80, 0x88, 0x90, 0x28)

  /** esp is register 4 and edx register 2; a register's slot is at four times its number. */
  const X86 := Layout(
    Target(4, 4), 2, 52,
    [(1, 4), (2, 8), (3, 12)],
    [(5, 20), (6, 24), (7, 28)],
    [(0, 0), (1, 4), (3, 12), (5, 20), (6, 24), (7, 28)],
    16, 32, 36, 40, 8)

  /** `save_context` up to its call of the closure. */
  function SaveCode(l: Layout, call: Code): Code {
    var sp := l.target.sp;
    Then(SubSp(l.frame),
    StoreAll(sp, l.low,
    Then(Lea(0, sp, l.frame + l.target.word),
    Then(MovStore(sp, l.spOff, 0),
    StoreAll(sp, l.high,
    Then(MovLoad(0, sp, l.frame),
    Then(MovStore(sp, l.raOff, 0),
    Then(Stmxcsr(sp, l.mxcsrOff),
    Then(Fnstcw(sp, l.fcwOff), call)))))))))
  }

  /** The closure comes in rdi, and its second argument stays in rsi. */
  function Call64(back: nat): Code {
    Then(MovReg(0, 5), Then(MovReg(5, 7), Then(CallReg(0, back), End)))
  }

  /** Both arguments come on the stack, and go there again. */
  function Call86(back: nat): Code {
    Then(MovLoad(0, 4, 60), Then(MovReg(1, 4), Then(Push(0), Then(Push(1), Then(CallMem(4, 64, back), End)))))
  }

  /** `save_context` after the closure has returned; on x86 it also drops the two arguments. */
  function ReturnCode(n: nat): Code {
    Then(AddSp(n), Then(Ret, End))
  }

  /** `restore_context`. */
  function RestoreCode(l: Layout): Code {
    Then(MovLoad(l.target.sp, l.base, l.spOff),
    Then(Ldmxcsr(l.base, l.mxcsrOff),
    Then(Fldcw(l.base, l.fcwOff),
    Then(MovLoad(0, l.base, l.raOff),
    Then(Push(0),
    LoadAll(l.base, l.loads,
    Then(MovLoad(l.base, l.base, l.baseOff),
    Then(Ret, End))))))))
  }

  // ----- What the layouts have in common -----

  ghost predicate Within(slots: seq<(Reg, nat)>, word: nat, from: nat, to: nat) {
    forall i | 0 <= i < |slots| :: from <= slots[i].1 && slots[i].1 + word <= to
  }

  ghost predicate NotScratch(slots: seq<(Reg, nat)>, sp: Reg) {
    forall i | 0 <= i < |slots| :: slots[i].0 != 0 && slots[i].0 != sp
  }

  /** Slots do not overlap, and the fields come in the order they are written. */
  ghost predicate LayoutOk(l: Layout) {
    var w := l.target.word;
    && 4 <= w && l.target.sp != 0 && l.base != 0 && l.base != l.target.sp
    && Ascending(l.low, w) && Ascending(l.high, w)
    && Within(l.low, w, 0, l.spOff) && Within(l.high, w, l.spOff + w, l.raOff)
    && l.spOff + w <= l.raOff && l.raOff + w <= l.mxcsrOff && l.mxcsrOff + 4 <= l.fcwOff && l.fcwOff + 2 <= l.frame
    && NotScratch(l.low, l.target.sp) && NotScratch(l.high, l.target.sp)
    && DistinctRegs(l.loads, l.base) && (forall i | 0 <= i < |l.loads| :: l.loads[i].0 != l.target.sp)
    && (forall i | 0 <= i < |l.loads| :: Apart(l.loads[i].1, w, l.spOff, w) && l.loads[i].1 + w <= l.raOff)
    && Apart(l.baseOff, w, l.spOff, w) && l.baseOff + w <= l.raOff
  }

  lemma X64Ok()
    ensures LayoutOk(X64)
  {
    assert Ascending(X64.low, 8) && Ascending(X64.high, 8);
  }

  lemma X86Ok()
    ensures LayoutOk(X86)
  {
    hide Apart, Ascending, DistinctRegs, Within, NotScratch;
    X86Slots();
    X86Loads();
  }

  lemma X86Slots()
    ensures Ascending(X86.low, 4) && Ascending(X86.high, 4) && Within(X86.low, 4, 0, 16) && Within(X86.high, 4, 20, 32)
    ensures NotScratch(X86.low, 4) && NotScratch(X86.high, 4)
  {
  }

  lemma X86Loads()
    ensures DistinctRegs(X86.loads, 2) && forall i | 0 <= i < |X86.loads| :: X86.loads[i].0 != 4
    ensures forall i | 0 <= i < |X86.loads| :: Apart(X86.loads[i].1, 4, 16, 4) && X86.loads[i].1 + 4 <= 32
    ensures Apart(8, 4, 16, 4)
  {
  }

  // ----- Saving -----

  /** Memory is the same apart from `n` bytes at `c`. */
  ghost predicate SameBeyond(m: Memory, m': Memory, c: int, n: nat) {
    forall b, k | Apart(c, n, b, k) :: Load(m', b, k) == Load(m, b, k)
  }

  lemma StoreBeyond(m0: Memory, m: Memory, c: nat, n: nat, a: nat, k: nat, v: nat)
    requires SameBeyond(m0, m, c, n) && c <= a && a + k <= c + n
    ensures SameBeyond(m0, Store(m, a, k, v), c, n)
  {
    hide Load, Store;
    forall b, j | Apart(c, n, b, j) ensures Load(Store(m, a, k, v), b, j) == Load(m0, b, j) {
      LoadElsewhere(m, a, k, v, b, j);
    }
  }

  lemma StoreAllBeyond(m0: Memory, m: Memory, m': Memory, c: nat, n: nat, slots: seq<(Reg, nat)>, w: nat)
    requires SameBeyond(m0, m, c, n) && SameOutside(m, m', c, slots, w) && Within(slots, w, 0, n)
    ensures SameBeyond(m0, m', c, n)
  {
    hide Load;
    forall b, k | Apart(c, n, b, k) ensures Load(m', b, k) == Load(m0, b, k) {
      assert Outside(c, slots, w, b, k);
    }
  }

  lemma SlotsKept(m: Memory, c: nat, slots: seq<(Reg, nat)>, w: nat, s: Machine, from: nat, to: nat, a: nat, k: nat,
                  v: nat)
    requires from <= to && SlotsHold(m, c, slots, w, s) && Within(slots, w, from, to)
             && Apart(c + from, to - from, a, k)
    ensures SlotsHold(Store(m, a, k, v), c, slots, w, s)
  {
    hide Load, Store;
    forall i | 0 <= i < |slots| ensures Load(Store(m, a, k, v), c + slots[i].1, w) == R(s, slots[i].0) {
      LoadElsewhere(m, a, k, v, c + slots[i].1, w);
    }
  }

  lemma SlotsKeptAll(m: Memory, m': Memory, c: nat, slots: seq<(Reg, nat)>, others: seq<(Reg, nat)>, w: nat, s: Machine,
                     split: nat, to: nat)
    requires SlotsHold(m, c, slots, w, s) && SameOutside(m, m', c, others, w)
    requires Within(slots, w, 0, split) && Within(others, w, split, to)
    ensures SlotsHold(m', c, slots, w, s)
  {
    hide Load;
    forall i | 0 <= i < |slots| ensures Load(m', c + slots[i].1, w) == R(s, slots[i].0) {
      assert Outside(c, others, w, c + slots[i].1, w);
    }
  }

  /** The memory `m` holds at `c` the context of `save_context` entered in state `e`. */
  ghost predicate ContextHolds(l: Layout, e: Machine, c: nat, m: Memory) {
    var w, top := l.target.word, R(e, l.target.sp);
    && SlotsHold(m, c, l.low, w, e) && SlotsHold(m, c, l.high, w, e)
    && Load(m, c + l.spOff, w) == top + w
    && Load(m, c + l.raOff, w) == Load(e.memory, top, w)
    && Load(m, c + l.mxcsrOff, 4) == e.mxcsr && Load(m, c + l.fcwOff, 2) == e.fcw
  }

  /** The context is there, and memory outside the frame it was made in is untouched. */
  ghost predicate Saved(l: Layout, e: Machine, c: nat, m: Memory) {
    ContextHolds(l, e, c, m) && SameBeyond(e.memory, m, c, l.frame)
  }

  lemma ExecThen(t: Target, s: Machine, i: Instr, rest: Code)
    ensures Exec(t, s, Then(i, rest)) == Exec(t, Step(t, s, i), rest)
  {
    hide Step;
  }

  lemma SaveLow(l: Layout, e: Machine, rest: Code) returns (s: Machine)
    requires LayoutOk(l) && WordsOk(l.target, e) && l.frame <= R(e, l.target.sp)
    ensures Exec(l.target, e, Then(SubSp(l.frame), StoreAll(l.target.sp, l.low, rest))) == Exec(l.target, s, rest)
    ensures var c := R(e, l.target.sp) - l.frame;
            && s.mxcsr == e.mxcsr && s.fcw == e.fcw && WordsOk(l.target, s)
            && (forall r :: R(s, r) == if r == l.target.sp then c else R(e, r))
            && SlotsHold(s.memory, c, l.low, l.target.word, e) && SameBeyond(e.memory, s.memory, c, l.frame)
  {
    hide Load, Size, StoreAll, Exec, SameBeyond, SameOutside, Ascending, DistinctRegs;
    var t, c := l.target, R(e, l.target.sp) - l.frame;
    var s1 := SetR(e, t.sp, c);
    ExecThen(t, e, SubSp(l.frame), StoreAll(t.sp, l.low, rest));
    assert forall r :: R(s1, r) == if r == t.sp then c else R(e, r);
    s := StoreAllStores(t, s1, t.sp, l.low, rest);
    assert SlotsHold(s.memory, c, l.low, t.word, e);
    SameItself(e.memory, c, l.frame);
    StoreAllBeyond(e.memory, e.memory, s.memory, c, l.frame, l.low, t.word);
    assert forall r :: R(s, r) == R(s1, r);
  }

  lemma SameItself(m: Memory, c: nat, n: nat)
    ensures SameBeyond(m, m, c, n)
  {
  }

  /** What holds after the first half of the stores: the stack pointer's slot holds its value on return. */
  ghost predicate SavedLow(l: Layout, e: Machine, c: nat, s: Machine) {
    var t := l.target;
    && s.mxcsr == e.mxcsr && s.fcw == e.fcw && WordsOk(t, s)
    && (forall r | r != 0 :: R(s, r) == if r == t.sp then c else R(e, r))
    && SlotsHold(s.memory, c, l.low, t.word, e) && SameBeyond(e.memory, s.memory, c, l.frame)
    && Load(s.memory, c + l.spOff, t.word) == R(e, t.sp) + t.word
  }

  lemma SavePointer(l: Layout, e: Machine, s0: Machine, rest: Code) returns (s: Machine)
    requires LayoutOk(l) && WordsOk(l.target, e) && l.frame <= R(e, l.target.sp)
    requires R(e, l.target.sp) + l.target.word < Size(l.target.word)
    requires var c := R(e, l.target.sp) - l.frame;
            && s0.mxcsr == e.mxcsr && s0.fcw == e.fcw && WordsOk(l.target, s0)
            && (forall r :: R(s0, r) == if r == l.target.sp then c else R(e, r))
            && SlotsHold(s0.memory, c, l.low, l.target.word, e) && SameBeyond(e.memory, s0.memory, c, l.frame)
    ensures Exec(l.target, s0, Then(Lea(0, l.target.sp, l.frame + l.target.word),
                                    Then(MovStore(l.target.sp, l.spOff, 0), rest)))
         == Exec(l.target, s, rest)
    ensures SavedLow(l, e, R(e, l.target.sp) - l.frame, s)
  {
    hide Load, Store, Size, Exec, SameBeyond, SlotsHold, Ascending, DistinctRegs;
    var t, c := l.target, R(e, l.target.sp) - l.frame;
    var v := R(e, t.sp) + t.word;
    var s1 := SetR(s0, 0, v);
    s := s1.(memory := Store(s1.memory, c + l.spOff, t.word, v));
    ExecThen(t, s0, Lea(0, t.sp, l.frame + t.word), Then(MovStore(t.sp, l.spOff, 0), rest));
    ExecThen(t, s1, MovStore(t.sp, l.spOff, 0), rest);
    LoadStored(s1.memory, c + l.spOff, t.word, v);
    SlotsKept(s1.memory, c, l.low, t.word, e, 0, l.spOff, c + l.spOff, t.word, v);
    StoreBeyond(e.memory, s1.memory, c, l.frame, c + l.spOff, t.word, v);
    assert forall r :: R(s, r) == if r == 0 then v else R(s0, r);
  }

  lemma SaveHigh(l: Layout, e: Machine, s0: Machine, rest: Code) returns (s: Machine)
    requires LayoutOk(l) && WordsOk(l.target, e) && l.frame <= R(e, l.target.sp)
    requires SavedLow(l, e, R(e, l.target.sp) - l.frame, s0)
    ensures Exec(l.target, s0, StoreAll(l.target.sp, l.high, rest)) == Exec(l.target, s, rest)
    ensures SavedLow(l, e, R(e, l.target.sp) - l.frame, s)
    ensures SlotsHold(s.memory, R(e, l.target.sp) - l.frame, l.high, l.target.word, e)
  {
    hide Load, Size, StoreAll, Exec, SameBeyond, Ascending, DistinctRegs, SlotsHold;
    var t, c := l.target, R(e, l.target.sp) - l.frame;
    s := StoreAllStores(t, s0, t.sp, l.high, rest);
    SlotsHoldSame(s.memory, c, l.high, t.word, s0, e);
    assert Outside(c, l.high, t.word, c + l.spOff, t.word);
    SlotsKeptAll(s0.memory, s.memory, c, l.low, l.high, t.word, e, l.spOff, l.frame);
    StoreAllBeyond(e.memory, s0.memory, s.memory, c, l.frame, l.high, t.word);
    assert forall r :: R(s, r) == R(s0, r);
  }

  lemma SaveTail(l: Layout, e: Machine, s0: Machine, rest: Code) returns (s: Machine)
    requires LayoutOk(l) && WordsOk(l.target, e) && l.frame <= R(e, l.target.sp)
    requires SavedLow(l, e, R(e, l.target.sp) - l.frame, s0)
    requires SlotsHold(s0.memory, R(e, l.target.sp) - l.frame, l.high, l.target.word, e)
    ensures Exec(l.target, s0, Then(MovLoad(0, l.target.sp, l.frame), Then(MovStore(l.target.sp, l.raOff, 0),
              Then(Stmxcsr(l.target.sp, l.mxcsrOff), Then(Fnstcw(l.target.sp, l.fcwOff), rest)))))
         == Exec(l.target, s, rest)
    ensures Saved(l, e, R(e, l.target.sp) - l.frame, s.memory)
    ensures forall r | r != 0 :: R(s, r) == if r == l.target.sp then R(e, l.target.sp) - l.frame else R(e, r)
  {
    hide Load, Store, Size, Exec, SlotsHold, Ascending, DistinctRegs, Within;
    var t, c := l.target, R(e, l.target.sp) - l.frame;
    var w, top := t.word, R(e, t.sp);
    var ra := Load(e.memory, top, w);
    assert Apart(c, l.frame, top, w);
    LoadBound(e.memory, top, w);
    var s1 := SetR(s0, 0, ra);
    var s2 := s1.(memory := Store(s1.memory, c + l.raOff, w, ra));
    var s3 := s2.(memory := Store(s2.memory, c + l.mxcsrOff, 4, e.mxcsr));
    s := s3.(memory := Store(s3.memory, c + l.fcwOff, 2, e.fcw));
    var fcw := Then(Fnstcw(t.sp, l.fcwOff), rest);
    var mxcsr := Then(Stmxcsr(t.sp, l.mxcsrOff), fcw);
    ExecThen(t, s0, MovLoad(0, t.sp, l.frame), Then(MovStore(t.sp, l.raOff, 0), mxcsr));
    ExecThen(t, s1, MovStore(t.sp, l.raOff, 0), mxcsr);
    ExecThen(t, s2, Stmxcsr(t.sp, l.mxcsrOff), fcw);
    ExecThen(t, s3, Fnstcw(t.sp, l.fcwOff), rest);
    FieldStored(l, e, c, s1.memory, l.raOff, w, ra);
    FieldStored(l, e, c, s2.memory, l.mxcsrOff, 4, e.mxcsr);
    FieldStored(l, e, c, s3.memory, l.fcwOff, 2, e.fcw);
  }

  /** A field stored after the registers' slots leaves them, the fields before it and memory beyond as they are. */
  lemma FieldStored(l: Layout, e: Machine, c: nat, m: Memory, off: nat, n: nat, v: nat)
    requires LayoutOk(l) && v < Size(n) && l.raOff <= off && off + n <= l.frame
    requires SlotsHold(m, c, l.low, l.target.word, e) && SlotsHold(m, c, l.high, l.target.word, e)
    requires SameBeyond(e.memory, m, c, l.frame)
    ensures var m' := Store(m, c + off, n, v);
            && SlotsHold(m', c, l.low, l.target.word, e) && SlotsHold(m', c, l.high, l.target.word, e)
            && SameBeyond(e.memory, m', c, l.frame) && Load(m', c + off, n) == v
            && (forall b: int, k: nat | b + k <= c + off :: Load(m', b, k) == Load(m, b, k))
  {
    hide Load, Store, Size, SlotsHold, Ascending, DistinctRegs, SameBeyond;
    LoadStored(m, c + off, n, v);
    SlotsKept(m, c, l.low, l.target.word, e, 0, l.spOff, c + off, n, v);
    SlotsKept(m, c, l.high, l.target.word, e, l.spOff + l.target.word, l.raOff, c + off, n, v);
    StoreBeyond(e.memory, m, c, l.frame, c + off, n, v);
    forall b: int, k: nat | b + k <= c + off ensures Load(Store(m, c + off, n, v), b, k) == Load(m, b, k) {
      LoadElsewhere(m, c + off, n, v, b, k);
    }
  }

  /** The stack of a call to `save_context` reaches neither end of the address space. */
  ghost predicate CanSave(l: Layout, e: Machine) {
    LayoutOk(l) && WordsOk(l.target, e) && l.frame <= R(e, l.target.sp) &&
    R(e, l.target.sp) + l.target.word < Size(l.target.word)
  }

  /** The context is the innermost part of the frame, and everything outside the frame is untouched. */
  lemma SaveStores(l: Layout, e: Machine, call: Code) returns (s: Machine)
    requires CanSave(l, e)
    ensures Exec(l.target, e, SaveCode(l, call)) == Exec(l.target, s, call)
    ensures Saved(l, e, R(e, l.target.sp) - l.frame, s.memory)
    ensures forall r | r != 0 :: R(s, r) == if r == l.target.sp then R(e, l.target.sp) - l.frame else R(e, r)
  {
    hide LayoutOk, WordsOk, Saved, SavedLow, SlotsHold, SameBeyond, Exec, StoreAll, Size;
    var sp := l.target.sp;
    var tail := Then(MovLoad(0, sp, l.frame), Then(MovStore(sp, l.raOff, 0),
                  Then(Stmxcsr(sp, l.mxcsrOff), Then(Fnstcw(sp, l.fcwOff), call))));
    var high := StoreAll(sp, l.high, tail);
    var pointer := Then(Lea(0, sp, l.frame + l.target.word), Then(MovStore(sp, l.spOff, 0), high));
    var s1 := SaveLow(l, e, pointer);
    var s2 := SavePointer(l, e, s1, high);
    var s3 := SaveHigh(l, e, s2, tail);
    s := SaveTail(l, e, s3, call);
  }

  /** On x86_64 the closure is called with the context's address in rdi and its argument still in rsi. */
  lemma Save64Calls(e: Machine, back: nat) returns (s: Machine, m: Memory)
    requires CanSave(X64, e) && 0x98 + 8 <= R(e, 7)
    ensures s == Exec(X64.target, e, SaveCode(X64, Call64(back)))
    ensures var c := R(e, 7) - 0x98;
            s.pc == R(e, 5) && R(s, 5) == c && R(s, 4) == R(e, 4) && R(s, 7) == c - 8
    ensures Saved(X64, e, R(e, 7) - 0x98, m) && s.memory == Store(m, R(e, 7) - 0x98 - 8, 8, back)
  {
    hide CanSave, Saved, Load, Store, Exec, SaveCode;
    var s1 := SaveStores(X64, e, Call64(back));
    var s2 := SetR(s1, 0, R(s1, 5));
    var s3 := SetR(s2, 5, R(s2, 7));
    s := PushWord(X64.target, s3, back).(pc := R(s3, 0));
    ExecThen(X64.target, s1, MovReg(0, 5), Then(MovReg(5, 7), Then(CallReg(0, back), End)));
    ExecThen(X64.target, s2, MovReg(5, 7), Then(CallReg(0, back), End));
    ExecThen(X64.target, s3, CallReg(0, back), End);
    ExecEnd(X64.target, s);
    m := s1.memory;
  }

  lemma ExecEnd(t: Target, s: Machine)
    ensures Exec(t, s, End) == s
  {
  }

  /**
   On x86 the closure, found above the return address, is called with the context's address as its
   first stack argument and the second argument of `save_context` as its second.
   */
  lemma Save86Calls(e: Machine, back: nat) returns (s: Machine, m: Memory)
    requires CanSave(X86, e) && 52 + 12 <= R(e, 4) && back < Size(4)
    ensures s == Exec(X86.target, e, SaveCode(X86, Call86(back)))
    ensures var c := R(e, 4) - 52;
            && s.pc == Load(e.memory, R(e, 4) + 4, 4)
            && R(s, 4) == c - 12 && Load(s.memory, c - 12, 4) == back
            && Load(s.memory, c - 8, 4) == c && Load(s.memory, c - 4, 4) == Load(e.memory, R(e, 4) + 8, 4)
    ensures Saved(X86, e, R(e, 4) - 52, m) && SameBeyond(m, s.memory, R(e, 4) - 64, 12)
  {
    hide LayoutOk, WordsOk, Saved, Load, Store, Exec, SaveCode, Size, SameBeyond;
    var t, c := X86.target, R(e, 4) - 52;
    var s1 := SaveStores(X86, e, Call86(back));
    m := s1.memory;
    var s2, s3, s4 := Push86Arguments(e, s1, back);
    var m5 := Store(s4.memory, c - 12, 4, back);
    s := PushWord(t, s4, back).(pc := Load(s4.memory, R(s4, 4) + 64, 4));
    assert s.memory == m5;
    ExecThen(t, s4, CallMem(4, 64, back), End);
    ExecEnd(t, s);
    LoadStored(s4.memory, c - 12, 4, back);
    LoadElsewhere(s4.memory, c - 12, 4, back, c - 8, 4);
    LoadElsewhere(s4.memory, c - 12, 4, back, c - 4, 4);
    StoreBeyond(s1.memory, s4.memory, c - 12, 12, c - 12, 4, back);
  }

  lemma SavedBeyond(l: Layout, e: Machine, c: nat, m: Memory, b: nat, k: nat)
    requires Saved(l, e, c, m) && c + l.frame <= b
    ensures Load(m, b, k) == Load(e.memory, b, k)
  {
    hide Load, SlotsHold;
    assert Apart(c, l.frame, b, k);
  }

  lemma Push86Arguments(e: Machine, s1: Machine, back: nat) returns (s2: Machine, s3: Machine, s4: Machine)
    requires WordsOk(X86.target, e) && 52 + 12 <= R(e, 4)
    requires Saved(X86, e, R(e, 4) - 52, s1.memory)
    requires forall r | r != 0 :: R(s1, r) == if r == 4 then R(e, 4) - 52 else R(e, r)
    ensures Exec(X86.target, s1, Call86(back)) == Exec(X86.target, s4, Then(CallMem(4, 64, back), End))
    ensures var c := R(e, 4) - 52;
            && R(s4, 4) == c - 8 && Load(s4.memory, c + 56, 4) == Load(e.memory, R(e, 4) + 4, 4)
            && Load(s4.memory, c - 8, 4) == c && Load(s4.memory, c - 4, 4) == Load(e.memory, R(e, 4) + 8, 4)
            && SameBeyond(s1.memory, s4.memory, c - 12, 12)
  {
    hide Saved, Load, Store, Exec, Size, SameBeyond;
    var t, c := X86.target, R(e, 4) - 52;
    var arg := Load(e.memory, R(e, 4) + 8, 4);
    SavedBeyond(X86, e, c, s1.memory, c + 60, 4);
    SavedBeyond(X86, e, c, s1.memory, c + 56, 4);
    LoadBound(e.memory, R(e, 4) + 8, 4);
    s2 := SetR(SetR(s1, 0, arg), 1, c);
    s3 := PushWord(t, s2, arg);
    s4 := PushWord(t, s3, c);
    var call := Then(CallMem(4, 64, back), End);
    var pushes := Then(Push(0), Then(Push(1), call));
    ExecThen(t, s1, MovLoad(0, 4, 60), Then(MovReg(1, 4), pushes));
    ExecThen(t, SetR(s1, 0, arg), MovReg(1, 4), pushes);
    ExecThen(t, s2, Push(0), Then(Push(1), call));
    ExecThen(t, s3, Push(1), call);
    StackTwo(s1.memory, c, arg);
  }

  lemma StackTwo(m: Memory, c: nat, arg: nat)
    requires 12 <= c < Size(4) && arg < Size(4)
    ensures var m' := Store(Store(m, c - 4, 4, arg), c - 8, 4, c);
            && Load(m', c - 8, 4) == c && Load(m', c - 4, 4) == arg && Load(m', c + 56, 4) == Load(m, c + 56, 4)
            && SameBeyond(m, m', c - 12, 12)
  {
    hide Load, Store, Size, SameBeyond;
    var m1 := Store(m, c - 4, 4, arg);
    LoadStored(m, c - 4, 4, arg);
    LoadElsewhere(m, c - 4, 4, arg, c + 56, 4);
    LoadStored(m1, c - 8, 4, c);
    LoadElsewhere(m1, c - 8, 4, c, c - 4, 4);
    LoadElsewhere(m1, c - 8, 4, c, c + 56, 4);
    SameItself(m, c - 12, 12);
    StoreBeyond(m, m, c - 12, 12, c - 4, 4, arg);
    StoreBeyond(m, m1, c - 12, 12, c - 8, 4, c);
  }

  // ----- Returning -----

  /** When the closure returns with its callee-saved stack pointer, `save_context` returns to its caller. */
  lemma Returns(l: Layout, s: Machine, n: nat, top: nat)
    requires R(s, l.target.sp) + n == top
    ensures var s' := Exec(l.target, s, ReturnCode(n));
            && s'.pc == Load(s.memory, top, l.target.word) && R(s', l.target.sp) == top + l.target.word
            && s'.memory == s.memory && forall r | r != l.target.sp :: R(s', r) == R(s, r)
  {
    hide Load;
    var s1 := SetR(s, l.target.sp, top);
    ExecThen(l.target, s, AddSp(n), Then(Ret, End));
    ExecThen(l.target, s1, Ret, End);
    ExecEnd(l.target, Step(l.target, s1, Ret));
  }

  // ----- Restoring -----

  /** The word pushed below `sp` overlaps no slot of the context at `c` that is still to be read. */
  ghost predicate PushClear(l: Layout, c: nat, sp: nat) {
    var w := l.target.word;
    w <= sp && Outside(c, l.loads, w, sp - w, w) && Apart(c + l.baseOff, w, sp - w, w)
  }

  /**
   Every register comes from its slot, the stack pointer from its own, and control goes to the RA
   slot; only the word below the new stack pointer is written.
   */
  ghost predicate Restored(l: Layout, s: Machine, s': Machine) {
    var w, c, m := l.target.word, R(s, l.base), s.memory;
    && (forall i | 0 <= i < |l.loads| :: R(s', l.loads[i].0) == Load(m, c + l.loads[i].1, w))
    && R(s', l.base) == Load(m, c + l.baseOff, w)
    && R(s', l.target.sp) == Load(m, c + l.spOff, w)
    && s'.pc == Load(m, c + l.raOff, w)
    && s'.mxcsr == Load(m, c + l.mxcsrOff, 4) && s'.fcw == Load(m, c + l.fcwOff, 2)
    && s'.memory == Store(m, Minus(Load(m, c + l.spOff, w), w), w, Load(m, c + l.raOff, w))
  }

  /** After the push, the registers are read from memory as the push left it. */
  lemma RestoreRuns(l: Layout, s: Machine) returns (s': Machine)
    requires LayoutOk(l)
    requires l.target.word <= Load(s.memory, R(s, l.base) + l.spOff, l.target.word)
    ensures s' == Exec(l.target, s, RestoreCode(l))
    ensures var w, c, m := l.target.word, R(s, l.base), s.memory;
            var sp, ra := Load(m, c + l.spOff, w), Load(m, c + l.raOff, w);
            && s'.memory == Store(m, sp - w, w, ra)
            && (forall i | 0 <= i < |l.loads| :: R(s', l.loads[i].0) == Load(s'.memory, c + l.loads[i].1, w))
            && R(s', l.base) == Load(s'.memory, c + l.baseOff, w)
            && R(s', l.target.sp) == sp && s'.pc == ra
            && s'.mxcsr == Load(m, c + l.mxcsrOff, 4) && s'.fcw == Load(m, c + l.fcwOff, 2)
  {
    hide Load, Store, Exec, LoadAll, Ascending, Within, NotScratch, Size;
    var t, c, m := l.target, R(s, l.base), s.memory;
    var w, sp, ra := t.word, Load(m, c + l.spOff, t.word), Load(m, c + l.raOff, t.word);
    LoadBound(m, c + l.raOff, w);
    var s1 := RestorePrefix(l, s);
    var last := Then(MovLoad(l.base, l.base, l.baseOff), Then(Ret, End));
    var s2 := LoadAllLoads(t, s1, l.base, l.loads, last);
    assert R(s2, l.base) == c && R(s2, t.sp) == sp - w;
    var s3 := SetR(s2, l.base, Load(s2.memory, c + l.baseOff, w));
    s' := SetR(s3, t.sp, sp).(pc := Load(s3.memory, sp - w, w));
    ExecThen(t, s2, MovLoad(l.base, l.base, l.baseOff), Then(Ret, End));
    ExecThen(t, s3, Ret, End);
    ExecEnd(t, s');
    LoadStored(m, sp - w, w, ra);
  }

  /**
   The push may write the target stack while the context is still being read: it must not hit what is
   left to read.
   */
  lemma RestoreInstalls(l: Layout, s: Machine) returns (s': Machine)
    requires LayoutOk(l) && PushClear(l, R(s, l.base), Load(s.memory, R(s, l.base) + l.spOff, l.target.word))
    ensures s' == Exec(l.target, s, RestoreCode(l))
    ensures Restored(l, s, s')
  {
    hide Load, Store, Exec, RestoreCode, LayoutOk, Size;
    s' := RestoreRuns(l, s);
    var w, c, m := l.target.word, R(s, l.base), s.memory;
    var sp, ra := Load(m, c + l.spOff, w), Load(m, c + l.raOff, w);
    LoadElsewhere(m, sp - w, w, ra, c + l.baseOff, w);
    forall i | 0 <= i < |l.loads| ensures R(s', l.loads[i].0) == Load(m, c + l.loads[i].1, w) {
      assert Apart(c + l.loads[i].1, w, sp - w, w);
      LoadElsewhere(m, sp - w, w, ra, c + l.loads[i].1, w);
    }
  }

  lemma RestorePrefix(l: Layout, s: Machine) returns (s': Machine)
    requires l.target.sp != 0 && l.base != 0 && l.base != l.target.sp
    ensures Exec(l.target, s, RestoreCode(l)) ==
            Exec(l.target, s', LoadAll(l.base, l.loads, Then(MovLoad(l.base, l.base, l.baseOff), Then(Ret, End))))
    ensures var w, c, m := l.target.word, R(s, l.base), s.memory;
            var sp, ra := Load(m, c + l.spOff, w), Load(m, c + l.raOff, w);
            && R(s', l.base) == c && R(s', l.target.sp) == Minus(sp, w)
            && s'.memory == Store(m, Minus(sp, w), w, ra)
            && s'.mxcsr == Load(m, c + l.mxcsrOff, 4) && s'.fcw == Load(m, c + l.fcwOff, 2)
  {
    hide Load, Store, Exec, LoadAll;
    var t := l.target;
    var loads := LoadAll(l.base, l.loads, Then(MovLoad(l.base, l.base, l.baseOff), Then(Ret, End)));
    var s1 := Step(t, s, MovLoad(t.sp, l.base, l.spOff));
    var s2 := Step(t, s1, Ldmxcsr(l.base, l.mxcsrOff));
    var s3 := Step(t, s2, Fldcw(l.base, l.fcwOff));
    var s4 := Step(t, s3, MovLoad(0, l.base, l.raOff));
    s' := Step(t, s4, Push(0));
    var push := Then(MovLoad(0, l.base, l.raOff), Then(Push(0), loads));
    var control := Then(Ldmxcsr(l.base, l.mxcsrOff), Then(Fldcw(l.base, l.fcwOff), push));
    ExecThen(t, s, MovLoad(t.sp, l.base, l.spOff), control);
    ExecThen(t, s1, Ldmxcsr(l.base, l.mxcsrOff), Then(Fldcw(l.base, l.fcwOff), push));
    ExecThen(t, s2, Fldcw(l.base, l.fcwOff), push);
    ExecThen(t, s3, MovLoad(0, l.base, l.raOff), Then(Push(0), loads));
    ExecThen(t, s4, Push(0), loads);
  }

  /** The slot that a push overlapping unread slots hits first. */
  function Hit(c: nat, sp: nat, w: nat, spReg: nat): int
    requires w > 0
  {
    var x := sp - w - c;
    if x < 0 then 0 else if x / w == spReg then spReg + 1 else x / w
  }

  lemma HitsUnread64(c: nat, sp: nat)
    requires 8 <= sp && c < sp < c + 0x88 && sp != c + 0x40
    ensures !PushClear(X64, c, sp)
  {
    var r := Hit(c, sp, 8, 7);
    if r != 5 {
      var k := if r < 5 then r else if r == 6 then 5 else r - 2;
      assert X64.loads[k] == (r, 8 * r);
      assert !Apart(c + X64.loads[k].1, 8, sp - 8, 8);
    }
  }

  /**
   On x86_64 the push is clear exactly when it ends below the context, covers the slot of rsp, or
   starts at RA's or above.
   */
  lemma PushClear64(c: nat, sp: nat)
    ensures PushClear(X64, c, sp) <==> 8 <= sp && (sp <= c || sp == c + 0x40 || c + 0x88 <= sp)
  {
    if 8 <= sp && c < sp < c + 0x88 && sp != c + 0x40 {
      HitsUnread64(c, sp);
    }
  }

  lemma HitsUnread86(c: nat, sp: nat)
    requires 4 <= sp && c < sp < c + 36 && sp != c + 20
    ensures !PushClear(X86, c, sp)
  {
    var r := Hit(c, sp, 4, 4);
    if r != 2 {
      var k := if r < 2 then r else if r == 3 then 2 else r - 2;
      assert X86.loads[k] == (r, 4 * r);
      assert !Apart(c + X86.loads[k].1, 4, sp - 4, 4);
    }
  }

  lemma PushClear86(c: nat, sp: nat)
    ensures PushClear(X86, c, sp) <==> 4 <= sp && (sp <= c || sp == c + 20 || c + 36 <= sp)
  {
    if 4 <= sp && c < sp < c + 36 && sp != c + 20 {
      HitsUnread86(c, sp);
    }
  }

  /** At or above the stack pointer that `save_context` recorded, the push is always clear. */
  lemma AboveRecordedIsClear(c: nat, sp: nat)
    ensures c + 0xA0 <= sp ==> PushClear(X64, c, sp)
    ensures c + 56 <= sp ==> PushClear(X86, c, sp)
  {
    PushClear64(c, sp);
    PushClear86(c, sp);
  }

  /**
   On both targets, with the stack pointer's slot at or above the value that `save_context` recorded,
   everything else in the context may have been edited, and it is installed as it stands.
   */
  lemma RestoreAboveRecorded(l: Layout, s: Machine) returns (s': Machine)
    requires l == X64 || l == X86
    requires R(s, l.base) + l.frame + l.target.word <= Load(s.memory, R(s, l.base) + l.spOff, l.target.word)
    ensures s' == Exec(l.target, s, RestoreCode(l))
    ensures Restored(l, s, s')
  {
    hide Load, Exec, RestoreCode, PushClear, LayoutOk, Restored;
    X64Ok();
    X86Ok();
    AboveRecordedIsClear(R(s, l.base), Load(s.memory, R(s, l.base) + l.spOff, l.target.word));
    s' := RestoreInstalls(l, s);
  }

  // ----- Restoring what was saved -----

  /**
   Restoring an unedited context while the return address is still on the stack is returning from
   `save_context`: control goes to that address, the stack pointer is what it is after the return, the
   saved registers and control words are those `save_context` was entered with, and no byte of memory
   reads differently.
   */
  lemma RestoreIsReturn(l: Layout, e: Machine, s: Machine) returns (s': Machine)
    requires CanSave(l, e) && (l == X64 || l == X86)
    requires R(s, l.base) == R(e, l.target.sp) - l.frame
    requires ContextHolds(l, e, R(e, l.target.sp) - l.frame, s.memory)
    requires Load(s.memory, R(e, l.target.sp), l.target.word) == Load(e.memory, R(e, l.target.sp), l.target.word)
    ensures s' == Exec(l.target, s, RestoreCode(l))
    ensures s'.pc == Load(e.memory, R(e, l.target.sp), l.target.word)
    ensures R(s', l.target.sp) == R(e, l.target.sp) + l.target.word
    ensures s'.mxcsr == e.mxcsr && s'.fcw == e.fcw
    ensures forall i | 0 <= i < |l.low| :: R(s', l.low[i].0) == R(e, l.low[i].0)
    ensures forall i | 0 <= i < |l.high| :: R(s', l.high[i].0) == R(e, l.high[i].0)
    ensures forall x :: Peek(s'.memory, x) == Peek(s.memory, x)
  {
    hide Load, Store, Exec, RestoreCode, Size, PushClear, LayoutOk, WordsOk, SameBeyond;
    var w, c, top := l.target.word, R(s, l.base), R(e, l.target.sp);
    AboveRecordedIsClear(c, top + w);
    s' := RestoreInstalls(l, s);
    forall x ensures Peek(s'.memory, x) == Peek(s.memory, x) {
      StoreSame(s.memory, top, w, x);
    }
    StoresAreLoaded(l, e, s, s', c);
  }

  /** Every register that is saved is restored from the slot it was saved in. */
  lemma StoresAreLoaded(l: Layout, e: Machine, s: Machine, s': Machine, c: nat)
    requires l == X64 || l == X86
    requires R(s, l.base) == c && Restored(l, s, s')
    requires SlotsHold(s.memory, c, l.low, l.target.word, e) && SlotsHold(s.memory, c, l.high, l.target.word, e)
    ensures forall i | 0 <= i < |l.low| :: R(s', l.low[i].0) == R(e, l.low[i].0)
    ensures forall i | 0 <= i < |l.high| :: R(s', l.high[i].0) == R(e, l.high[i].0)
  {
    hide Load, Store;
    if l == X64 {
      assert forall k | 0 <= k < 14 :: X64.loads[k] == (Loaded64(k), 8 * Loaded64(k));
      assert X64.loads[3] == (3, 0x18) && X64.loads[5] == (6, 0x30);
      forall i | 0 <= i < |l.high| ensures R(s', l.high[i].0) == R(e, l.high[i].0) {
        assert X64.loads[10 + i] == l.high[i];
      }
    } else {
      forall i | 0 <= i < |l.low| ensures R(s', l.low[i].0) == R(e, l.low[i].0) {
        if i != 1 { assert X86.loads[if i == 0 then 1 else 2] == l.low[i]; }
      }
      forall i | 0 <= i < |l.high| ensures R(s', l.high[i].0) == R(e, l.high[i].0) {
        assert X86.loads[3 + i] == l.high[i];
      }
    }
  }

  // ----- When the push is not clear -----

  lemma LowByte(q: nat)
    ensures (255 + 256 * q) % 256 == 255 && (255 + 256 * q) / 256 == q
  {
  }

  lemma {:induction false} OnesAreOnes(n: nat, i: nat)
    requires i < n
    ensures ToLE(Size(n) - 1, n)[i] == 255
    decreases n
  {
    LowByte(Size(n - 1) - 1);
    assert Size(n) - 1 == 255 + 256 * (Size(n - 1) - 1);
    if i > 0 {
      OnesAreOnes(n - 1, i - 1);
    }
  }

  lemma {:induction false} NotAllZero(bs: seq<Byte>, i: nat)
    requires i < |bs| && bs[i] != 0
    ensures FromLE(bs) != 0
  {
    if i > 0 {
      NotAllZero(bs[1..], i - 1);
    }
  }

  lemma {:induction false} AllZero(bs: seq<Byte>)
    requires forall i | 0 <= i < |bs| :: bs[i] == 0
    ensures FromLE(bs) == 0
  {
    if bs != [] {
      AllZero(bs[1..]);
    }
  }

  lemma EmptyIsZero(a: int, n: nat)
    ensures Load(map[], a, n) == 0
  {
    AllZero(Bytes(map[], a, n));
  }

  /** Pushing all ones over part of a zero word makes the word another. */
  lemma PushSpoils(m: Memory, a: int, b: int, w: nat)
    requires !Apart(a, w, b, w) && Load(m, a, w) == 0
    ensures Load(Store(m, b, w, Size(w) - 1), a, w) != 0
  {
    hide Peek, Pow256, ToLE, FromLE;
    var x := if a < b then b else a;
    OnesAreOnes(w, x - b);
    PeekWritten(m, b, ToLE(Size(w) - 1, w), x);
    NotAllZero(Bytes(Store(m, b, w, Size(w) - 1), a, w), x - a);
  }

  /** A context that holds only a stack pointer and a return address of ones. */
  lemma OnesContext(l: Layout, c: nat, sp: nat) returns (m: Memory)
    requires LayoutOk(l) && sp < Size(l.target.word)
    ensures Load(m, c + l.spOff, l.target.word) == sp && Load(m, c + l.raOff, l.target.word) == Size(l.target.word) - 1
    ensures forall off: nat | Apart(off, l.target.word, l.spOff, l.target.word) && off + l.target.word <= l.raOff ::
              Load(m, c + off, l.target.word) == 0
  {
    hide Load, Store, Size, Ascending, Within, NotScratch, DistinctRegs;
    var w := l.target.word;
    var m1 := Store(map[], c + l.spOff, w, sp);
    m := Store(m1, c + l.raOff, w, Size(w) - 1);
    LoadStored(map[], c + l.spOff, w, sp);
    LoadStored(m1, c + l.raOff, w, Size(w) - 1);
    LoadElsewhere(m1, c + l.raOff, w, Size(w) - 1, c + l.spOff, w);
    forall off: nat | Apart(off, w, l.spOff, w) && off + w <= l.raOff ensures Load(m, c + off, w) == 0 {
      LoadElsewhere(m1, c + l.raOff, w, Size(w) - 1, c + off, w);
      LoadElsewhere(map[], c + l.spOff, w, sp, c + off, w);
      EmptyIsZero(c + off, w);
    }
  }

  /** The condition on the push is exact: where it fails, some context is not restored as it stands. */
  lemma OverlapBreaks(l: Layout, c: nat, sp: nat) returns (s: Machine)
    requires LayoutOk(l) && l.target.word <= sp < Size(l.target.word) && !PushClear(l, c, sp)
    ensures R(s, l.base) == c && Load(s.memory, c + l.spOff, l.target.word) == sp
    ensures !Restored(l, s, Exec(l.target, s, RestoreCode(l)))
  {
    hide Load, Store, Size, Exec, RestoreCode, Ascending, Within, NotScratch, DistinctRegs;
    var w := l.target.word;
    var m := OnesContext(l, c, sp);
    s := Machine(map[l.base := c], 0, 0, 0, m);
    var s' := RestoreRuns(l, s);
    if !Apart(c + l.baseOff, w, sp - w, w) {
      PushSpoils(m, c + l.baseOff, sp - w, w);
    } else {
      var i :| 0 <= i < |l.loads| && !Apart(c + l.loads[i].1, w, sp - w, w);
      assert Load(m, c + l.loads[i].1, w) == 0;
      PushSpoils(m, c + l.loads[i].1, sp - w, w);
    }
  }

  // ----- The registers by name -----

  /** On x86_64 the context holds rbx, rbp and r12 to r15, each at eight times its number. */
  lemma SaveStores64(e: Machine, call: Code) returns (s: Machine)
    requires WordsOk(X64.target, e) && 0x98 <= R(e, 7) && R(e, 7) + 8 < Size(8)
    ensures Exec(X64.target, e, SaveCode(X64, call)) == Exec(X64.target, s, call)
    ensures var c, m := R(e, 7) - 0x98, s.memory;
            && (forall r | r in {3, 6, 12, 13, 14, 15} :: Load(m, c + 8 * r, 8) == R(e, r))
            && Load(m, c + 0x38, 8) == R(e, 7) + 8 && Load(m, c + 0x80, 8) == Load(e.memory, R(e, 7), 8)
            && Load(m, c + 0x88, 4) == e.mxcsr && Load(m, c + 0x90, 2) == e.fcw
            && SameBeyond(e.memory, m, c, 0x98)
    ensures forall r | r != 0 :: R(s, r) == if r == 7 then R(e, 7) - 0x98 else R(e, r)
  {
    hide Load, Exec, SaveCode, LayoutOk, WordsOk, SameBeyond, Size;
    X64Ok();
    s := SaveStores(X64, e, call);
    Held64(e, R(e, 7) - 0x98, s.memory);
  }

  lemma Held64(e: Machine, c: nat, m: Memory)
    requires SlotsHold(m, c, X64.low, 8, e) && SlotsHold(m, c, X64.high, 8, e)
    ensures forall r | r in {3, 6, 12, 13, 14, 15} :: Load(m, c + 8 * r, 8) == R(e, r)
  {
    hide Load;
    assert X64.low[0] == (3, 0x18) && X64.low[1] == (6, 0x30);
    assert X64.high[0] == (12, 0x60) && X64.high[1] == (13, 0x68) && X64.high[2] == (14, 0x70)
           && X64.high[3] == (15, 0x78);
  }

  /** On x86 the context holds ebx, ebp, esi and edi, and ecx and edx besides, each at four times its number. */
  lemma SaveStores86(e: Machine, call: Code) returns (s: Machine)
    requires WordsOk(X86.target, e) && 52 <= R(e, 4) && R(e, 4) + 4 < Size(4)
    ensures Exec(X86.target, e, SaveCode(X86, call)) == Exec(X86.target, s, call)
    ensures var c, m := R(e, 4) - 52, s.memory;
            && (forall r | r in {1, 2, 3, 5, 6, 7} :: Load(m, c + 4 * r, 4) == R(e, r))
            && Load(m, c + 16, 4) == R(e, 4) + 4 && Load(m, c + 32, 4) == Load(e.memory, R(e, 4), 4)
            && Load(m, c + 36, 4) == e.mxcsr && Load(m, c + 40, 2) == e.fcw
            && SameBeyond(e.memory, m, c, 52)
    ensures forall r | r != 0 :: R(s, r) == if r == 4 then R(e, 4) - 52 else R(e, r)
  {
    hide Load, Exec, SaveCode, LayoutOk, WordsOk, SameBeyond, Size;
    X86Ok();
    s := SaveStores(X86, e, call);
    Held86(e, R(e, 4) - 52, s.memory);
  }

  lemma Held86(e: Machine, c: nat, m: Memory)
    requires SlotsHold(m, c, X86.low, 4, e) && SlotsHold(m, c, X86.high, 4, e)
    ensures forall r | r in {1, 2, 3, 5, 6, 7} :: Load(m, c + 4 * r, 4) == R(e, r)
  {
    hide Load;
    assert X86.low[0] == (1, 4) && X86.low[1] == (2, 8) && X86.low[2] == (3, 12);
    assert X86.high[0] == (5, 20) && X86.high[1] == (6, 24) && X86.high[2] == (7, 28);
  }

  /** On x86_64 all sixteen registers come from their slots, wherever the push misses what is still to be read. */
  lemma RestoreInstalls64(s: Machine) returns (s': Machine)
    requires var c, sp := R(s, 5), Load(s.memory, R(s, 5) + 0x38, 8);
             8 <= sp && (sp <= c || sp == c + 0x40 || c + 0x88 <= sp)
    ensures s' == Exec(X64.target, s, RestoreCode(X64))
    ensures var c, m := R(s, 5), s.memory;
            && (forall r | 0 <= r < 16 :: R(s', r) == Load(m, c + 8 * r, 8))
            && s'.pc == Load(m, c + 0x80, 8) && s'.mxcsr == Load(m, c + 0x88, 4) && s'.fcw == Load(m, c + 0x90, 2)
            && SameBeyond(m, s'.memory, Load(m, c + 0x38, 8) - 8, 8)
  {
    hide Load, Store, Exec, RestoreCode, LayoutOk, PushClear, SameBeyond;
    X64Ok();
    PushClear64(R(s, 5), Load(s.memory, R(s, 5) + 0x38, 8));
    s' := RestoreInstalls(X64, s);
    var c, sp := R(s, 5), Load(s.memory, R(s, 5) + 0x38, 8);
    SameItself(s.memory, sp - 8, 8);
    StoreBeyond(s.memory, s.memory, sp - 8, 8, sp - 8, 8, Load(s.memory, c + 0x80, 8));
    forall r | 0 <= r < 16 && r != 5 && r != 7 ensures R(s', r) == Load(s.memory, c + 8 * r, 8) {
      var i := if r < 5 then r else if r == 6 then 5 else r - 2;
      assert X64.loads[i] == (r, 8 * r);
    }
  }

  /** On x86 all eight do. */
  lemma RestoreInstalls86(s: Machine) returns (s': Machine)
    requires var c, sp := R(s, 2), Load(s.memory, R(s, 2) + 16, 4);
             4 <= sp && (sp <= c || sp == c + 20 || c + 36 <= sp)
    ensures s' == Exec(X86.target, s, RestoreCode(X86))
    ensures var c, m := R(s, 2), s.memory;
            && (forall r | 0 <= r < 8 :: R(s', r) == Load(m, c + 4 * r, 4))
            && s'.pc == Load(m, c + 32, 4) && s'.mxcsr == Load(m, c + 36, 4) && s'.fcw == Load(m, c + 40, 2)
            && SameBeyond(m, s'.memory, Load(m, c + 16, 4) - 4, 4)
  {
    hide Load, Store, Exec, RestoreCode, LayoutOk, PushClear, SameBeyond;
    X86Ok();
    PushClear86(R(s, 2), Load(s.memory, R(s, 2) + 16, 4));
    s' := RestoreInstalls(X86, s);
    var c, sp := R(s, 2), Load(s.memory, R(s, 2) + 16, 4);
    SameItself(s.memory, sp - 4, 4);
    StoreBeyond(s.memory, s.memory, sp - 4, 4, sp - 4, 4, Load(s.memory, c + 32, 4));
    forall r | 0 <= r < 8 && r != 2 && r != 4 ensures R(s', r) == Load(s.memory, c + 4 * r, 4) {
      var i := if r < 2 then r else if r == 3 then 2 else r - 2;
      assert X86.loads[i] == (r, 4 * r);
    }
  }

  /** Every callee-saved register survives a save and a restore: rbx, rbp and r12 to r15 on x86_64. */
  lemma CalleeSaved64(e: Machine, s: Machine) returns (s': Machine)
    requires CanSave(X64, e) && R(s, 5) == R(e, 7) - 0x98
    requires ContextHolds(X64, e, R(e, 7) - 0x98, s.memory)
    requires Load(s.memory, R(e, 7), 8) == Load(e.memory, R(e, 7), 8)
    ensures s' == Exec(X64.target, s, RestoreCode(X64))
    ensures forall r | r in {3, 6, 12, 13, 14, 15} :: R(s', r) == R(e, r)
    ensures R(s', 7) == R(e, 7) + 8 && s'.pc == Load(e.memory, R(e, 7), 8)
  {
    hide Load, Exec, RestoreCode, CanSave;
    s' := RestoreIsReturn(X64, e, s);
    assert X64.low[0] == (3, 0x18) && X64.low[1] == (6, 0x30);
    assert X64.high[0] == (12, 0x60) && X64.high[1] == (13, 0x68) && X64.high[2] == (14, 0x70)
           && X64.high[3] == (15, 0x78);
  }

  /** And ebx, ebp, esi and edi on x86. */
  lemma CalleeSaved86(e: Machine, s: Machine) returns (s': Machine)
    requires CanSave(X86, e) && R(s, 2) == R(e, 4) - 52
    requires ContextHolds(X86, e, R(e, 4) - 52, s.memory)
    requires Load(s.memory, R(e, 4), 4) == Load(e.memory, R(e, 4), 4)
    ensures s' == Exec(X86.target, s, RestoreCode(X86))
    ensures forall r | r in {3, 5, 6, 7} :: R(s', r) == R(e, r)
    ensures R(s', 4) == R(e, 4) + 4 && s'.pc == Load(e.memory, R(e, 4), 4)
  {
    hide Load, Exec, RestoreCode, CanSave;
    s' := RestoreIsReturn(X86, e, s);
    assert X86.low[2] == (3, 12);
    assert X86.high[0] == (5, 20) && X86.high[1] == (6, 24) && X86.high[2] == (7, 28);
  }

  /** On x86_64 the frame of 0x98 bytes is dropped once the closure has returned. */
  lemma Returns64(e: Machine, s: Machine)
    requires 0x98 <= R(e, 7) && R(s, 7) == R(e, 7) - 0x98
    ensures var s' := Exec(X64.target, s, ReturnCode(0x98));
            && s'.pc == Load(s.memory, R(e, 7), 8) && R(s', 7) == R(e, 7) + 8
            && s'.memory == s.memory && forall r | r != 7 :: R(s', r) == R(s, r)
  {
    hide Load, Exec, ReturnCode;
    Returns(X64, s, 0x98, R(e, 7));
  }

  /** On x86 the closure's two arguments are dropped with the frame of 52 bytes. */
  lemma Returns86(e: Machine, s: Machine)
    requires 60 <= R(e, 4) && R(s, 4) == R(e, 4) - 60
    ensures var s' := Exec(X86.target, s, ReturnCode(60));
            && s'.pc == Load(s.memory, R(e, 4), 4) && R(s', 4) == R(e, 4) + 4
            && s'.memory == s.memory && forall r | r != 4 :: R(s', r) == R(s, r)
  {
    hide Load, Exec, ReturnCode;
    Returns(X86, s, 60, R(e, 4));
  }
}
