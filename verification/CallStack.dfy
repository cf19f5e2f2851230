/**
 A small machine whose functions save registers on the stack, call and return, with unwind rows
 that describe every instruction; and the proof that the unwinder inverts its call stack.
 */
module CallStack {
  import opened Words
  import opened Wrappers
  import opened Contexts
  import opened Slices
  import opened Frames
  import opened Walks
  import opened TwoPhase
  import opened Resumption

  /** The callee-saved registers of the System V calling convention, besides SP. */
  const PRESERVED: set<Reg> := {3, 6, 12, 13, 14, 15}
  const KEPT: set<Reg> := PRESERVED + {SP, RA}

  /** What a stack slot below the return address holds. */
  datatype Slot = Saved(reg: Reg) | Local

  predicate LayoutOk(slots: seq<Slot>) {
    && 8 * (|slots| + 2) < HALF
    && (forall i | 0 <= i < |slots| && slots[i].Saved? :: slots[i].reg in PRESERVED)
    && (forall i, j | 0 <= i < j < |slots| && slots[i].Saved? && slots[j].Saved? :: slots[i].reg != slots[j].reg)
  }

  /** The slots of a frame, from the return address down. */
  type Layout = slots: seq<Slot> | LayoutOk(slots) witness []

  datatype Instr =
    | Save(reg: Reg)
    | Restore(reg: Reg)
    | Spill(reg: Reg)
    | Discard
    | StoreLocal(slot: nat, reg: Reg)
    | Assign(reg: Reg)
    | Jump(target: Word)
    | Branch(target: Word)
    | Call(target: Word)
    | Return

  datatype Sized = Sized(instr: Instr, size: nat)

  /**
   The code of a function by address, the layout in force at each of its bytes, and what its frame
   description says besides the rows.
   */
  datatype Function = Function(
    start: Word,
    length: nat,
    code: map<Word, Sized>,
    layout: map<Word, Layout>,
    personality: Option<Word>,
    lsda: Option<Slice>,
    textBase: Option<Word>,
    dataBase: Option<Word>
  )

  type Program = seq<Function>

  // ----- Programs whose layouts describe them -----

  /** The layout after an instruction that falls through. */
  function After(instr: Instr, slots: seq<Slot>): seq<Slot> {
    match instr
    case Save(r) => slots + [Saved(r)]
    case Spill(_) => slots + [Local]
    case Restore(_) => if slots == [] then [] else slots[..|slots| - 1]
    case Discard => if slots == [] then [] else slots[..|slots| - 1]
    case _ => slots
  }

  /** What an instruction may do under a layout: a preserved register is saved before it is changed. */
  predicate Allowed(instr: Instr, slots: Layout) {
    match instr
    case Save(r) => r in PRESERVED && Saved(r) !in slots
    case Restore(r) => slots != [] && slots[|slots| - 1] == Saved(r)
    case Discard => slots != [] && slots[|slots| - 1] == Local
    case StoreLocal(k, _) => k < |slots| && slots[k] == Local
    case Assign(r) => r != SP && r != RA && (r in PRESERVED ==> Saved(r) in slots)
    case Return => slots == []
    case _ => true
  }

  ghost predicate InstrOk(p: Program, f: Function, a: Word)
    requires a in f.code
  {
    var Sized(instr, size) := f.code[a];
    && 0 < a && 1 <= size && a + size < WORD && a in f.layout
    && (forall b: Word | a <= b < a + size :: b in f.layout && f.layout[b] == f.layout[a])
    && Allowed(instr, f.layout[a])
    && (instr.Jump? || instr.Branch? ==>
          instr.target in f.code && instr.target in f.layout && f.layout[instr.target] == f.layout[a])
    && (instr.Call? ==>
          exists g :: g in p && g.start == instr.target && g.start in g.code && g.start in g.layout
            && g.layout[g.start] == [])
    && (!instr.Jump? && !instr.Return? && (instr.Call? ==> a + size in f.code) ==>
          a + size in f.code && a + size in f.layout && f.layout[a + size] == After(instr, f.layout[a]))
  }

  predicate InRange(f: Function, pc: Word) { f.start <= pc < f.start + f.length }

  ghost predicate ProgramOk(p: Program) {
    && (forall i, j, pc | 0 <= i < j < |p| && InRange(p[i], pc) :: !InRange(p[j], pc))
    && (forall f, pc | f in p && pc in f.layout :: InRange(f, pc))
    && (forall f, a | f in p && a in f.code :: InstrOk(p, f, a))
  }

  // ----- The machine -----

  /** A function being run: where it is, and its registers with RA the address it goes on at. */
  datatype Activation = Activation(func: Function, site: Word, ctx: Context)

  /** The innermost activation comes first; `root` is the context outside the outermost one. */
  datatype State = State(memory: Memory, stack: seq<Activation>, root: Context)

  function Moved(ctx: Context, sp: Word, pc: Word): Context {
    Set(Set(ctx, SP, sp), RA, pc)
  }

  function SlotsOf(a: Activation): Layout {
    if a.site in a.func.layout then a.func.layout[a.site] else []
  }

  /** One step of the innermost activation; the machine is stuck where no step applies. */
  ghost predicate Step(p: Program, s: State, s': State) {
    && s.stack != [] && s.stack[0].site in s.stack[0].func.code && s'.root == s.root && s'.stack != []
    && var a, rest := s.stack[0], s.stack[1..];
       var f, ctx, sp := a.func, a.ctx, Get(a.ctx, SP);
       var Sized(instr, size) := f.code[a.site];
       a.site + size < WORD &&
       var next: Word := a.site + size;
       match instr
       case Save(r) =>
         8 <= sp && s'.memory == s.memory[sp - 8 := Get(ctx, r)] &&
         s'.stack == [Activation(f, next, Moved(ctx, sp - 8, next))] + rest
       case Spill(r) =>
         8 <= sp && s'.memory == s.memory[sp - 8 := Get(ctx, r)] &&
         s'.stack == [Activation(f, next, Moved(ctx, sp - 8, next))] + rest
       case Restore(r) =>
         sp + 8 < WORD && s'.memory == s.memory &&
         s'.stack == [Activation(f, next, Moved(Set(ctx, r, Load(s.memory, sp)), sp + 8, next))] + rest
       case Discard =>
         sp + 8 < WORD && s'.memory == s.memory && s'.stack == [Activation(f, next, Moved(ctx, sp + 8, next))] + rest
       case StoreLocal(k, r) =>
         k < |SlotsOf(a)| && sp + 8 * (|SlotsOf(a)| - 1 - k) < WORD &&
         s'.memory == s.memory[sp + 8 * (|SlotsOf(a)| - 1 - k) := Get(ctx, r)] &&
         s'.stack == [Activation(f, next, Moved(ctx, sp, next))] + rest
       case Assign(r) =>
         s'.memory == s.memory &&
         s'.stack == [Activation(f, next, Moved(Set(ctx, r, Get(s'.stack[0].ctx, r)), sp, next))] + rest
       case Jump(t) => s'.memory == s.memory && s'.stack == [Activation(f, t, Moved(ctx, sp, t))] + rest
       case Branch(t) =>
         s'.memory == s.memory &&
         (s'.stack == [Activation(f, t, Moved(ctx, sp, t))] + rest
          || s'.stack == [Activation(f, next, Moved(ctx, sp, next))] + rest)
       case Call(t) =>
         var g := s'.stack[0].func;
         8 <= sp && g in p && g.start == t && t in g.code && t in g.layout && g.layout[t] == [] &&
         s'.memory == s.memory[sp - 8 := next] &&
         s'.stack == [Activation(g, t, Moved(ctx, sp - 8, t)), Activation(f, a.site, Set(ctx, RA, next))] + rest
       case Return =>
         var pc := Load(s.memory, sp);
         sp + 8 < WORD && rest != [] && pc in rest[0].func.code && s'.memory == s.memory &&
         s'.stack == [Activation(rest[0].func, pc, Moved(ctx, sp + 8, pc))] + rest[1..]
  }

  // ----- What every reachable state keeps -----

  /** The activation runs code of the program; if suspended, at a call it returns right after. */
  ghost predicate ActivationOk(p: Program, a: Activation, current: bool) {
    && a.func in p && a.site in a.func.code && a.site in a.func.layout
    && if current then Get(a.ctx, RA) == a.site
       else a.func.code[a.site].instr.Call? && Get(a.ctx, RA) == a.site + a.func.code[a.site].size
  }

  /** The saved slots below `cfa` hold the caller's registers. */
  ghost predicate SlotsHold(memory: Memory, cfa: int, slots: seq<Slot>, caller: Context) {
    forall i | 0 <= i < |slots| && slots[i].Saved? ::
      0 <= cfa - 16 - 8 * i < WORD && Load(memory, cfa - 16 - 8 * i) == Get(caller, slots[i].reg)
  }

  /** The preserved registers that are not saved still are the caller's. */
  ghost predicate RegistersHeld(ctx: Context, slots: seq<Slot>, caller: Context) {
    forall r | r in PRESERVED && Saved(r) !in slots :: Get(ctx, r) == Get(caller, r)
  }

  /** The frame that `ctx` stands in, laid out as `slots`, leads back to `caller` on the kept registers. */
  ghost predicate FrameOk(memory: Memory, ctx: Context, slots: Layout, caller: Context) {
    var cfa := Get(ctx, SP) + 8 * (|slots| + 1);
    && Get(caller, SP) == cfa
    && Get(caller, RA) == Load(memory, cfa - 8)
    && SlotsHold(memory, cfa, slots, caller)
    && RegistersHeld(ctx, slots, caller)
  }

  function CallerOf(stack: seq<Activation>, root: Context, i: nat): Context {
    if i + 1 < |stack| then stack[i + 1].ctx else root
  }

  ghost predicate FramesOk(p: Program, memory: Memory, stack: seq<Activation>, root: Context, from: nat) {
    forall i | from <= i < |stack| ::
      && ActivationOk(p, stack[i], i == 0)
      && FrameOk(memory, stack[i].ctx, SlotsOf(stack[i]), CallerOf(stack, root, i))
  }

  ghost predicate Inv(p: Program, s: State) {
    Get(s.root, RA) == 0 && FramesOk(p, s.memory, s.stack, s.root, 0)
  }

  /** The thread has just entered `f`, with zero as its return address. */
  ghost predicate Init(p: Program, s: State) {
    && |s.stack| == 1 && Get(s.root, RA) == 0
    && var a := s.stack[0];
       && ActivationOk(p, a, true) && SlotsOf(a) == []
       && FrameOk(s.memory, a.ctx, [], s.root)
  }

  ghost predicate IsRun(p: Program, states: seq<State>) {
    && states != [] && Init(p, states[0])
    && forall i, j | 0 <= i && j == i + 1 && j < |states| :: Step(p, states[i], states[j])
  }

  // ----- Steps keep the invariant -----

  /** A frame reads nothing of memory below its own stack pointer. */
  lemma FrameUnchanged(memory: Memory, memory': Memory, ctx: Context, ctx': Context, slots: Layout, caller: Context)
    requires FrameOk(memory, ctx, slots, caller)
    requires forall x: Word | Get(ctx, SP) <= x :: Load(memory', x) == Load(memory, x)
    requires Get(ctx', SP) == Get(ctx, SP) && forall r | r in PRESERVED :: Get(ctx', r) == Get(ctx, r)
    ensures FrameOk(memory', ctx', slots, caller)
  {
  }

  lemma FrameGrows(memory: Memory, ctx: Context, slots: Layout, caller: Context)
    requires FrameOk(memory, ctx, slots, caller)
    ensures Get(caller, SP) == Get(ctx, SP) + 8 * (|slots| + 1)
  {
    hide Load;
  }

  /** Stack pointers grow from each activation to its caller. */
  lemma {:induction false} StackGrows(p: Program, memory: Memory, stack: seq<Activation>, root: Context, from: nat,
                                      i: nat)
    requires FramesOk(p, memory, stack, root, from) && from <= i < |stack|
    ensures Get(stack[from].ctx, SP) + 8 <= Get(CallerOf(stack, root, i), SP)
    decreases i
  {
    hide FrameOk, ActivationOk, Get, SlotsOf;
    FrameGrows(memory, stack[i].ctx, SlotsOf(stack[i]), CallerOf(stack, root, i));
    if from < i {
      StackGrows(p, memory, stack, root, from, i - 1);
    }
  }

  /** Writing below the frames of the callers leaves their frames as they are. */
  lemma CallersUnchanged(p: Program, memory: Memory, stack: seq<Activation>, root: Context, x: Word, v: Word)
    requires FramesOk(p, memory, stack, root, 1) && stack != []
    requires x < Get(CallerOf(stack, root, 0), SP)
    ensures FramesOk(p, memory[x := v], stack, root, 1)
  {
    hide FrameOk, ActivationOk;
    forall i | 1 <= i < |stack|
      ensures FrameOk(memory[x := v], stack[i].ctx, SlotsOf(stack[i]), CallerOf(stack, root, i))
    {
      if i > 1 {
        StackGrows(p, memory, stack, root, 1, i - 1);
      }
      FrameUnchanged(memory, memory[x := v], stack[i].ctx, stack[i].ctx, SlotsOf(stack[i]), CallerOf(stack, root, i));
    }
  }

  /** Replacing the innermost activation by one with a good frame to the same caller keeps all frames. */
  lemma ReplaceTop(p: Program, memory: Memory, stack: seq<Activation>, root: Context, top: Activation)
    requires stack != [] && FramesOk(p, memory, stack, root, 1)
    requires ActivationOk(p, top, true) && FrameOk(memory, top.ctx, SlotsOf(top), CallerOf(stack, root, 0))
    ensures FramesOk(p, memory, [top] + stack[1..], root, 0)
  {
    hide FrameOk, ActivationOk;
    var stack' := [top] + stack[1..];
    assert |stack'| == |stack| && forall i | 1 <= i < |stack| :: stack'[i] == stack[i];
    assert forall i | 0 <= i < |stack| :: CallerOf(stack', root, i) == CallerOf(stack, root, i);
  }

  lemma PushKeepsSlots(memory: Memory, sp: Word, slots: seq<Slot>, slot: Slot, caller: Context, v: Word)
    requires SlotsHold(memory, sp + 8 + 8 * (|slots| + 1), slots, caller)
    requires sp + 8 * (|slots| + 2) < WORD && (slot.Saved? ==> v == Get(caller, slot.reg))
    ensures SlotsHold(memory[sp := v], sp + 8 + 8 * (|slots| + 1), slots + [slot], caller)
  {
    hide Get;
  }

  lemma PushHoldsRegisters(ctx: Context, ctx': Context, slots: seq<Slot>, slot: Slot, caller: Context)
    requires RegistersHeld(ctx, slots, caller) && forall r | r in PRESERVED :: Get(ctx', r) == Get(ctx, r)
    ensures RegistersHeld(ctx', slots + [slot], caller)
  {
    hide Get;
  }

  lemma PushKeepsFrame(memory: Memory, ctx: Context, slots: Layout, slots': Layout, caller: Context, slot: Slot,
                       v: Word, pc: Word)
    requires FrameOk(memory, ctx, slots, caller) && 8 <= Get(ctx, SP) && slots' == slots + [slot]
    requires slot.Saved? ==> slot.reg in PRESERVED && slot !in slots && v == Get(ctx, slot.reg)
    ensures FrameOk(memory[Get(ctx, SP) - 8 := v], Moved(ctx, Get(ctx, SP) - 8, pc), slots', caller)
  {
    hide SlotsHold, Get;
    if slot.Saved? { assert v == Get(caller, slot.reg); }
    PushKeepsSlots(memory, Get(ctx, SP) - 8, slots, slot, caller, v);
    PushHoldsRegisters(ctx, Moved(ctx, Get(ctx, SP) - 8, pc), slots, slot, caller);
  }

  lemma PopHoldsRegisters(ctx: Context, ctx': Context, slots: seq<Slot>, caller: Context)
    requires slots != [] && RegistersHeld(ctx, slots, caller)
    requires var last := slots[|slots| - 1];
             forall r | r in PRESERVED :: Get(ctx', r) == if last == Saved(r) then Get(caller, r) else Get(ctx, r)
    ensures RegistersHeld(ctx', slots[..|slots| - 1], caller)
  {
    hide Get;
    var n := |slots| - 1;
    assert slots == slots[..n] + [slots[n]];
    forall r | r in PRESERVED && Saved(r) !in slots[..n] ensures Get(ctx', r) == Get(caller, r) {
      assert slots[n] != Saved(r) ==> Saved(r) !in slots;
    }
  }

  /** The popped slot holds the caller's register, if it was saved there. */
  lemma PopKeepsFrame(memory: Memory, ctx: Context, slots: Layout, slots': Layout, caller: Context, ctx': Context,
                      pc: Word)
    requires FrameOk(memory, ctx, slots, caller) && slots != [] && slots' == slots[..|slots| - 1]
    requires Get(ctx, SP) + 8 < WORD
    requires var last := slots[|slots| - 1];
             forall r: Reg | r != SP && r != RA ::
               Get(ctx', r) == if last == Saved(r) then Load(memory, Get(ctx, SP)) else Get(ctx, r)
    ensures FrameOk(memory, Moved(ctx', Get(ctx, SP) + 8, pc), slots', caller)
  {
    hide Get, RegistersHeld;
    var n := |slots| - 1;
    var cfa := Get(ctx, SP) + 8 * (|slots| + 1);
    assert cfa - 16 - 8 * n == Get(ctx, SP);
    PopHoldsRegisters(ctx, Moved(ctx', Get(ctx, SP) + 8, pc), slots, caller);
  }

  lemma StoreKeepsSlots(memory: Memory, cfa: int, slots: seq<Slot>, caller: Context, k: nat, x: Word, v: Word)
    requires SlotsHold(memory, cfa, slots, caller) && k < |slots| && slots[k] == Local && x == cfa - 16 - 8 * k
    ensures SlotsHold(memory[x := v], cfa, slots, caller)
  {
    hide Get;
  }

  lemma StoreKeepsFrame(memory: Memory, ctx: Context, slots: Layout, caller: Context, k: nat, v: Word, pc: Word)
    requires FrameOk(memory, ctx, slots, caller) && k < |slots| && slots[k] == Local
    requires Get(ctx, SP) + 8 * (|slots| - 1 - k) < WORD
    ensures FrameOk(memory[Get(ctx, SP) + 8 * (|slots| - 1 - k) := v], Moved(ctx, Get(ctx, SP), pc), slots, caller)
  {
    hide Get, SlotsHold;
    StoreKeepsSlots(memory, Get(ctx, SP) + 8 * (|slots| + 1), slots, caller, k, Get(ctx, SP) + 8 * (|slots| - 1 - k),
                    v);
  }

  lemma AssignKeepsFrame(memory: Memory, ctx: Context, slots: Layout, caller: Context, r: Reg, v: Word, pc: Word)
    requires FrameOk(memory, ctx, slots, caller) && r != SP && r != RA && (r in PRESERVED ==> Saved(r) in slots)
    ensures FrameOk(memory, Moved(Set(ctx, r, v), Get(ctx, SP), pc), slots, caller)
  {
  }

  /** The frame a call creates leads back to the instruction after the call. */
  lemma CallMakesFrame(memory: Memory, ctx: Context, target: Word, next: Word)
    requires 8 <= Get(ctx, SP)
    ensures FrameOk(memory[Get(ctx, SP) - 8 := next], Moved(ctx, Get(ctx, SP) - 8, target), [], Set(ctx, RA, next))
  {
  }

  /** At a return, the machine stands just where its caller's record says it goes on. */
  lemma ReturnReachesCaller(memory: Memory, ctx: Context, caller: Context)
    requires FrameOk(memory, ctx, [], caller)
    ensures Get(caller, SP) == Get(ctx, SP) + 8 && Get(caller, RA) == Load(memory, Get(ctx, SP))
    ensures forall r | r in PRESERVED :: Get(ctx, r) == Get(caller, r)
  {
  }

  /** A fall-through instruction is followed by one whose layout is the instruction's effect. */
  lemma NextOk(p: Program, a: Activation, ctx': Context)
    requires ProgramOk(p) && ActivationOk(p, a, true)
    requires var instr := a.func.code[a.site].instr; !instr.Jump? && !instr.Return? && !instr.Call?
    ensures var instr := a.func.code[a.site].instr;
            var next := a.site + a.func.code[a.site].size;
            && next < WORD && Allowed(instr, SlotsOf(a))
            && (Get(ctx', RA) == next ==> ActivationOk(p, Activation(a.func, next, ctx'), true))
            && SlotsOf(Activation(a.func, next, ctx')) == After(instr, SlotsOf(a))
  {
    hide Get, Allowed, ProgramOk;
    InstrIsOk(p, a);
  }

  lemma TargetOk(p: Program, a: Activation, ctx': Context)
    requires ProgramOk(p) && ActivationOk(p, a, true)
    requires var instr := a.func.code[a.site].instr; instr.Jump? || instr.Branch?
    ensures var t := a.func.code[a.site].instr.target;
            && (Get(ctx', RA) == t ==> ActivationOk(p, Activation(a.func, t, ctx'), true))
            && SlotsOf(Activation(a.func, t, ctx')) == SlotsOf(a)
  {
    hide Get, Allowed, ProgramOk;
    InstrIsOk(p, a);
  }

  /** A step within the innermost function that keeps its frame keeps them all. */
  lemma Advance(p: Program, s: State, s': State, top: Activation, x: Word, v: Word)
    requires Inv(p, s) && s.stack != [] && s'.root == s.root && s'.stack == [top] + s.stack[1..]
    requires ActivationOk(p, top, true) && FrameOk(s'.memory, top.ctx, SlotsOf(top), CallerOf(s.stack, s.root, 0))
    requires s'.memory == s.memory || (s'.memory == s.memory[x := v] && x < Get(CallerOf(s.stack, s.root, 0), SP))
    ensures Inv(p, s')
  {
    hide FrameOk, ActivationOk, Get, SlotsOf;
    if s'.memory != s.memory {
      CallersUnchanged(p, s.memory, s.stack, s.root, x, v);
    }
    assert FramesOk(p, s'.memory, s.stack, s.root, 1);
    ReplaceTop(p, s'.memory, s.stack, s.root, top);
  }

  lemma TopOk(p: Program, s: State)
    requires Inv(p, s) && s.stack != []
    ensures ActivationOk(p, s.stack[0], true)
    ensures FrameOk(s.memory, s.stack[0].ctx, SlotsOf(s.stack[0]), CallerOf(s.stack, s.root, 0))
    ensures Get(CallerOf(s.stack, s.root, 0), SP) == Get(s.stack[0].ctx, SP) + 8 * (|SlotsOf(s.stack[0])| + 1)
  {
    hide ActivationOk, Get, SlotsOf;
  }

  lemma MovedTo(ctx: Context, sp: Word, pc: Word)
    ensures Get(Moved(ctx, sp, pc), RA) == pc && Get(Moved(ctx, sp, pc), SP) == sp
    ensures forall r: Reg | r != SP && r != RA :: Get(Moved(ctx, sp, pc), r) == Get(ctx, r)
  {
  }

  function InstrOf(a: Activation): Instr
    requires a.site in a.func.code
  {
    a.func.code[a.site].instr
  }

  /** What a fall-through step does besides memory and registers: move on, to the layout it leads to. */
  lemma FallsThrough(p: Program, s: State, s': State)
    requires ProgramOk(p) && Inv(p, s) && Step(p, s, s')
    requires var instr := InstrOf(s.stack[0]); !instr.Jump? && !instr.Branch? && !instr.Return? && !instr.Call?
    ensures var a, top := s.stack[0], s'.stack[0];
            && Allowed(InstrOf(a), SlotsOf(a))
            && ActivationOk(p, top, true) && SlotsOf(top) == After(InstrOf(a), SlotsOf(a))
            && s'.stack == [top] + s.stack[1..]
  {
    hide Get, FrameOk, ProgramOk, ActivationOk, SlotsOf, Allowed, Moved;
    TopOk(p, s);
    MovedTo(s.stack[0].ctx, Get(s'.stack[0].ctx, SP), s'.stack[0].site);
    NextOk(p, s.stack[0], s'.stack[0].ctx);
    NextRa(s, s', p);
  }

  lemma NextRa(s: State, s': State, p: Program)
    requires Step(p, s, s')
    requires var instr := InstrOf(s.stack[0]); !instr.Jump? && !instr.Branch? && !instr.Return? && !instr.Call?
    ensures s.stack[0].site + s.stack[0].func.code[s.stack[0].site].size == s'.stack[0].site == Get(s'.stack[0].ctx, RA)
    ensures s'.stack[0].func == s.stack[0].func && s'.stack == [s'.stack[0]] + s.stack[1..]
  {
    hide Get, SlotsOf;
  }

  lemma PushStep(p: Program, s: State, s': State)
    requires ProgramOk(p) && Inv(p, s) && Step(p, s, s')
    requires InstrOf(s.stack[0]).Save? || InstrOf(s.stack[0]).Spill?
    ensures Inv(p, s')
  {
    hide ProgramOk, Inv, FrameOk, ActivationOk, Get, SlotsOf, Moved;
    TopOk(p, s);
    FallsThrough(p, s, s');
    var a, top := s.stack[0], s'.stack[0];
    var r := InstrOf(a).reg;
    var slot := if InstrOf(a).Save? then Saved(r) else Local;
    PushKeepsFrame(s.memory, a.ctx, SlotsOf(a), SlotsOf(top), CallerOf(s.stack, s.root, 0), slot, Get(a.ctx, r),
                   top.site);
    Advance(p, s, s', top, Get(a.ctx, SP) - 8, Get(a.ctx, r));
  }

  lemma PopStep(p: Program, s: State, s': State)
    requires ProgramOk(p) && Inv(p, s) && Step(p, s, s')
    requires InstrOf(s.stack[0]).Restore? || InstrOf(s.stack[0]).Discard?
    ensures Inv(p, s')
  {
    hide ProgramOk, Inv, FrameOk, ActivationOk, Get, SlotsOf, Moved;
    TopOk(p, s);
    FallsThrough(p, s, s');
    var a, top := s.stack[0], s'.stack[0];
    var sp := Get(a.ctx, SP);
    var ctx' := if InstrOf(a).Restore? then Set(a.ctx, InstrOf(a).reg, Load(s.memory, sp)) else a.ctx;
    PopKeepsFrame(s.memory, a.ctx, SlotsOf(a), SlotsOf(top), CallerOf(s.stack, s.root, 0), ctx', top.site);
    Advance(p, s, s', top, 0, 0);
  }

  lemma StoreStep(p: Program, s: State, s': State)
    requires ProgramOk(p) && Inv(p, s) && Step(p, s, s') && InstrOf(s.stack[0]).StoreLocal?
    ensures Inv(p, s')
  {
    hide ProgramOk, Inv, FrameOk, ActivationOk, Get, SlotsOf, Moved;
    TopOk(p, s);
    FallsThrough(p, s, s');
    var a, top := s.stack[0], s'.stack[0];
    var k, v := InstrOf(a).slot, Get(a.ctx, InstrOf(a).reg);
    StoreKeepsFrame(s.memory, a.ctx, SlotsOf(a), CallerOf(s.stack, s.root, 0), k, v, top.site);
    Advance(p, s, s', top, Get(a.ctx, SP) + 8 * (|SlotsOf(a)| - 1 - k), v);
  }

  lemma AssignStep(p: Program, s: State, s': State)
    requires ProgramOk(p) && Inv(p, s) && Step(p, s, s') && InstrOf(s.stack[0]).Assign?
    ensures Inv(p, s')
  {
    hide ProgramOk, Inv, FrameOk, ActivationOk, Get, SlotsOf, Moved;
    TopOk(p, s);
    FallsThrough(p, s, s');
    var a, top := s.stack[0], s'.stack[0];
    var r := InstrOf(a).reg;
    AssignKeepsFrame(s.memory, a.ctx, SlotsOf(a), CallerOf(s.stack, s.root, 0), r, Get(top.ctx, r), top.site);
    Advance(p, s, s', top, 0, 0);
  }

  lemma JumpStep(p: Program, s: State, s': State)
    requires ProgramOk(p) && Inv(p, s) && Step(p, s, s')
    requires InstrOf(s.stack[0]).Jump? || InstrOf(s.stack[0]).Branch?
    ensures Inv(p, s')
  {
    hide ProgramOk, Inv, FrameOk, ActivationOk, Get, SlotsOf, Moved;
    TopOk(p, s);
    var a, top := s.stack[0], s'.stack[0];
    MovedTo(a.ctx, Get(a.ctx, SP), top.site);
    TargetOk(p, a, top.ctx);
    if InstrOf(a).Branch? { NextOk(p, a, top.ctx); }
    MoveKeepsFrame(s.memory, a.ctx, SlotsOf(a), CallerOf(s.stack, s.root, 0), top.site);
    Advance(p, s, s', top, 0, 0);
  }

  lemma MoveKeepsFrame(memory: Memory, ctx: Context, slots: Layout, caller: Context, pc: Word)
    requires FrameOk(memory, ctx, slots, caller)
    ensures FrameOk(memory, Moved(ctx, Get(ctx, SP), pc), slots, caller)
  {
    FrameUnchanged(memory, memory, ctx, Moved(ctx, Get(ctx, SP), pc), slots, caller);
  }

  lemma CallStep(p: Program, s: State, s': State)
    requires ProgramOk(p) && Inv(p, s) && Step(p, s, s') && InstrOf(s.stack[0]).Call?
    ensures Inv(p, s')
  {
    hide ProgramOk, FrameOk, Get, Moved, InRange;
    TopOk(p, s);
    var a, rest := s.stack[0], s.stack[1..];
    var next := a.site + a.func.code[a.site].size;
    var sp := Get(a.ctx, SP);
    var callee, suspended := s'.stack[0], s'.stack[1];
    CallMakesFrame(s.memory, a.ctx, callee.site, next);
    MovedTo(a.ctx, sp - 8, callee.site);
    CallersUnchanged(p, s.memory, s.stack, s.root, sp - 8, next);
    SuspendKeepsFrame(s.memory, a.ctx, SlotsOf(a), CallerOf(s.stack, s.root, 0), next);
    forall i | 0 <= i < |s'.stack|
      ensures ActivationOk(p, s'.stack[i], i == 0)
      ensures FrameOk(s'.memory, s'.stack[i].ctx, SlotsOf(s'.stack[i]), CallerOf(s'.stack, s.root, i))
    {
      if i > 1 { assert s'.stack[i] == s.stack[i - 1]; }
    }
  }

  lemma SuspendKeepsFrame(memory: Memory, ctx: Context, slots: Layout, caller: Context, next: Word)
    requires FrameOk(memory, ctx, slots, caller) && 8 <= Get(ctx, SP)
    ensures FrameOk(memory[Get(ctx, SP) - 8 := next], Set(ctx, RA, next), slots, caller)
  {
    FrameUnchanged(memory, memory[Get(ctx, SP) - 8 := next], ctx, Set(ctx, RA, next), slots, caller);
  }

  lemma ReturnStep(p: Program, s: State, s': State)
    requires ProgramOk(p) && Inv(p, s) && Step(p, s, s') && InstrOf(s.stack[0]).Return?
    ensures Inv(p, s')
  {
    hide ProgramOk, FramesOk, FrameOk, Get, Moved, ActivationOk, SlotsOf;
    TopOk(p, s);
    var rest, top := s.stack[1..], s'.stack[0];
    CallersOk(p, s.memory, s.stack, s.root, 1);
    ReturnFacts(p, s.stack[0], s.stack[1], s.memory, top);
    FrameUnchanged(s.memory, s.memory, rest[0].ctx, top.ctx, SlotsOf(top), CallerOf(rest, s.root, 0));
    ReplaceTop(p, s.memory, rest, s.root, top);
    assert rest[1..] == s'.stack[1..] && s'.stack == [top] + rest[1..];
  }

  /** The frames from the `n`-th on, on the stack that is left without those inside it. */
  lemma CallersOk(p: Program, memory: Memory, stack: seq<Activation>, root: Context, n: nat)
    requires FramesOk(p, memory, stack, root, 0) && 1 <= n < |stack|
    ensures FramesOk(p, memory, stack[n..], root, 1)
    ensures ActivationOk(p, stack[n], false) && CallerOf(stack, root, n - 1) == stack[n].ctx
    ensures FrameOk(memory, stack[n].ctx, SlotsOf(stack[n]), CallerOf(stack[n..], root, 0))
  {
    hide FrameOk, ActivationOk, SlotsOf;
    var rest := stack[n..];
    forall i | 0 <= i < |rest|
      ensures ActivationOk(p, rest[i], false)
      ensures FrameOk(memory, rest[i].ctx, SlotsOf(rest[i]), CallerOf(rest, root, i))
    {
      assert rest[i] == stack[i + n] && CallerOf(rest, root, i) == CallerOf(stack, root, i + n);
    }
  }

  /** After a return the caller goes on, at the layout of its call and with its preserved registers. */
  lemma ReturnFacts(p: Program, a: Activation, b: Activation, memory: Memory, top: Activation)
    requires ProgramOk(p) && ActivationOk(p, a, true) && ActivationOk(p, b, false) && InstrOf(a).Return?
    requires FrameOk(memory, a.ctx, SlotsOf(a), b.ctx)
    requires Get(a.ctx, SP) + 8 < WORD && Load(memory, Get(a.ctx, SP)) in b.func.code
    requires var pc := Load(memory, Get(a.ctx, SP)); top == Activation(b.func, pc, Moved(a.ctx, Get(a.ctx, SP) + 8, pc))
    ensures ActivationOk(p, top, true) && SlotsOf(top) == SlotsOf(b)
    ensures Get(top.ctx, SP) == Get(b.ctx, SP) && forall r | r in PRESERVED :: Get(top.ctx, r) == Get(b.ctx, r)
  {
    hide ProgramOk, FrameOk, Get, Moved;
    InstrIsOk(p, a);
    InstrIsOk(p, b);
    ReturnReachesCaller(memory, a.ctx, b.ctx);
    MovedTo(a.ctx, Get(a.ctx, SP) + 8, top.site);
  }

  lemma InstrIsOk(p: Program, a: Activation)
    requires ProgramOk(p) && a.func in p && a.site in a.func.code
    ensures InstrOk(p, a.func, a.site)
  {
    hide InstrOk;
  }

  /** Every step of the machine keeps every frame on the stack leading back to its caller. */
  lemma StepKeepsInv(p: Program, s: State, s': State)
    requires ProgramOk(p) && Inv(p, s) && Step(p, s, s')
    ensures Inv(p, s')
  {
    hide ProgramOk, Inv;
    match InstrOf(s.stack[0])
    case Save(_) => PushStep(p, s, s');
    case Spill(_) => PushStep(p, s, s');
    case Restore(_) => PopStep(p, s, s');
    case Discard => PopStep(p, s, s');
    case StoreLocal(_, _) => StoreStep(p, s, s');
    case Assign(_) => AssignStep(p, s, s');
    case Jump(_) => JumpStep(p, s, s');
    case Branch(_) => JumpStep(p, s, s');
    case Call(_) => CallStep(p, s, s');
    case Return => ReturnStep(p, s, s');
  }

  /** Every reachable state of the machine has good frames. */
  lemma {:induction false} ReachableInv(p: Program, states: seq<State>, i: nat)
    requires ProgramOk(p) && IsRun(p, states) && i < |states|
    ensures Inv(p, states[i])
    decreases i
  {
    hide ProgramOk, FrameOk, ActivationOk, Step, SlotsOf;
    if i == 0 {
      InitInv(p, states[0]);
    } else {
      ReachableInv(p, states, i - 1);
      StepKeepsInv(p, states[i - 1], states[i]);
    }
  }

  lemma InitInv(p: Program, s: State)
    requires Init(p, s)
    ensures Inv(p, s)
  {
    hide FrameOk, ActivationOk, SlotsOf;
    var a := s.stack[0];
    assert FrameOk(s.memory, a.ctx, SlotsOf(a), s.root);
  }

  // ----- The unwind information of a program -----

  /** The register rules of a layout: RA just below the CFA, and the saved registers below it. */
  function SlotRules(slots: Layout, n: nat): seq<(Reg, RegisterRule)>
    requires n <= |slots|
  {
    if n == 0 then [(RA, Offset(-8))]
    else SlotRules(slots, n - 1) + if slots[n - 1].Saved? then [(slots[n - 1].reg, Offset(-8 - 8 * n))] else []
  }

  /** The rules are the return address's and one for each saved slot. */
  lemma {:induction false} SlotRulesAre(slots: Layout, n: nat)
    requires n <= |slots|
    ensures SlotRules(slots, n) != [] && SlotRules(slots, n)[0] == (RA, Offset(-8))
    ensures forall i | 0 <= i < n && slots[i].Saved? :: (slots[i].reg, Offset(-16 - 8 * i)) in SlotRules(slots, n)
    ensures forall rule | rule in SlotRules(slots, n)[1..] ::
              exists i :: 0 <= i < n && slots[i] == Saved(rule.0) && rule.1 == Offset(-16 - 8 * i)
    ensures DistinctRegisters(SlotRules(slots, n))
  {
    if n > 0 {
      SlotRulesAre(slots, n - 1);
      var rules, rules' := SlotRules(slots, n - 1), SlotRules(slots, n);
      if slots[n - 1].Saved? {
        var last := (slots[n - 1].reg, Offset(-8 - 8 * n));
        assert rules'[1..] == rules[1..] + [last];
        forall j | 0 <= j < |rules| ensures rules'[j].0 != last.0 {
          if j > 0 { assert rules[j] in rules[1..]; }
        }
      }
    }
  }

  ghost function RowOf(slots: Layout): Row {
    SlotRulesAre(slots, |slots|);
    Row(RegisterAndOffset(SP, 8 * (|slots| + 1)), SlotRules(slots, |slots|), 0)
  }

  ghost function FdeOf(f: Function): Fde {
    Fde(f.start, f.length, map b | b in f.layout :: RowOf(f.layout[b]), false,
        f.personality, f.lsda, f.textBase, f.dataBase)
  }

  ghost function FdesOf(p: Program): seq<Fde> {
    seq(|p|, i requires 0 <= i < |p| => FdeOf(p[i]))
  }

  ghost function EnvOf(p: Program, memory: Memory, evaluate: (Expr, Memory, Context) -> Option<Word>): Env {
    Env(FdesOf(p), memory, evaluate)
  }

  lemma LookupFinds(p: Program, f: Function, pc: Word)
    requires ProgramOk(p) && f in p && pc in f.layout
    ensures FindFde(FdesOf(p), pc) == Some(FdeOf(f))
  {
    hide FdeOf, InstrOk;
    var i :| 0 <= i < |p| && p[i] == f;
    var found := FindFde(FdesOf(p), pc);
    RangeOf(f, pc);
    assert Contains(FdesOf(p)[i], pc);
    var j :| 0 <= j < |FdesOf(p)| && FdesOf(p)[j] == found.value;
    RangeOf(p[j], pc);
    assert InRange(p[i], pc) && InRange(p[j], pc);
  }

  lemma RangeOf(f: Function, pc: Word)
    ensures Contains(FdeOf(f), pc) <==> InRange(f, pc)
    ensures pc in f.layout ==> pc in FdeOf(f).rows && FdeOf(f).rows[pc] == RowOf(f.layout[pc])
  {
  }

  ghost function FrameOf(a: Activation): Frame {
    Frame(FdeOf(a.func), RowOf(SlotsOf(a)))
  }

  /** The unwinder finds an activation's frame from its registers. */
  lemma FindsFrame(p: Program, a: Activation, current: bool, env: Env, c: Context)
    requires ProgramOk(p) && ActivationOk(p, a, current) && env.fdes == FdesOf(p)
    requires Get(c, RA) == Get(a.ctx, RA)
    ensures FromContext(env, Point(c, current)) == Success(Some(FrameOf(a)))
  {
    hide FdeOf, RowOf, Get;
    InstrIsOk(p, a);
    var pc := LookupPc(Point(c, current));
    assert pc in a.func.layout && a.func.layout[pc] == SlotsOf(a);
    LookupFinds(p, a.func, pc);
    RangeOf(a.func, pc);
  }

  /** Unwinding a good frame recovers the caller's kept registers. */
  lemma UnwindsFrame(env: Env, ctx: Context, slots: Layout, caller: Context, c: Context)
    requires FrameOk(env.memory, ctx, slots, caller) && Agree(KEPT, c, ctx)
    ensures Caller(env, RowOf(slots), c).Success?
    ensures Agree(KEPT, Caller(env, RowOf(slots), c).value, caller)
  {
    hide RegistersHeld, SlotsHold, Get, SlotRules;
    var row := RowOf(slots);
    SlotRulesAre(slots, |slots|);
    var cfa := Get(caller, SP);
    assert Cfa(env, row, c) == Some(cfa);
    forall i | 0 <= i < |row.rules| ensures row.rules[i].1.Offset? {
      if i > 0 { assert row.rules[i] in row.rules[1..]; }
    }
    assert AllEvaluate(env, row.rules, c, cfa);
    var result := Caller(env, row, c).value;
    forall r | r in KEPT ensures CallerRegister(env, row.rules, c, cfa, r) == Get(caller, r) {
      RegisterRecovered(env, ctx, slots, caller, c, r);
    }
  }

  lemma SavedRule(slots: Layout, i: nat)
    requires i < |slots| && slots[i].Saved?
    ensures RuleFor(RowOf(slots).rules, slots[i].reg) == Some(Offset(-16 - 8 * i))
  {
    hide SlotRules;
    SlotRulesAre(slots, |slots|);
    RuleForUnique(RowOf(slots).rules, slots[i].reg);
  }

  lemma ReturnAddressRule(slots: Layout)
    ensures RuleFor(RowOf(slots).rules, RA) == Some(Offset(-8))
  {
    hide SlotRules;
    SlotRulesAre(slots, |slots|);
    RuleForUnique(RowOf(slots).rules, RA);
  }

  lemma NoRule(slots: Layout, r: Reg)
    requires r != RA && Saved(r) !in slots
    ensures RuleFor(RowOf(slots).rules, r) == None
  {
    hide SlotRules, RuleFor;
    SlotRulesAre(slots, |slots|);
    var rules := RowOf(slots).rules;
    forall j | 0 <= j < |rules| ensures rules[j].0 != r {
      if j > 0 { assert rules[j] in rules[1..]; }
    }
  }

  /** Where the caller's register `r` is while the callee stands in its frame. */
  lemma HeldOrSaved(memory: Memory, ctx: Context, slots: Layout, caller: Context, c: Context, r: Reg)
    requires FrameOk(memory, ctx, slots, caller) && Agree(KEPT, c, ctx) && r in KEPT
    ensures forall i | 0 <= i < |slots| && slots[i] == Saved(r) ::
              0 <= Get(caller, SP) - 16 - 8 * i < WORD && Load(memory, Get(caller, SP) - 16 - 8 * i) == Get(caller, r)
    ensures 8 <= Get(caller, SP) && Get(caller, RA) == Load(memory, Get(caller, SP) - 8)
    ensures r in PRESERVED && Saved(r) !in slots ==> Get(c, r) == Get(caller, r)
  {
    hide Get;
  }

  lemma RegisterRecovered(env: Env, ctx: Context, slots: Layout, caller: Context, c: Context, r: Reg)
    requires FrameOk(env.memory, ctx, slots, caller) && Agree(KEPT, c, ctx) && r in KEPT
    ensures CallerRegister(env, RowOf(slots).rules, c, Get(caller, SP), r) == Get(caller, r)
  {
    hide Get, RowOf, RuleFor, RegistersHeld, SlotsHold, Agree;
    var cfa := Get(caller, SP);
    HeldOrSaved(env.memory, ctx, slots, caller, c, r);
    if i :| 0 <= i < |slots| && slots[i] == Saved(r) {
      SavedRule(slots, i);
      assert WrappingAdd(cfa, AsWord(-16 - 8 * i)) == cfa - 16 - 8 * i;
    } else if r == RA {
      ReturnAddressRule(slots);
      assert WrappingAdd(cfa, AsWord(-8)) == cfa - 8;
    } else {
      NoRule(slots, r);
    }
  }

  // ----- The unwinder inverts the call stack -----

  /** The context the `i`-th visit should see: an activation's, or the one outside them all. */
  function ContextAt(stack: seq<Activation>, root: Context, i: nat): Context {
    if i < |stack| then stack[i].ctx else root
  }

  /**
   The walk visits the activations from the `i`-th outwards, each with its own frame and kept
   registers, and then finds the end of the stack.
   */
  ghost predicate Inverts(stack: seq<Activation>, i: nat, w: Walk) {
    && i + |w.visits| == |stack| && w.end.StackEnd?
    && (forall j, k | 0 <= j < |w.visits| && k == i + j ::
          w.visits[j].frame == FrameOf(stack[k]) && Agree(KEPT, w.visits[j].at.ctx, stack[k].ctx))
    && (forall j | 0 <= j < |w.visits| :: w.visits[j].at.signal <==> i + j == 0)
  }

  lemma {:induction false} WalkFrom(p: Program, s: State, env: Env, i: nat, c: Context) returns (w: Walk)
    requires ProgramOk(p) && Inv(p, s) && env.fdes == FdesOf(p) && env.memory == s.memory
    requires i <= |s.stack| && s.stack != [] && Agree(KEPT, c, ContextAt(s.stack, s.root, i))
    ensures IsWalk(env, Point(c, i == 0), w) && Inverts(s.stack, i, w)
    decreases |s.stack| - i
  {
    hide ProgramOk, Inv, FromContext, Caller, ActivationOk, FrameOk, FrameOf, FdeOf, RowOf, Agree, Get, SlotsOf;
    SameRa(c, ContextAt(s.stack, s.root, i));
    var p0 := Point(c, i == 0);
    if i == |s.stack| {
      RootEnds(p, s, env, c);
      w := Walk([], StackEnd(p0));
    } else {
      StackOk(p, s, i);
      var a := s.stack[i];
      var frame := FrameOf(a);
      FindsFrame(p, a, i == 0, env, c);
      var caller := ContextAt(s.stack, s.root, i + 1);
      UnwindsFrame(env, a.ctx, SlotsOf(a), caller, c);
      var c' := Caller(env, RowOf(SlotsOf(a)), c).value;
      FrameIs(a);
      var rest := WalkFrom(p, s, env, i + 1, c');
      w := Walk([Visit(p0, frame)] + rest.visits, rest.end);
      assert w.visits[1..] == rest.visits;
      forall j, k | 0 <= j < |w.visits| && k == i + j
        ensures w.visits[j].frame == FrameOf(s.stack[k]) && Agree(KEPT, w.visits[j].at.ctx, s.stack[k].ctx)
      {
        if j > 0 { assert w.visits[j] == rest.visits[j - 1]; }
      }
      forall j | 0 <= j < |w.visits| ensures w.visits[j].at.signal <==> i + j == 0 {
        if j > 0 { assert w.visits[j] == rest.visits[j - 1]; }
      }
    }
  }

  lemma SameRa(c: Context, d: Context)
    requires Agree(KEPT, c, d)
    ensures Get(c, RA) == Get(d, RA)
  {
  }

  lemma RootEnds(p: Program, s: State, env: Env, c: Context)
    requires Inv(p, s) && Get(c, RA) == Get(s.root, RA)
    ensures FromContext(env, Point(c, false)) == Success(None)
  {
  }

  lemma StackOk(p: Program, s: State, i: nat)
    requires Inv(p, s) && i < |s.stack|
    ensures ActivationOk(p, s.stack[i], i == 0)
    ensures FrameOk(s.memory, s.stack[i].ctx, SlotsOf(s.stack[i]), ContextAt(s.stack, s.root, i + 1))
  {
    hide ActivationOk, FrameOk;
  }

  lemma FrameIs(a: Activation)
    ensures FrameOf(a).row == RowOf(SlotsOf(a)) && !FrameOf(a).fde.trampoline
  {
  }

  lemma SameSp(c: Context, d: Context)
    requires Agree(KEPT, c, d)
    ensures Get(c, SP) == Get(d, SP)
  {
  }

  /** Such walks move outwards: each frame's stack pointer lies above that of the frame it called. */
  lemma InvertingWalkOutward(p: Program, s: State, i: nat, w: Walk)
    requires Inv(p, s) && Inverts(s.stack, i, w)
    ensures StepsOutward(w)
    ensures forall j, k | 0 <= j && k == j + 1 && k < |w.visits| ::
              (StackPointer(w.visits[k].at) - StackPointer(w.visits[j].at)) % 8 == 0
  {
    hide ActivationOk, FrameOf, FrameOk, Inv, Get, SlotsOf, Agree;
    forall j, k | 0 <= j && k == j + 1 && k < |w.visits|
      ensures Outward(w.visits[j].at, w.visits[k].at)
      ensures (StackPointer(w.visits[k].at) - StackPointer(w.visits[j].at)) % 8 == 0
    {
      StackOk(p, s, i + j);
      FrameGrows(s.memory, s.stack[i + j].ctx, SlotsOf(s.stack[i + j]), s.stack[i + k].ctx);
      SameSp(w.visits[j].at.ctx, s.stack[i + j].ctx);
      SameSp(w.visits[k].at.ctx, s.stack[i + k].ctx);
    }
  }

  /** On a stack kept even, a walk from a suspended activation is one whose frames the handler key tells apart. */
  lemma {:induction false} EvenAlong(w: Walk, i: nat)
    requires forall j, k | 0 <= j && k == j + 1 && k < |w.visits| ::
               (StackPointer(w.visits[k].at) - StackPointer(w.visits[j].at)) % 8 == 0
    requires i < |w.visits| && StackPointer(w.visits[0].at) % 2 == 0
    ensures StackPointer(w.visits[i].at) % 2 == 0
    decreases i
  {
    if i > 0 {
      EvenAlong(w, i - 1);
    }
  }

  /**
   In every reachable state, a walk from any activation on the call stack, started at the interrupted
   instruction when it is the innermost and at its return address otherwise, visits exactly that
   activation and those outside it in order, recovers the kept registers of each, moves outwards at
   every step, and ends outside the outermost. From a suspended activation with an even stack
   pointer, as the drivers start, it is regular: the handler key tells its frames apart.
   */
  lemma UnwindingInvertsCallStack(p: Program, states: seq<State>, n: nat, i: nat,
                                  evaluate: (Expr, Memory, Context) -> Option<Word>)
    returns (w: Walk)
    requires ProgramOk(p) && IsRun(p, states) && n < |states| && i < |states[n].stack|
    ensures var s := states[n];
            && IsWalk(EnvOf(p, s.memory, evaluate), Point(s.stack[i].ctx, i == 0), w)
            && Inverts(s.stack, i, w) && StepsOutward(w)
            && (i > 0 && Get(s.stack[i].ctx, SP) % 2 == 0 ==> Regular(w))
  {
    hide ProgramOk, IsRun, IsWalk, FrameOf, Inv, StepsOutward;
    var s := states[n];
    ReachableInv(p, states, n);
    w := WalkFrom(p, s, EnvOf(p, s.memory, evaluate), i, s.stack[i].ctx);
    InvertingWalkOutward(p, s, i, w);
    WalkStart(EnvOf(p, s.memory, evaluate), Point(s.stack[i].ctx, i == 0), w);
    if Get(s.stack[i].ctx, SP) % 2 == 0 {
      forall j | 0 <= j < |w.visits| ensures StackPointer(w.visits[j].at) % 2 == 0 {
        EvenAlong(w, j);
      }
    }
  }

  // ----- The machine is not stuck -----

  /** The next address and the stack around the frame are within the address space. */
  ghost predicate HasRoom(s: State) {
    && s.stack != [] && s.stack[0].site in s.stack[0].func.code
    && s.stack[0].site + s.stack[0].func.code[s.stack[0].site].size < WORD
    && 8 <= Get(s.stack[0].ctx, SP) && Get(s.stack[0].ctx, SP) + 8 * (|SlotsOf(s.stack[0])| + 1) < WORD
  }

  /**
   With room, every instruction has its step, on any reachable state: only a return out of the
   outermost function, or to a call that is not followed by code, has none.
   */
  lemma NeverStuck(p: Program, s: State, v: Word, taken: bool) returns (s': State)
    requires ProgramOk(p) && Inv(p, s) && HasRoom(s)
    requires InstrOf(s.stack[0]).Return? ==>
               && |s.stack| > 1 && s.stack[1].site in s.stack[1].func.code
               && s.stack[1].site + s.stack[1].func.code[s.stack[1].site].size in s.stack[1].func.code
    ensures Step(p, s, s')
    ensures match InstrOf(s.stack[0])
            case Assign(r) => r != SP && r != RA ==> Get(s'.stack[0].ctx, r) == v
            case Branch(target) => taken ==> s'.stack[0].site == target
            case Call(_) => |s'.stack| == |s.stack| + 1
            case Return => |s'.stack| == |s.stack| - 1
            case _ => |s'.stack| == |s.stack|
  {
    hide ProgramOk, Inv, FrameOk, ActivationOk, Get, Set, Moved, SlotsOf;
    TopOk(p, s);
    TopAllowed(p, s.stack[0]);
    match InstrOf(s.stack[0]) {
      case Assign(r) => s' := AssignFrom(p, s, r, v);
      case Call(target) => s' := CallFrom(p, s, target);
      case Return => s' := ReturnFrom(p, s);
      case _ => s' := GoFrom(p, s, taken);
    }
  }

  lemma TopAllowed(p: Program, a: Activation)
    requires ProgramOk(p) && ActivationOk(p, a, true)
    ensures a.site in a.func.code && InstrOk(p, a.func, a.site) && Allowed(InstrOf(a), SlotsOf(a))
  {
    hide ProgramOk, Get, Allowed;
    InstrIsOk(p, a);
  }

  lemma AssignFrom(p: Program, s: State, r: Reg, v: Word) returns (s': State)
    requires HasRoom(s) && InstrOf(s.stack[0]) == Assign(r)
    ensures Step(p, s, s') && (r != SP && r != RA ==> Get(s'.stack[0].ctx, r) == v) && |s'.stack| == |s.stack|
  {
    hide SlotsOf;
    var a := s.stack[0];
    var next := a.site + a.func.code[a.site].size;
    var ctx' := Moved(Set(a.ctx, r, v), Get(a.ctx, SP), next);
    AssignedAgain(a.ctx, r, v, Get(a.ctx, SP), next);
    s' := State(s.memory, [Activation(a.func, next, ctx')] + s.stack[1..], s.root);
  }

  lemma AssignedAgain(ctx: Context, r: Reg, v: Word, sp: Word, pc: Word)
    ensures var ctx' := Moved(Set(ctx, r, v), sp, pc);
            ctx' == Moved(Set(ctx, r, Get(ctx', r)), sp, pc) && (r != SP && r != RA ==> Get(ctx', r) == v)
  {
    hide Get, Set;
    var ctx' := Moved(Set(ctx, r, v), sp, pc);
    SameRegisters(ctx', Moved(Set(ctx, r, Get(ctx', r)), sp, pc));
  }

  lemma CallFrom(p: Program, s: State, target: Word) returns (s': State)
    requires HasRoom(s) && InstrOf(s.stack[0]) == Call(target) && InstrOk(p, s.stack[0].func, s.stack[0].site)
    ensures Step(p, s, s') && |s'.stack| == |s.stack| + 1
  {
    hide Get, Set, Moved, SlotsOf;
    var a := s.stack[0];
    var next, sp := a.site + a.func.code[a.site].size, Get(a.ctx, SP);
    var g :| g in p && g.start == target && g.start in g.code && g.start in g.layout && g.layout[g.start] == [];
    s' := State(s.memory[sp - 8 := next],
                [Activation(g, target, Moved(a.ctx, sp - 8, target)), Activation(a.func, a.site, Set(a.ctx, RA, next))]
                  + s.stack[1..], s.root);
  }

  lemma ReturnFrom(p: Program, s: State) returns (s': State)
    requires Inv(p, s) && HasRoom(s) && InstrOf(s.stack[0]).Return? && Allowed(Return, SlotsOf(s.stack[0]))
    requires |s.stack| > 1 && s.stack[1].site in s.stack[1].func.code
    requires s.stack[1].site + s.stack[1].func.code[s.stack[1].site].size in s.stack[1].func.code
    ensures Step(p, s, s') && |s'.stack| == |s.stack| - 1
  {
    hide Get, Set, Moved, SlotsOf, Inv;
    ReturnSite(p, s);
    var sp := Get(s.stack[0].ctx, SP);
    var pc := Load(s.memory, sp);
    s' := State(s.memory, [Activation(s.stack[1].func, pc, Moved(s.stack[0].ctx, sp + 8, pc))] + s.stack[2..], s.root);
  }

  lemma ReturnSite(p: Program, s: State)
    requires Inv(p, s) && |s.stack| > 1 && SlotsOf(s.stack[0]) == []
    ensures s.stack[1].site in s.stack[1].func.code
    ensures Load(s.memory, Get(s.stack[0].ctx, SP)) == s.stack[1].site + s.stack[1].func.code[s.stack[1].site].size
  {
    hide Get, SlotsOf, Inv, FrameOk;
    StackOk(p, s, 0);
    StackOk(p, s, 1);
    ReturnReachesCaller(s.memory, s.stack[0].ctx, s.stack[1].ctx);
  }

  lemma GoFrom(p: Program, s: State, taken: bool) returns (s': State)
    requires HasRoom(s) && !InstrOf(s.stack[0]).Assign? && !InstrOf(s.stack[0]).Call? && !InstrOf(s.stack[0]).Return?
    requires Allowed(InstrOf(s.stack[0]), SlotsOf(s.stack[0]))
    ensures Step(p, s, s') && |s'.stack| == |s.stack|
    ensures InstrOf(s.stack[0]).Branch? && taken ==> s'.stack[0].site == InstrOf(s.stack[0]).target
  {
    hide Get, Set, Moved, SlotsOf;
    var a, rest, m := s.stack[0], s.stack[1..], s.memory;
    var f, ctx, sp, n := a.func, a.ctx, Get(a.ctx, SP), |SlotsOf(a)|;
    var next: Word := a.site + a.func.code[a.site].size;
    match InstrOf(a)
    case Save(r) =>
      s' := State(m[sp - 8 := Get(ctx, r)], [Activation(f, next, Moved(ctx, sp - 8, next))] + rest, s.root);
    case Spill(r) =>
      s' := State(m[sp - 8 := Get(ctx, r)], [Activation(f, next, Moved(ctx, sp - 8, next))] + rest, s.root);
    case Restore(r) =>
      s' := State(m, [Activation(f, next, Moved(Set(ctx, r, Load(m, sp)), sp + 8, next))] + rest, s.root);
    case Discard => s' := State(m, [Activation(f, next, Moved(ctx, sp + 8, next))] + rest, s.root);
    case StoreLocal(k, r) =>
      s' := State(m[sp + 8 * (n - 1 - k) := Get(ctx, r)], [Activation(f, next, Moved(ctx, sp, next))] + rest, s.root);
    case Jump(t) => s' := State(m, [Activation(f, t, Moved(ctx, sp, t))] + rest, s.root);
    case Branch(t) =>
      var to := if taken then t else next;
      s' := State(m, [Activation(f, to, Moved(ctx, sp, to))] + rest, s.root);
  }

  // ----- Programs and runs exist -----

  /** A function that saves a register and calls itself. */
  const RECURSIVE: Function := Function(0x1000, 4,
    map[0x1000 := Sized(Save(3), 1), 0x1001 := Sized(Call(0x1000), 1),
        0x1002 := Sized(Restore(3), 1), 0x1003 := Sized(Return, 1)],
    map[0x1000 := [], 0x1001 := [Saved(3)], 0x1002 := [Saved(3)], 0x1003 := []],
    None, None, None, None)

  lemma RecursiveInstrOk(a: Word)
    requires a in RECURSIVE.code
    ensures InstrOk([RECURSIVE], RECURSIVE, a)
  {
    assert RECURSIVE in [RECURSIVE];
  }

  lemma RecursiveOk()
    ensures ProgramOk([RECURSIVE])
  {
    hide InstrOk;
    forall a | a in RECURSIVE.code { RecursiveInstrOk(a); }
  }

  /** There are programs that the layouts describe, with runs that reach states with suspended activations. */
  lemma NestedCallRuns(ctx: Context) returns (p: Program, states: seq<State>)
    requires Get(ctx, SP) == 0x8000 && Get(ctx, RA) == 0x1000
    ensures ProgramOk(p) && IsRun(p, states)
    ensures |states[|states| - 1].stack| == 2
  {
    hide ProgramOk, InstrOk, Get, Moved;
    RecursiveOk();
    p := [RECURSIVE];
    var root := Moved(ctx, 0x8008, 0);
    MovedTo(ctx, 0x8008, 0);
    var s0 := State(map[], [Activation(RECURSIVE, 0x1000, ctx)], root);
    var ctx1 := Moved(ctx, 0x7ff8, 0x1001);
    MovedTo(ctx, 0x7ff8, 0x1001);
    var s1 := State(map[0x7ff8 := Get(ctx, 3)], [Activation(RECURSIVE, 0x1001, ctx1)], root);
    var ctx2 := Moved(ctx1, 0x7ff0, 0x1000);
    var s2 := State(s1.memory[0x7ff0 := 0x1002],
                    [Activation(RECURSIVE, 0x1000, ctx2), Activation(RECURSIVE, 0x1001, Set(ctx1, RA, 0x1002))], root);
    assert Init(p, s0);
    assert Step(p, s0, s1);
    assert Step(p, s1, s2);
    states := [s0, s1, s2];
  }
}
