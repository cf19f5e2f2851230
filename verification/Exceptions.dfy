/**
 Exceptions in the machine of `CallStack`: the unwinder is entered from a call, leaves into a landing
 pad, and the pad runs on in memory like any other code until it calls the unwinder again. What
 `Resumption` asks of a resume is what the call stack's invariant gives.
 */
module Exceptions {
  import opened Words
  import opened Wrappers
  import opened Contexts
  import opened Lsda
  import opened Frames
  import opened Walks
  import opened Abi
  import opened Personality
  import opened Raise
  import opened TwoPhase
  import opened Resumption
  import opened CallStack

  /** A program, its read-only words, and what its unwinding expressions evaluate to. */
  datatype System = System(program: Program, rodata: Memory, evaluate: (Expr, Memory, Context) -> Option<Word>)

  /** What the unwinder reads in a state with this memory. */
  ghost function EnvWith(sys: System, memory: Memory): (env: Env)
    ensures env.memory == memory
  {
    EnvOf(sys.program, memory, sys.evaluate)
  }

  ghost predicate SystemOk(sys: System) {
    ProgramOk(sys.program) && PadsOk(sys)
  }

  // ----- Read-only data and landing pads -----

  /** Memory holds the program's read-only words. */
  ghost predicate ReadOnly(rodata: Memory, memory: Memory) {
    SameWords(rodata, memory, rodata.Keys)
  }

  /**
   The LSDA read at the return address `ip` loads read-only words only, and a landing pad it names
   has the layout of the call.
   */
  ghost predicate PadOk(rodata: Memory, f: Function, layout: Layout, ip: Word) {
    && SiteReads(rodata, FdeOf(f), ip, false) <= rodata.Keys
    && match PadAt(rodata, f, ip)
       case None => true
       case Some(lpad) => lpad in f.code && lpad in f.layout && f.layout[lpad] == layout
  }

  /** The landing pad of function `f` at the return address `ip`. */
  ghost function PadAt(memory: Memory, f: Function, ip: Word): Option<Word> {
    if f.personality == None then None else ActionPad(SiteAction(memory, FdeOf(f), ip, false))
  }

  ghost predicate PadsOk(sys: System) {
    forall a: Activation | ActivationOk(sys.program, a, false) :: PadOk(sys.rodata, a.func, SlotsOf(a), Get(a.ctx, RA))
  }

  // ----- Landing -----

  /**
   The unwinder, entered from activation `start` with `ctx` as the saved context, installs a context:
   the activations inside the one it lands in are gone, and `restore_context` has left the address
   it returned to below the new stack pointer.
   */
  ghost predicate Lands(sys: System, exception: Word, key: Word, s: State, s': State,
                        start: nat, ctx: Context, w: Walk)
  {
    && Enters(sys, s, start, ctx, w)
    && match CleanupOutcome(Rust(EnvWith(sys, s.memory), exception), w.visits, key)
       case Fails(_) => false
       case Installs(k, ctx') =>
         start + k < |s.stack| && 8 <= Get(ctx', SP) &&
         s' == State(s.memory[Get(ctx', SP) - 8 := Get(ctx', RA)],
                     [Activation(s.stack[start + k].func, Get(ctx', RA), ctx')] + s.stack[start + k + 1..], s.root)
  }

  /** The context saved is that of a suspended activation, and `w` is the walk from it. */
  ghost predicate Enters(sys: System, s: State, start: nat, ctx: Context, w: Walk) {
    && 1 <= start < |s.stack| && Agree(KEPT, ctx, s.stack[start].ctx)
    && IsWalk(EnvWith(sys, s.memory), Point(ctx, false), w)
  }

  /** One step of the machine or one landing; a write to read-only memory is neither. */
  ghost predicate Moves(sys: System, s: State, s': State) {
    && (|| Step(sys.program, s, s')
        || exists exception, key, start, ctx, w :: Lands(sys, exception, key, s, s', start, ctx, w))
    && (ReadOnly(sys.rodata, s.memory) ==> ReadOnly(sys.rodata, s'.memory))
  }

  ghost predicate IsMachineRun(sys: System, states: seq<State>) {
    && states != [] && Init(sys.program, states[0]) && ReadOnly(sys.rodata, states[0].memory)
    && forall i, j | 0 <= i && j == i + 1 && j < |states| :: Moves(sys, states[i], states[j])
  }

  /** The walk from a suspended activation sees the call stack. */
  lemma EntersInverts(sys: System, s: State, start: nat, ctx: Context, w: Walk)
    requires SystemOk(sys) && Inv(sys.program, s) && Enters(sys, s, start, ctx, w)
    ensures 1 <= start < |s.stack| && Inverts(s.stack, start, w)
  {
    hide ProgramOk, PadsOk, Inv, IsPath, Inverts, Agree;
    var w' := WalkFrom(sys.program, s, EnvWith(sys, s.memory), start, ctx);
    WalkUnique(EnvWith(sys, s.memory), Point(ctx, false), w, w');
  }

  lemma InvertsAt(stack: seq<Activation>, i: nat, w: Walk, j: nat)
    requires Inverts(stack, i, w) && j < |w.visits|
    ensures i + |w.visits| == |stack|
    ensures w.visits[j].frame == FrameOf(stack[i + j]) && Agree(KEPT, w.visits[j].at.ctx, stack[i + j].ctx)
    ensures i > 0 ==> !w.visits[j].at.signal
  {
    hide Agree, FrameOf;
  }

  /** What the LSDA says of a suspended activation's frame does not depend on memory that can change. */
  lemma SuspendedAction(sys: System, env: Env, a: Activation, v: Visit)
    requires SystemOk(sys) && ActivationOk(sys.program, a, false) && ReadOnly(sys.rodata, env.memory)
    requires v.frame == FrameOf(a) && Get(v.at.ctx, RA) == Get(a.ctx, RA) && !v.at.signal
    ensures VisitAction(env, v) == SiteAction(sys.rodata, FdeOf(a.func), Get(a.ctx, RA), false)
    ensures SiteReads(env.memory, v.frame.fde, Get(v.at.ctx, RA), false) <= sys.rodata.Keys
    ensures PadOf(env, v) == PadAt(sys.rodata, a.func, Get(a.ctx, RA))
    ensures PadOk(sys.rodata, a.func, SlotsOf(a), Get(a.ctx, RA))
  {
    hide ActivationOk, SiteAction, SiteReads, Get, SlotsOf, RowOf, ActionPad;
    assert PadOk(sys.rodata, a.func, SlotsOf(a), Get(a.ctx, RA));
    SameSite(sys.rodata, env.memory, FdeOf(a.func), Get(a.ctx, RA), false);
  }

  lemma PadRegisters(env: Env, exception: Word, v: Visit, ctx: Context, kept: Context, slots: Layout)
    requires EntersPad(env, exception, v, ctx) && Agree(KEPT, v.at.ctx, kept) && v.frame.row == RowOf(slots)
    ensures Get(ctx, SP) == Get(kept, SP) && PadOf(env, v) == Some(Get(ctx, RA))
    ensures forall r | r in PRESERVED :: Get(ctx, r) == Get(kept, r)
    ensures forall x: Word | Get(kept, SP) <= x && 8 <= Get(kept, SP) ::
              Load(env.memory[Get(ctx, SP) - 8 := Get(ctx, RA)], x) == Load(env.memory, x)
  {
    hide PadOf, Get, SlotRules;
  }

  lemma PadTop(sys: System, a: Activation, ctx: Context)
    requires ActivationOk(sys.program, a, false) && PadOk(sys.rodata, a.func, SlotsOf(a), Get(a.ctx, RA))
    requires PadAt(sys.rodata, a.func, Get(a.ctx, RA)) == Some(Get(ctx, RA))
    ensures var top := Activation(a.func, Get(ctx, RA), ctx);
            ActivationOk(sys.program, top, true) && SlotsOf(top) == SlotsOf(a)
  {
    hide PadAt, Get, SiteReads;
  }

  /** A landing writes the word below the new stack pointer, the address returned to, and no other. */
  lemma LandingWrites(sys: System, exception: Word, key: Word, s: State, s': State, start: nat, ctx: Context, w: Walk)
    requires Lands(sys, exception, key, s, s', start, ctx, w)
    ensures s'.stack != [] && 8 <= Get(s'.stack[0].ctx, SP) && s'.root == s.root
    ensures var top := s'.stack[0];
            && Load(s'.memory, Get(top.ctx, SP) - 8) == top.site == Get(top.ctx, RA)
            && forall a: Word | a != Get(top.ctx, SP) - 8 :: Load(s'.memory, a) == Load(s.memory, a)
  {
    hide Enters, CleanupOutcome, Rust, EnvWith, Get;
  }

  /** The activation that a landing leaves on top: in the same frame, at the pad. */
  lemma LandingFrame(sys: System, env: Env, exception: Word, a: Activation, v: Visit, ctx: Context, caller: Context)
    requires SystemOk(sys) && ReadOnly(sys.rodata, env.memory)
    requires ActivationOk(sys.program, a, false) && FrameOk(env.memory, a.ctx, SlotsOf(a), caller)
    requires v.frame == FrameOf(a) && Agree(KEPT, v.at.ctx, a.ctx) && !v.at.signal
    requires EntersPad(env, exception, v, ctx) && 8 <= Get(ctx, SP)
    ensures Get(ctx, SP) == Get(a.ctx, SP)
    ensures var top := Activation(a.func, Get(ctx, RA), ctx);
            && ActivationOk(sys.program, top, true)
            && FrameOk(env.memory[Get(ctx, SP) - 8 := Get(ctx, RA)], ctx, SlotsOf(top), caller)
  {
    hide *;
    SameRa(v.at.ctx, a.ctx);
    SuspendedAction(sys, env, a, v);
    FrameIs(a);
    PadRegisters(env, exception, v, ctx, a.ctx, SlotsOf(a));
    PadTop(sys, a, ctx);
    FrameUnchanged(env.memory, env.memory[Get(ctx, SP) - 8 := Get(ctx, RA)], a.ctx, ctx, SlotsOf(a), caller);
  }

  lemma LandKeepsInv(sys: System, exception: Word, key: Word, s: State,
                     s': State, start: nat, ctx: Context, w: Walk)
    requires SystemOk(sys) && ReadOnly(sys.rodata, s.memory)
    requires Inv(sys.program, s) && Lands(sys, exception, key, s, s', start, ctx, w)
    ensures Inv(sys.program, s')
  {
    hide SystemOk, ReadOnly, ActivationOk, FrameOk, FramesOk, EntersPad, CleanupOutcome, Agree, FrameOf, Get, SlotsOf,
         Enters, Inverts, FdesOf, Rust, FirstStop, Cleaning;
    var env := EnvWith(sys, s.memory);
    EntersInverts(sys, s, start, ctx, w);
    InstallsEnters(env, exception, key, w.visits);
    var Installs(k, ctx') := CleanupOutcome(Rust(env, exception), w.visits, key);
    InvertsAt(s.stack, start, w, k);
    var n := start + k;
    var a, rest := s.stack[n], s.stack[n..];
    CallersOk(sys.program, s.memory, s.stack, s.root, n);
    LandingFrame(sys, env, exception, a, w.visits[k], ctx', CallerOf(rest, s.root, 0));
    var x := Get(ctx', SP) - 8;
    FrameGrows(s.memory, a.ctx, SlotsOf(a), CallerOf(rest, s.root, 0));
    CallersUnchanged(sys.program, s.memory, rest, s.root, x, Get(ctx', RA));
    ReplaceTop(sys.program, s'.memory, rest, s.root, s'.stack[0]);
    assert s'.stack == [s'.stack[0]] + rest[1..];
  }

  /** No step and no landing disturbs a frame that is still on the stack. */
  lemma MoveKeepsInv(sys: System, s: State, s': State)
    requires SystemOk(sys) && ReadOnly(sys.rodata, s.memory)
    requires Inv(sys.program, s) && Moves(sys, s, s')
    ensures Inv(sys.program, s') && ReadOnly(sys.rodata, s'.memory)
  {
    hide ProgramOk, PadsOk, ReadOnly, Inv, Step, Lands;
    if Step(sys.program, s, s') {
      StepKeepsInv(sys.program, s, s');
    } else {
      var exception, key, start, ctx, w :| Lands(sys, exception, key, s, s', start, ctx, w);
      LandKeepsInv(sys, exception, key, s, s', start, ctx, w);
    }
  }

  /** Every state reached by steps and landings has good frames. */
  lemma {:induction false} ReachableInv(sys: System, states: seq<State>, i: nat)
    requires SystemOk(sys) && IsMachineRun(sys, states) && i < |states|
    ensures Inv(sys.program, states[i]) && ReadOnly(sys.rodata, states[i].memory)
    decreases i
  {
    hide SystemOk, ReadOnly, Moves, Inv, Init;
    if i == 0 {
      InitInv(sys.program, states[0]);
    } else {
      ReachableInv(sys, states, i - 1);
      MoveKeepsInv(sys, states[i - 1], states[i]);
    }
  }

  /** In every such state too, the walk from any activation is the call stack from there outwards. */
  lemma UnwindingInvertsReached(sys: System, states: seq<State>, n: nat, i: nat) returns (w: Walk)
    requires SystemOk(sys) && IsMachineRun(sys, states) && n < |states| && i < |states[n].stack|
    ensures IsWalk(EnvWith(sys, states[n].memory), Point(states[n].stack[i].ctx, i == 0), w)
    ensures Inverts(states[n].stack, i, w) && StepsOutward(w)
  {
    hide ProgramOk, PadsOk, IsMachineRun, IsPath, FrameOf, Inv, StepsOutward, ReadOnly;
    var s := states[n];
    ReachableInv(sys, states, n);
    w := WalkFrom(sys.program, s, EnvWith(sys, s.memory), i, s.stack[i].ctx);
    InvertingWalkOutward(sys.program, s, i, w);
  }

  // ----- What a landing pad leaves alone -----

  /** The `n` outermost activations. */
  function Outermost(stack: seq<Activation>, n: nat): seq<Activation>
    requires n <= |stack|
  {
    stack[|stack| - n..]
  }

  /** While more than `n` activations are left, the `n` outermost stay, and the next one stays in its function. */
  ghost predicate KeepsOuter(s: State, s': State, n: nat) {
    && n < |s.stack| && n < |s'.stack|
    && Outermost(s'.stack, n) == Outermost(s.stack, n)
    && s'.stack[|s'.stack| - n - 1].func == s.stack[|s.stack| - n - 1].func
    && s'.root == s.root
  }

  lemma TopReplaced(s: State, s': State, i: nat, n: nat, top: Activation)
    requires i < |s.stack| && s'.stack == [top] + s.stack[i + 1..] && top.func == s.stack[i].func && s'.root == s.root
    requires n < |s'.stack|
    ensures KeepsOuter(s, s', n)
  {
    var d := |s.stack| - |s'.stack|;
    assert d == i;
    assert forall j | 1 <= j < |s'.stack| :: s'.stack[j] == s.stack[j + i];
  }

  lemma StepKeepsOuter(sys: System, s: State, s': State, n: nat)
    requires Step(sys.program, s, s') && n < |s.stack| && n < |s'.stack|
    ensures KeepsOuter(s, s', n)
  {
    hide Step, KeepsOuter;
    var a := s.stack[0];
    StepShape(sys, s, s');
    match InstrOf(a) {
      case Call(_) => Pushed(s, s', n);
      case Return => TopReplaced(s, s', 1, n, s'.stack[0]);
      case _ => TopReplaced(s, s', 0, n, s'.stack[0]);
    }
  }

  lemma Pushed(s: State, s': State, n: nat)
    requires s.stack != [] && |s'.stack| == |s.stack| + 1
    requires s'.stack[2..] == s.stack[1..] && s'.stack[1].func == s.stack[0].func
    requires s'.root == s.root && n < |s.stack|
    ensures KeepsOuter(s, s', n)
  {
    assert forall j | 2 <= j < |s'.stack| ::
             s'.stack[j] == s'.stack[2..][j - 2] == s.stack[1..][j - 2] == s.stack[j - 1];
  }

  /** What a step does to the stack of activations. */
  lemma StepShape(sys: System, s: State, s': State)
    requires Step(sys.program, s, s')
    ensures s.stack != [] && s.stack[0].site in s.stack[0].func.code && s'.stack != [] && s'.root == s.root
    ensures match InstrOf(s.stack[0])
            case Call(_) => |s'.stack| == |s.stack| + 1 && s'.stack[2..] == s.stack[1..]
              && s'.stack[1].func == s.stack[0].func
            case Return => |s.stack| > 1 && s'.stack == [s'.stack[0]] + s.stack[2..]
              && s'.stack[0].func == s.stack[1].func
            case _ => s'.stack == [s'.stack[0]] + s.stack[1..] && s'.stack[0].func == s.stack[0].func
  {
    hide Get, Set, Moved, SlotsOf;
  }

  lemma MoveKeepsOuter(sys: System, s: State, s': State, n: nat)
    requires Moves(sys, s, s') && n < |s.stack| && n < |s'.stack|
    ensures KeepsOuter(s, s', n)
  {
    hide Step, ReadOnly, KeepsOuter, CleanupOutcome, Enters;
    if Step(sys.program, s, s') {
      StepKeepsOuter(sys, s, s', n);
    } else {
      var exception, key, start, ctx, w :| Lands(sys, exception, key, s, s', start, ctx, w);
      var k := CleanupOutcome(Rust(EnvWith(sys, s.memory), exception), w.visits, key).index;
      TopReplaced(s, s', start + k, n, s'.stack[0]);
    }
  }

  /** More than `n` activations in every state from `i` to `j`. */
  ghost predicate StaysAbove(states: seq<State>, i: nat, j: nat, n: nat) {
    j < |states| && forall m | i <= m <= j :: n < |states[m].stack|
  }

  lemma {:induction false} RunKeepsOuter(sys: System, states: seq<State>,
                                         i: nat, j: nat, n: nat)
    requires IsMachineRun(sys, states) && i <= j && StaysAbove(states, i, j, n)
    ensures KeepsOuter(states[i], states[j], n)
    decreases j
  {
    hide Moves, Init, ReadOnly;
    if i < j {
      RunKeepsOuter(sys, states, i, j - 1, n);
      MoveKeepsOuter(sys, states[j - 1], states[j], n);
    }
  }

  // ----- An exception's way through a run -----

  /** The unwinder is entered in state `at` of a run, from activation `start`, with `ctx` saved. */
  datatype Entered = Entered(at: nat, start: nat, ctx: Context)

  /** `stage` is what the unwinder sees from there. */
  ghost predicate Sees(sys: System, states: seq<State>, e: Entered, stage: Stage) {
    && e.at < |states| && stage.memory == states[e.at].memory && stage.start == Point(e.ctx, false)
    && Enters(sys, states[e.at], e.start, e.ctx, stage.walk)
  }

  /** From every suspended activation there is a walk to see. */
  lemma EntrySees(sys: System, states: seq<State>, e: Entered, entry: nat)
    returns (stage: Stage)
    requires SystemOk(sys) && IsMachineRun(sys, states)
    requires e.at < |states| && 1 <= e.start < |states[e.at].stack|
             && Agree(KEPT, e.ctx, states[e.at].stack[e.start].ctx)
    ensures stage.entry == entry && Sees(sys, states, e, stage)
  {
    hide ProgramOk, PadsOk, IsMachineRun, Inv, IsPath, Inverts, Agree, ReadOnly;
    var s := states[e.at];
    ReachableInv(sys, states, e.at);
    var w := WalkFrom(sys.program, s, EnvWith(sys, s.memory), e.start, e.ctx);
    stage := Stage(s.memory, Point(e.ctx, false), w, entry);
  }

  /** A suspended activation's call has no landing pad: nothing is to be done there. */
  ghost predicate QuietSite(rodata: Memory, a: Activation) {
    a.func.personality == None || SiteAction(rodata, FdeOf(a.func), Get(a.ctx, RA), false) == Done(NoAction)
  }

  ghost function Base(sys: System): Env {
    EnvWith(sys, map[])
  }

  /**
   From entry `e`, whose stage is `s`, the unwinder lands in a cleanup, and entry `e'` is the resume
   that ends it. Between them the machine runs on as it likes, but for leaving the cleanup's frame;
   at `e'` that frame has called into the unwinder, and neither it nor the unwinder's own frames has
   a landing pad there. `next` is the stage of `e'`.
   */
  ghost predicate Resumes(sys: System, exception: Word, key: Word, states: seq<State>,
                          e: Entered, s: Stage, e': Entered, next: Stage)
  {
    && e.at < e'.at < |states| && 1 <= e'.start
    && Lands(sys, exception, key, states[e.at], states[e.at + 1], e.start, e.ctx, s.walk)
    && InCleanup(Base(sys), exception, key, s)
    && var outer := |states[e.at + 1].stack| - 1;
       && 0 <= outer && StaysAbove(states, e.at + 1, e'.at, outer)
       && e'.start + next.entry + outer == |states[e'.at].stack| && 2 <= next.entry
       && forall i | e'.start <= i < e'.start + next.entry :: QuietSite(sys.rodata, states[e'.at].stack[i])
  }

  /** An exception raised at the first entry and resumed at each of the others. */
  ghost predicate IsThrow(sys: System, exception: Word, key: Word, states: seq<State>,
                          entries: seq<Entered>, stages: seq<Stage>)
  {
    && entries != [] && |stages| == |entries| && stages[0].entry == 0
    && (forall t | 0 <= t < |entries| :: Sees(sys, states, entries[t], stages[t]))
    && (forall t, u | 0 <= t && u == t + 1 && u < |entries| ::
          Resumes(sys, exception, key, states, entries[t], stages[t], entries[u], stages[u]))
  }

  lemma SeesInverts(sys: System, states: seq<State>, e: Entered, stage: Stage)
    requires SystemOk(sys) && IsMachineRun(sys, states)
    requires Sees(sys, states, e, stage)
    ensures e.at < |states| && 1 <= e.start < |states[e.at].stack| && Inverts(states[e.at].stack, e.start, stage.walk)
    ensures e.start + |stage.walk.visits| == |states[e.at].stack|
    ensures Inv(sys.program, states[e.at]) && ReadOnly(sys.rodata, states[e.at].memory)
    ensures In(Base(sys), stage) == EnvWith(sys, states[e.at].memory)
    ensures IsWalk(In(Base(sys), stage), stage.start, stage.walk) && !stage.start.signal
  {
    hide SystemOk, IsMachineRun, Inv, IsPath, Inverts, Agree, ReadOnly;
    ReachableInv(sys, states, e.at);
    EntersInverts(sys, states[e.at], e.start, e.ctx, stage.walk);
    InvertsLength(states[e.at].stack, e.start, stage.walk);
  }

  lemma InvertsLength(stack: seq<Activation>, i: nat, w: Walk)
    requires Inverts(stack, i, w)
    ensures i + |w.visits| == |stack|
  {
    hide Agree, FrameOf;
  }

  /** The rows of a program recover kept registers from SP alone. */
  lemma ProgramPreserves(sys: System)
    ensures Preserves(Base(sys), KEPT)
  {
    hide RowOf;
    forall fde, pc | fde in FdesOf(sys.program) && pc in fde.rows ensures LocalRow(KEPT, fde.rows[pc]) {
      var i :| 0 <= i < |sys.program| && fde == FdeOf(sys.program[i]);
      SlotRowLocal(sys.program[i].layout[pc]);
    }
  }

  lemma SlotRowLocal(slots: Layout)
    ensures LocalRow(KEPT, RowOf(slots))
  {
    hide SlotRules;
    RulesAreOffsets(slots);
  }

  lemma RulesAreOffsets(slots: Layout)
    ensures forall i | 0 <= i < |RowOf(slots).rules| :: RowOf(slots).rules[i].1.Offset?
  {
    hide SlotRules;
    SlotRulesAre(slots, |slots|);
    var rules := RowOf(slots).rules;
    forall i | 0 <= i < |rules| ensures rules[i].1.Offset? {
      if i > 0 { assert rules[i] in rules[1..]; }
    }
  }

  /** Two memories in which a frame leads back to the same caller agree on the words its row reads. */
  lemma FrameReads(env: Env, m: Memory, ctx: Context, slots: Layout, caller: Context, c: Context)
    requires FrameOk(env.memory, ctx, slots, caller) && FrameOk(m, ctx, slots, caller)
    requires Get(c, SP) == Get(ctx, SP)
    ensures SameRowReads(env, m, KEPT, RowOf(slots), c)
  {
    hide SlotRules, Get, RegistersHeld;
    SlotRulesAre(slots, |slots|);
    var rules, cfa := RowOf(slots).rules, Get(caller, SP);
    assert Cfa(env, RowOf(slots), c) == Some(cfa);
    forall i | 0 <= i < |rules| ensures SameRuleReads(env, m, KEPT, c, cfa, rules[i].0, rules[i].1) {
      if i == 0 {
        assert WrappingAdd(cfa, AsWord(-8)) == cfa - 8;
      } else {
        assert rules[i] in rules[1..];
        var j :| 0 <= j < |slots| && slots[j] == Saved(rules[i].0) && rules[i].1 == Offset(-16 - 8 * j);
        assert WrappingAdd(cfa, AsWord(-16 - 8 * j)) == cfa - 16 - 8 * j;
      }
    }
  }

  /** What a landing leaves of the stack: the activation landed in, at its pad, and those outside it. */
  lemma LandShape(sys: System, exception: Word, key: Word, states: seq<State>,
                  e: Entered, s: Stage)
    requires Sees(sys, states, e, s) && e.at + 1 < |states|
    requires In(Base(sys), s) == EnvWith(sys, states[e.at].memory)
    requires Lands(sys, exception, key, states[e.at], states[e.at + 1], e.start, e.ctx, s.walk)
    ensures var n := e.start + Landing(Base(sys), exception, key, s);
            var stack, stack' := states[e.at].stack, states[e.at + 1].stack;
            && n < |stack| && stack' == [stack'[0]] + stack[n + 1..] && stack'[0].func == stack[n].func
            && states[e.at + 1].root == states[e.at].root
  {
    hide Enters, EntersPad, Rust, FirstStop, Cleaning, EnvOf, Get;
    InstallsEnters(EnvWith(sys, states[e.at].memory), exception, key, s.walk.visits);
  }

  /** The activation on top has the registers of the pad entered. */
  lemma LandEnters(sys: System, exception: Word, key: Word, states: seq<State>, e: Entered, s: Stage)
    requires Sees(sys, states, e, s) && e.at + 1 < |states| && states[e.at + 1].stack != []
    requires In(Base(sys), s) == EnvWith(sys, states[e.at].memory)
    requires Lands(sys, exception, key, states[e.at], states[e.at + 1], e.start, e.ctx, s.walk)
    ensures var k, top := Landing(Base(sys), exception, key, s), states[e.at + 1].stack[0];
            && k < |s.walk.visits| && top.site == Get(top.ctx, RA)
            && EntersPad(EnvWith(sys, states[e.at].memory), exception, s.walk.visits[k], top.ctx)
  {
    hide Enters, EntersPad, Rust, FirstStop, Cleaning, EnvOf, Get;
    InstallsEnters(EnvWith(sys, states[e.at].memory), exception, key, s.walk.visits);
  }

  /** The frames outside the cleanup's are the same at the resume, and so is the cleanup's function. */
  lemma OuterKept(sys: System, exception: Word, key: Word, states: seq<State>,
                  e: Entered, s: Stage, e': Entered, next: Stage)
    requires IsMachineRun(sys, states) && Sees(sys, states, e, s)
    requires In(Base(sys), s) == EnvWith(sys, states[e.at].memory)
    requires Resumes(sys, exception, key, states, e, s, e', next)
    ensures var n, m := e.start + Landing(Base(sys), exception, key, s), e'.start + next.entry;
            var stack, stack' := states[e.at].stack, states[e'.at].stack;
            && n < |stack| && 2 <= next.entry && m <= |stack'| && 1 <= e'.start
            && stack'[m..] == stack[n + 1..] && stack'[m - 1].func == stack[n].func
            && states[e'.at].root == states[e.at].root
  {
    hide Sees, IsMachineRun, Lands, Landing, InCleanup, QuietSite, EnvOf;
    LandShape(sys, exception, key, states, e, s);
    var outer := |states[e.at + 1].stack| - 1;
    RunKeepsOuter(sys, states, e.at + 1, e'.at, outer);
  }

  /** A suspended activation that two states share is unwound from the same words, and its LSDA read from the same. */
  lemma SharedReads(sys: System, s: State, i: nat, s': State, j: nat, v: Visit)
    requires SystemOk(sys) && Inv(sys.program, s) && Inv(sys.program, s')
    requires ReadOnly(sys.rodata, s.memory) && ReadOnly(sys.rodata, s'.memory) && s.root == s'.root
    requires 1 <= i < |s.stack| && 1 <= j < |s'.stack| && s.stack[i..] == s'.stack[j..]
    requires v.frame == FrameOf(s.stack[i]) && Agree(KEPT, v.at.ctx, s.stack[i].ctx) && !v.at.signal
    ensures SameReads(EnvWith(sys, s.memory), s'.memory, KEPT, v)
  {
    hide SystemOk, Inv, SameRowReads, SiteReads, Agree, FrameOk, ActivationOk, FdeOf, RowOf, SlotsOf, Get,
         VisitAction, PadOf;
    var a := s.stack[i];
    assert s'.stack[j] == s'.stack[j..][0] == s.stack[i..][0] == a;
    StackOk(sys.program, s, i);
    StackOk(sys.program, s', j);
    assert ContextAt(s.stack, s.root, i + 1) == ContextAt(s'.stack, s'.root, j + 1) by {
      if i + 1 < |s.stack| { assert s'.stack[j + 1] == s'.stack[j..][1] == s.stack[i..][1] == s.stack[i + 1]; }
    }
    var env := EnvWith(sys, s.memory);
    SameSp(v.at.ctx, a.ctx);
    SameRa(v.at.ctx, a.ctx);
    FrameIs(a);
    FrameReads(env, s'.memory, a.ctx, SlotsOf(a), ContextAt(s.stack, s.root, i + 1), v.at.ctx);
    SuspendedAction(sys, env, a, v);
  }

  lemma QuietVisit(sys: System, env: Env, s: State, i: nat, v: Visit)
    requires SystemOk(sys) && Inv(sys.program, s) && ReadOnly(sys.rodata, s.memory) && env.memory == s.memory
    requires 1 <= i < |s.stack| && QuietSite(sys.rodata, s.stack[i])
    requires v.frame == FrameOf(s.stack[i]) && Agree(KEPT, v.at.ctx, s.stack[i].ctx) && !v.at.signal
    ensures Quiet(env, v)
  {
    hide SystemOk, Inv, SiteReads, SiteAction, Agree, FrameOk, ActivationOk, RowOf, SlotsOf, Get, PadOf, ReadOnly;
    StackOk(sys.program, s, i);
    SameRa(v.at.ctx, s.stack[i].ctx);
    SuspendedAction(sys, env, s.stack[i], v);
  }

  /**
   What `Resumption` asks of a resume follows from the machine: it has rejoined the walk, and reads the
   same words.
   */
  lemma ResumeFollows(sys: System, exception: Word, key: Word, states: seq<State>,
                      e: Entered, s: Stage, e': Entered, next: Stage)
    requires SystemOk(sys) && IsMachineRun(sys, states)
    requires Sees(sys, states, e, s) && Sees(sys, states, e', next)
    requires Resumes(sys, exception, key, states, e, s, e', next)
    requires Landing(Base(sys), exception, key, s) + 1 < |s.walk.visits|
    ensures ResumedFrom(Base(sys), KEPT, exception, key, s, next)
  {
    hide *;
    var base := Base(sys);
    var k := Landing(base, exception, key, s);
    SeesInverts(sys, states, e, s);
    SeesInverts(sys, states, e', next);
    OuterKept(sys, exception, key, states, e, s, e', next);
    var a, b, n, m := states[e.at], states[e'.at], e.start + k, e'.start + next.entry;
    InvertsAt(a.stack, e.start, s.walk, k);
    assert |b.stack[m..]| == |a.stack[n + 1..]|;
    InvertsAt(b.stack, e'.start, next.walk, next.entry);
    InvertsAt(b.stack, e'.start, next.walk, next.entry - 1);
    InvertsAt(a.stack, e.start, s.walk, k + 1);
    assert b.stack[m] == b.stack[m..][0] == a.stack[n + 1..][0] == a.stack[n + 1];
    AgreeBoth(s.walk.visits[k + 1], next.walk.visits[next.entry], a.stack[n + 1].ctx);
    SameFunction(a.stack[n], b.stack[m - 1]);
    forall i | k < i < |s.walk.visits| ensures SameReads(In(base, s), next.memory, KEPT, s.walk.visits[i]) {
      InvertsAt(a.stack, e.start, s.walk, i);
      var d := i - k - 1;
      assert a.stack[n + 1..][d..] == a.stack[n + 1 + d..] && b.stack[m..][d..] == b.stack[m + d..];
      SeesMemory(sys, states, e', next);
      SharedReads(sys, a, e.start + i, b, m + d, s.walk.visits[i]);
    }
    forall j | 0 <= j < next.entry ensures Quiet(In(base, next), next.walk.visits[j]) {
      InvertsAt(b.stack, e'.start, next.walk, j);
      SeesMemory(sys, states, e', next);
      ResumesQuietly(sys, exception, key, states, e, s, e', next, e'.start + j);
      QuietVisit(sys, In(base, next), b, e'.start + j, next.walk.visits[j]);
    }
    ResumesInCleanup(sys, exception, key, states, e, s, e', next);
    ResumedFromParts(base, exception, key, s, next);
  }

  lemma AgreeBoth(v: Visit, v': Visit, c: Context)
    requires Agree(KEPT, v.at.ctx, c) && Agree(KEPT, v'.at.ctx, c) && !v.at.signal && !v'.at.signal
    ensures SamePoint(KEPT, v.at, v'.at)
  {
    hide Get;
  }

  lemma SameFunction(a: Activation, b: Activation)
    requires a.func == b.func
    ensures FrameOf(a).fde == FrameOf(b).fde
  {
    hide FdeOf;
  }

  lemma SeesMemory(sys: System, states: seq<State>, e: Entered, stage: Stage)
    requires Sees(sys, states, e, stage)
    ensures stage.memory == states[e.at].memory && In(Base(sys), stage).memory == stage.memory
  {
    hide Enters;
  }

  lemma ResumesQuietly(sys: System, exception: Word, key: Word, states: seq<State>,
                       e: Entered, s: Stage, e': Entered, next: Stage, i: nat)
    requires Resumes(sys, exception, key, states, e, s, e', next)
    requires e'.start <= i < e'.start + next.entry
    ensures i < |states[e'.at].stack| && QuietSite(sys.rodata, states[e'.at].stack[i])
  {
    hide Lands, InCleanup, QuietSite;
  }

  lemma ResumesInCleanup(sys: System, exception: Word, key: Word, states: seq<State>,
                         e: Entered, s: Stage, e': Entered, next: Stage)
    requires Resumes(sys, exception, key, states, e, s, e', next)
    ensures InCleanup(Base(sys), exception, key, s)
  {
    hide Lands, InCleanup, QuietSite;
  }

  lemma ResumedFromParts(env: Env, exception: Word, key: Word, s: Stage, next: Stage)
    requires var k := Landing(env, exception, key, s);
             && InCleanup(env, exception, key, s) && k + 1 < |s.walk.visits|
             && IsWalk(In(env, next), next.start, next.walk) && !next.start.signal
             && 2 <= next.entry < |next.walk.visits|
             && next.walk.visits[next.entry - 1].frame.fde == s.walk.visits[k].frame.fde
             && (forall j | 0 <= j < next.entry :: Quiet(In(env, next), next.walk.visits[j]))
             && SamePoint(KEPT, s.walk.visits[k + 1].at, next.walk.visits[next.entry].at)
             && (forall n | k < n < |s.walk.visits| :: SameReads(In(env, s), next.memory, KEPT, s.walk.visits[n]))
    ensures ResumedFrom(env, KEPT, exception, key, s, next)
  {
    hide IsWalk, Landing, InCleanup, Quiet, SamePoint, SameReads;
  }

  // ----- The whole exception -----

  lemma ThrowStep(sys: System, exception: Word, key: Word, states: seq<State>,
                  entries: seq<Entered>, stages: seq<Stage>, t: nat)
    requires IsThrow(sys, exception, key, states, entries, stages) && t < |stages|
    ensures |entries| == |stages| && stages[0].entry == 0 && Sees(sys, states, entries[t], stages[t])
    ensures t > 0 ==> Sees(sys, states, entries[t - 1], stages[t - 1])
    ensures t > 0 ==>
              Resumes(sys, exception, key, states, entries[t - 1], stages[t - 1], entries[t], stages[t])
  {
    hide Sees, Resumes;
  }

  /** An exception thrown through the machine is a run of stages as `Resumption` knows them. */
  lemma {:induction false} ThrowIsRun(sys: System, exception: Word, key: Word,
                                      states: seq<State>, entries: seq<Entered>, stages: seq<Stage>, h: nat, t: nat)
    requires SystemOk(sys) && IsMachineRun(sys, states)
    requires IsThrow(sys, exception, key, states, entries, stages) && t < |stages|
    requires Finds(Base(sys), exception, stages[0], h)
    ensures Resumption.IsRun(Base(sys), KEPT, exception, key, stages[..t + 1])
    decreases t
  {
    hide *;
    var base := Base(sys);
    ThrowStep(sys, exception, key, states, entries, stages, t);
    if t == 0 {
      SeesInverts(sys, states, entries[0], stages[0]);
      RaiseIsRun(base, KEPT, exception, key, stages[0]);
      assert stages[..1] == [stages[0]];
    } else {
      ThrowIsRun(sys, exception, key, states, entries, stages, h, t - 1);
      ProgramPreserves(sys);
      var run := stages[..t];
      StageLands(base, KEPT, exception, key, run, h, t - 1);
      var from, g := From(base, exception, key, run, t - 1), Landed(base, exception, key, run, t - 1);
      LandsInTurnIs(base, KEPT, exception, key, stages[0], h, stages[t - 1], from, g);
      SameFromLength(base, KEPT, stages[t - 1], stages[t - 1].entry, stages[0], from);
      ResumesInCleanup(sys, exception, key, states, entries[t - 1], stages[t - 1], entries[t], stages[t]);
      CleanupIs(base, exception, key, stages[t - 1]);
      ResumeFollows(sys, exception, key, states, entries[t - 1], stages[t - 1], entries[t], stages[t]);
      RunExtends(base, KEPT, exception, key, run, stages[t]);
      assert stages[..t + 1] == run + [stages[t]];
    }
  }

  lemma RaiseIsRun(env: Env, kept: set<Reg>, exception: Word, key: Word, s: Stage)
    requires s.entry == 0 && !s.start.signal && IsWalk(In(env, s), s.start, s.walk)
    ensures Resumption.IsRun(env, kept, exception, key, [s])
  {
    hide IsWalk;
  }

  lemma CleanupIs(env: Env, exception: Word, key: Word, s: Stage)
    requires InCleanup(env, exception, key, s)
    ensures var k := Landing(env, exception, key, s); k < |s.walk.visits| && IsCleanup(In(env, s), s.walk.visits[k])
  {
    hide IsCleanup, Landing;
  }

  /** The stack at the throw, from the activation whose context was saved outwards. */
  ghost function Thrown(states: seq<State>, e: Entered): seq<Activation>
    requires e.at < |states| && e.start <= |states[e.at].stack|
  {
    states[e.at].stack[e.start..]
  }

  /** When stage `t` is entered, the activations it still has to unwind are those of the throw from `From` on. */
  lemma {:induction false} StackLeft(sys: System, exception: Word, key: Word,
                                     states: seq<State>, entries: seq<Entered>, stages: seq<Stage>, h: nat, t: nat)
    requires SystemOk(sys) && IsMachineRun(sys, states)
    requires IsThrow(sys, exception, key, states, entries, stages) && t < |stages|
    requires Finds(Base(sys), exception, stages[0], h)
    ensures |entries| == |stages| && entries[0].at < |states| && entries[0].start <= |states[entries[0].at].stack|
    ensures entries[t].at < |states|
    ensures var from := From(Base(sys), exception, key, stages, t);
            var outer, stack := Thrown(states, entries[0]), states[entries[t].at].stack;
            var n := entries[t].start + stages[t].entry;
            0 <= from <= |outer| && n <= |stack| && stack[n..] == outer[from..]
    decreases t
  {
    hide *;
    var base := Base(sys);
    ThrowStep(sys, exception, key, states, entries, stages, 0);
    ThrowStep(sys, exception, key, states, entries, stages, t);
    SeesInverts(sys, states, entries[0], stages[0]);
    SeesInverts(sys, states, entries[t], stages[t]);
    LandedIs(base, exception, key, stages, t);
    ThrownIs(states, entries[0]);
    if t > 0 {
      var e, s := entries[t - 1], stages[t - 1];
      StackLeft(sys, exception, key, states, entries, stages, h, t - 1);
      SeesInverts(sys, states, e, s);
      LandedIs(base, exception, key, stages, t - 1);
      OuterKept(sys, exception, key, states, e, s, entries[t], stages[t]);
      var stack, outer := states[e.at].stack, Thrown(states, entries[0]);
      ThrowLanding(sys, exception, key, states, entries, stages, h, t - 1);
      var m, k := e.start + s.entry, Landing(base, exception, key, s);
      var d := k + 1 - s.entry;
      assert stack[m..][d..] == stack[m + d..] && outer[From(base, exception, key, stages, t - 1)..][d..] ==
             outer[From(base, exception, key, stages, t - 1) + d..];
    }
  }

  lemma ThrownIs(states: seq<State>, e: Entered)
    requires e.at < |states| && e.start <= |states[e.at].stack|
    ensures Thrown(states, e) == states[e.at].stack[e.start..]
  {
  }

  /** Stage `t` lands in its turn, in a frame that is still on the stack. */
  lemma ThrowLanding(sys: System, exception: Word, key: Word, states: seq<State>,
                     entries: seq<Entered>, stages: seq<Stage>, h: nat, t: nat)
    requires SystemOk(sys) && IsMachineRun(sys, states)
    requires IsThrow(sys, exception, key, states, entries, stages) && t < |stages|
    requires Finds(Base(sys), exception, stages[0], h)
    ensures stages[t].entry <= Landing(Base(sys), exception, key, stages[t]) < |stages[t].walk.visits|
  {
    hide *;
    var base := Base(sys);
    ProgramPreserves(sys);
    ThrowIsRun(sys, exception, key, states, entries, stages, h, t);
    var run := stages[..t + 1];
    StageLands(base, KEPT, exception, key, run, h, t);
    LandsInTurnIs(base, KEPT, exception, key, run[0], h, run[t], From(base, exception, key, run, t),
                  Landed(base, exception, key, run, t));
  }

  /** The stack is that of the throw from frame `g` outwards, with the frame itself at its landing pad. */
  ghost predicate AtPad(rodata: Memory, exception: Word, outer: seq<Activation>, g: int, stack: seq<Activation>)
    requires 0 <= g < |outer|
  {
    && stack != [] && stack[1..] == outer[g + 1..] && stack[0].func == outer[g].func
    && PadAt(rodata, outer[g].func, Get(outer[g].ctx, RA)) == Some(stack[0].site)
    && PadRegistersOf(exception, outer[g].ctx, stack[0].ctx) && Get(stack[0].ctx, RA) == stack[0].site
  }

  /** The exception in the first data register, zero in the second, and the preserved registers of the frame. */
  ghost predicate PadRegistersOf(exception: Word, frame: Context, ctx: Context) {
    && Get(ctx, RAX) == exception && Get(ctx, RDX) == 0 && Get(ctx, SP) == Get(frame, SP)
    && forall r | r in PRESERVED :: Get(ctx, r) == Get(frame, r)
  }

  lemma EntersRegisters(env: Env, exception: Word, v: Visit, ctx: Context, a: Activation)
    requires EntersPad(env, exception, v, ctx) && Agree(KEPT, v.at.ctx, a.ctx) && v.frame == FrameOf(a)
    ensures PadRegistersOf(exception, a.ctx, ctx) && PadOf(env, v) == Some(Get(ctx, RA))
  {
    hide PadOf, Get, RowOf, FdeOf, SlotsOf;
    FrameIs(a);
    PadRegisters(env, exception, v, ctx, a.ctx, SlotsOf(a));
  }

  lemma AtPadIs(rodata: Memory, exception: Word, outer: seq<Activation>, g: nat, stack: seq<Activation>)
    requires g < |outer| && stack != [] && stack == [stack[0]] + outer[g + 1..] && stack[0].func == outer[g].func
    requires PadAt(rodata, outer[g].func, Get(outer[g].ctx, RA)) == Some(stack[0].site)
    requires PadRegistersOf(exception, outer[g].ctx, stack[0].ctx) && Get(stack[0].ctx, RA) == stack[0].site
    ensures AtPad(rodata, exception, outer, g, stack)
  {
    hide PadAt, PadRegistersOf, Get;
  }

  lemma LandsAtPad(sys: System, exception: Word, key: Word, states: seq<State>,
                   e: Entered, s: Stage)
    requires SystemOk(sys) && IsMachineRun(sys, states)
    requires Sees(sys, states, e, s) && e.at + 1 < |states|
    requires Lands(sys, exception, key, states[e.at], states[e.at + 1], e.start, e.ctx, s.walk)
    ensures var n := e.start + Landing(Base(sys), exception, key, s);
            n < |states[e.at].stack| && AtPad(sys.rodata, exception, states[e.at].stack, n, states[e.at + 1].stack)
  {
    hide *;
    SeesInverts(sys, states, e, s);
    LandShape(sys, exception, key, states, e, s);
    LandEnters(sys, exception, key, states, e, s);
    var env, stack, stack' := EnvWith(sys, states[e.at].memory), states[e.at].stack, states[e.at + 1].stack;
    var k := Landing(Base(sys), exception, key, s);
    var a, v := stack[e.start + k], s.walk.visits[k];
    InvertsAt(stack, e.start, s.walk, k);
    StackOk(sys.program, states[e.at], e.start + k);
    SameRa(v.at.ctx, a.ctx);
    SuspendedAction(sys, env, a, v);
    EntersRegisters(env, exception, v, stack'[0].ctx, a);
    AtPadIs(sys.rodata, exception, stack, e.start + k, stack');
  }

  /** The activation's call catches: its landing pad is more than a cleanup. */
  ghost predicate Catches(rodata: Memory, a: Activation) {
    && a.func.personality.Some?
    && var action := SiteAction(rodata, FdeOf(a.func), Get(a.ctx, RA), false);
       action.Done? && (action.value.Catch? || action.value.Filter?)
  }

  /** A frame of the raise's walk has a pad exactly when its activation's call has one. */
  lemma ThrownPad(sys: System, states: seq<State>, e: Entered, s: Stage, i: nat)
    requires SystemOk(sys) && IsMachineRun(sys, states)
    requires Sees(sys, states, e, s) && i < |s.walk.visits|
    ensures e.at < |states| && e.start + i < |states[e.at].stack|
    ensures var a := states[e.at].stack[e.start + i];
            && PadOf(In(Base(sys), s), s.walk.visits[i]) == PadAt(sys.rodata, a.func, Get(a.ctx, RA))
            && (Handles(In(Base(sys), s), s.walk.visits[i]) <==> Catches(sys.rodata, a))
  {
    hide *;
    SeesInverts(sys, states, e, s);
    InvertsAt(states[e.at].stack, e.start, s.walk, i);
    var env, v, a := In(Base(sys), s), s.walk.visits[i], states[e.at].stack[e.start + i];
    StackOk(sys.program, states[e.at], e.start + i);
    SameRa(s.walk.visits[i].at.ctx, states[e.at].stack[e.start + i].ctx);
    SuspendedAction(sys, env, a, v);
    CatchesIs(sys.rodata, env, a, v);
  }

  lemma CatchesIs(rodata: Memory, env: Env, a: Activation, v: Visit)
    requires v.frame == FrameOf(a) && VisitAction(env, v) == SiteAction(rodata, FdeOf(a.func), Get(a.ctx, RA), false)
    ensures Handles(env, v) <==> Catches(rodata, a)
  {
    hide SiteAction, VisitAction, RowOf, SlotsOf, Get;
  }

  /** The activation has a landing pad at its call. */
  ghost predicate HasPad(rodata: Memory, a: Activation) {
    PadAt(rodata, a.func, Get(a.ctx, RA)).Some?
  }

  /** Stage `t` lands in frame `g` of the throw, at its pad. */
  lemma ThrowLandsAt(sys: System, exception: Word, key: Word, states: seq<State>,
                     entries: seq<Entered>, stages: seq<Stage>, h: nat, t: nat)
    requires SystemOk(sys) && IsMachineRun(sys, states)
    requires IsThrow(sys, exception, key, states, entries, stages) && t < |stages|
    requires Finds(Base(sys), exception, stages[0], h)
    requires |entries| == |stages| && entries[t].at + 1 < |states|
    requires Lands(sys, exception, key, states[entries[t].at], states[entries[t].at + 1],
                   entries[t].start, entries[t].ctx, stages[t].walk)
    ensures entries[0].at < |states| && entries[0].start <= |states[entries[0].at].stack|
    ensures var g := Landed(Base(sys), exception, key, stages, t);
            && 0 <= g < |Thrown(states, entries[0])|
            && AtPad(sys.rodata, exception, Thrown(states, entries[0]), g, states[entries[t].at + 1].stack)
  {
    hide *;
    var base, e, s := Base(sys), entries[t], stages[t];
    ThrowStep(sys, exception, key, states, entries, stages, t);
    SeesInverts(sys, states, e, s);
    StackLeft(sys, exception, key, states, entries, stages, h, t);
    ThrowLanding(sys, exception, key, states, entries, stages, h, t);
    LandedIs(base, exception, key, stages, t);
    LandsAtPad(sys, exception, key, states, e, s);
    var from, g := From(base, exception, key, stages, t), Landed(base, exception, key, stages, t);
    var stack, outer := states[e.at].stack, Thrown(states, entries[0]);
    var m, n := e.start + s.entry, e.start + Landing(base, exception, key, s);
    assert stack[m..][n - m] == stack[n] && outer[from..][g - from] == outer[g];
    assert stack[m..][n + 1 - m..] == stack[n + 1..] && outer[from..][g + 1 - from..] == outer[g + 1..];
    AtPadSame(sys.rodata, exception, stack, n, outer, g, states[e.at + 1].stack);
  }

  lemma AtPadSame(rodata: Memory, exception: Word, a: seq<Activation>, n: nat, b: seq<Activation>, g: nat,
                  stack: seq<Activation>)
    requires n < |a| && g < |b| && a[n] == b[g] && a[n + 1..] == b[g + 1..] && AtPad(rodata, exception, a, n, stack)
    ensures AtPad(rodata, exception, b, g, stack)
  {
    hide PadAt, PadRegistersOf, Get;
  }

  /**
   The landings are exactly in the frames up to the last of them whose call has a landing pad, outwards
   and each once; none is beyond the handler `h`, and that one alone catches.
   */
  ghost predicate PadsInTurn(rodata: Memory, outer: seq<Activation>, landings: seq<int>, h: nat) {
    && h < |outer|
    && (forall t | 0 <= t < |landings| ::
          0 <= landings[t] <= h && (landings[t] == h <==> Catches(rodata, outer[landings[t]])))
    && (forall t, u | 0 <= t < u < |landings| :: landings[t] < landings[u])
    && (forall t, i | 0 <= t < |landings| && 0 <= i <= landings[t] ::
          HasPad(rodata, outer[i]) <==> i in landings[..t + 1])
  }

  /** If the unwinder entered by `e` lands, it is in frame `g` of the throw, at its pad. */
  ghost predicate LeavesAt(sys: System, exception: Word, key: Word,
                           states: seq<State>, e: Entered, s: Stage, outer: seq<Activation>, g: int)
  {
    e.at + 1 < |states| && Lands(sys, exception, key, states[e.at], states[e.at + 1], e.start, e.ctx, s.walk) ==>
      0 <= g < |outer| && AtPad(sys.rodata, exception, outer, g, states[e.at + 1].stack)
  }

  /**
   Whatever the machine does between them, the landings of an exception are in the frames that were
   on the stack when it was thrown, in turn and up to the handler. After each landing the stack is the
   throw's own from that frame on, with the frame at its pad and its preserved registers.
   */
  lemma ThrowLandsInOrder(sys: System, exception: Word, key: Word,
                          states: seq<State>, entries: seq<Entered>, stages: seq<Stage>, h: nat)
    requires SystemOk(sys) && IsMachineRun(sys, states)
    requires IsThrow(sys, exception, key, states, entries, stages)
    requires Finds(Base(sys), exception, stages[0], h)
    ensures |entries| == |stages| <= h + 1
    ensures entries[0].at < |states| && entries[0].start <= |states[entries[0].at].stack|
    ensures PadsInTurn(sys.rodata, Thrown(states, entries[0]), Landings(Base(sys), exception, key, stages), h)
    ensures forall t | 0 <= t < |stages| ::
              LeavesAt(sys, exception, key, states, entries[t], stages[t], Thrown(states, entries[0]),
                       Landed(Base(sys), exception, key, stages, t))
  {
    hide *;
    ThrowWhole(sys, exception, key, states, entries, stages, h);
    ThrowTurns(sys, exception, key, states, entries, stages, h);
    forall t | 0 <= t < |stages|
      ensures LeavesAt(sys, exception, key, states, entries[t], stages[t], Thrown(states, entries[0]),
                       Landed(Base(sys), exception, key, stages, t))
    {
      ThrowLeavesAt(sys, exception, key, states, entries, stages, h, t);
    }
  }

  lemma ThrowLeavesAt(sys: System, exception: Word, key: Word,
                      states: seq<State>, entries: seq<Entered>, stages: seq<Stage>, h: nat, t: nat)
    requires SystemOk(sys) && IsMachineRun(sys, states)
    requires IsThrow(sys, exception, key, states, entries, stages) && t < |stages|
    requires Finds(Base(sys), exception, stages[0], h)
    requires |entries| == |stages| && entries[0].at < |states| && entries[0].start <= |states[entries[0].at].stack|
    ensures LeavesAt(sys, exception, key, states, entries[t], stages[t], Thrown(states, entries[0]),
                     Landed(Base(sys), exception, key, stages, t))
  {
    hide SystemOk, IsMachineRun, IsThrow, Finds, Lands, AtPad, Landed, Thrown;
    var e := entries[t];
    if e.at + 1 < |states| &&
       Lands(sys, exception, key, states[e.at], states[e.at + 1], e.start, e.ctx, stages[t].walk) {
      ThrowLandsAt(sys, exception, key, states, entries, stages, h, t);
    }
  }

  lemma ThrowTurns(sys: System, exception: Word, key: Word,
                   states: seq<State>, entries: seq<Entered>, stages: seq<Stage>, h: nat)
    requires SystemOk(sys) && IsMachineRun(sys, states)
    requires IsThrow(sys, exception, key, states, entries, stages)
    requires Finds(Base(sys), exception, stages[0], h)
    ensures entries[0].at < |states| && entries[0].start <= |states[entries[0].at].stack|
    ensures PadsInTurn(sys.rodata, Thrown(states, entries[0]), Landings(Base(sys), exception, key, stages), h)
  {
    hide *;
    var base := Base(sys);
    ThrowWhole(sys, exception, key, states, entries, stages, h);
    var landings, outer := Landings(base, exception, key, stages), Thrown(states, entries[0]);
    forall i | 0 <= i < |outer|
      ensures PadOf(In(base, stages[0]), stages[0].walk.visits[i]).Some? <==> HasPad(sys.rodata, outer[i])
      ensures Handles(In(base, stages[0]), stages[0].walk.visits[i]) <==> Catches(sys.rodata, outer[i])
    {
      ThrownPad(sys, states, entries[0], stages[0], i);
      HasPadIs(sys.rodata, outer[i]);
    }
    TurnsTaken(In(base, stages[0]), stages[0].walk.visits, sys.rodata, outer, landings, h);
  }

  lemma TurnsTaken(env: Env, visits: seq<Visit>, rodata: Memory, outer: seq<Activation>, landings: seq<int>, h: nat)
    requires |visits| == |outer| > h
    requires forall i | 0 <= i < |outer| :: PadOf(env, visits[i]).Some? <==> HasPad(rodata, outer[i])
    requires forall i | 0 <= i < |outer| :: Handles(env, visits[i]) <==> Catches(rodata, outer[i])
    requires forall t | 0 <= t < |landings| ::
               0 <= landings[t] <= h && (landings[t] == h <==> Handles(env, visits[landings[t]]))
    requires forall t, u | 0 <= t < u < |landings| :: landings[t] < landings[u]
    requires forall t, i | 0 <= t < |landings| && 0 <= i <= landings[t] ::
               PadOf(env, visits[i]).Some? <==> i in landings[..t + 1]
    ensures PadsInTurn(rodata, outer, landings, h)
  {
    hide PadOf, HasPad, Handles, Catches;
  }

  lemma HasPadIs(rodata: Memory, a: Activation)
    ensures HasPad(rodata, a) <==> PadAt(rodata, a.func, Get(a.ctx, RA)).Some?
  {
    hide PadAt;
  }

  /** What `RunLandsInOrder` and `RunLength` say of the stages. */
  lemma ThrowWhole(sys: System, exception: Word, key: Word,
                   states: seq<State>, entries: seq<Entered>, stages: seq<Stage>, h: nat)
    requires SystemOk(sys) && IsMachineRun(sys, states)
    requires IsThrow(sys, exception, key, states, entries, stages)
    requires Finds(Base(sys), exception, stages[0], h)
    ensures |entries| == |stages| <= h + 1 && stages != []
    ensures Preserves(Base(sys), KEPT) && Resumption.IsRun(Base(sys), KEPT, exception, key, stages)
    ensures Sees(sys, states, entries[0], stages[0])
    ensures entries[0].at < |states| && entries[0].start <= |states[entries[0].at].stack|
    ensures Thrown(states, entries[0]) == states[entries[0].at].stack[entries[0].start..]
    ensures |Thrown(states, entries[0])| == |stages[0].walk.visits| > h
    ensures var landings, base := Landings(Base(sys), exception, key, stages), Base(sys);
            var visits := stages[0].walk.visits;
            && |landings| == |stages|
            && (forall t | 0 <= t < |stages| ::
                  && 0 <= landings[t] <= h && landings[t] == Landed(base, exception, key, stages, t)
                  && (landings[t] == h <==> Handles(In(base, stages[0]), visits[landings[t]])))
            && (forall t, u | 0 <= t < u < |stages| :: landings[t] < landings[u])
            && (forall t, i | 0 <= t < |stages| && 0 <= i <= landings[t] ::
                  PadOf(In(base, stages[0]), visits[i]).Some? <==> i in landings[..t + 1])
  {
    hide *;
    var base := Base(sys);
    ThrowSome(sys, exception, key, states, entries, stages);
    ThrowStep(sys, exception, key, states, entries, stages, 0);
    ThrowIsRun(sys, exception, key, states, entries, stages, h, |stages| - 1);
    assert stages[..|stages|] == stages;
    ProgramPreserves(sys);
    SeesInverts(sys, states, entries[0], stages[0]);
    ThrownIs(states, entries[0]);
    RunLandsInOrder(base, KEPT, exception, key, stages, h);
    RunLength(base, KEPT, exception, key, stages, h);
  }

  lemma ThrowSome(sys: System, exception: Word, key: Word,
                  states: seq<State>, entries: seq<Entered>, stages: seq<Stage>)
    requires IsThrow(sys, exception, key, states, entries, stages)
    ensures stages != []
  {
  }

  /** In every stage the handler's frame is flagged and no other: the machine has no signal frames to mistake it for. */
  lemma ThrowFlagsHandler(sys: System, exception: Word, key: Word,
                          states: seq<State>, entries: seq<Entered>, stages: seq<Stage>, h: nat, t: nat, j: nat)
    requires SystemOk(sys) && IsMachineRun(sys, states)
    requires IsThrow(sys, exception, key, states, entries, stages) && t < |stages|
    requires Finds(Base(sys), exception, stages[0], h) && h < |stages[0].walk.visits|
    requires key == HandlerKey(stages[0].walk.visits[h].at) && j < |stages[t].walk.visits|
    ensures HandlerFrame in CleanupActions(stages[t].walk.visits[j].at, key) <==>
            j == stages[t].entry + (h - From(Base(sys), exception, key, stages, t))
  {
    hide *;
    var base, s := Base(sys), stages[t];
    ThrowWhole(sys, exception, key, states, entries, stages, h);
    ThrowStep(sys, exception, key, states, entries, stages, t);
    var e := entries[t];
    SeesInverts(sys, states, e, s);
    InvertingWalkOutward(sys.program, states[e.at], e.start, s.walk);
    StageFlagsHandler(base, KEPT, exception, key, stages, h, t, j);
    var n := s.entry + (h - From(base, exception, key, stages, t));
    InvertsAt(states[e.at].stack, e.start, s.walk, j);
    InvertsAt(states[e.at].stack, e.start, s.walk, n);
    NoTwins(s.walk, n, j);
  }

  lemma NoTwins(w: Walk, h: nat, i: nat)
    requires h < |w.visits| && i < |w.visits| && !w.visits[h].at.signal && !w.visits[i].at.signal
    ensures !SharesKey(w, h, i)
  {
  }
}
