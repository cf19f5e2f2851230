/**
 The hypotheses of `Exceptions` can be met: a function that calls itself inside a catch and has a
 cleanup, and a run in which an exception lands in the cleanup, is resumed from there by a call that
 overwrites the cleanup's own frame, and goes on to the catch.
 */
module ThrowExample {
  import opened Words
  import opened Wrappers
  import opened Contexts
  import opened Slices
  import opened Leb128
  import opened Pointers
  import opened Lsda
  import opened LsdaEncoding
  import opened Frames
  import opened Walks
  import opened Abi
  import opened Personality
  import Raise
  import opened TwoPhase
  import opened Resumption
  import opened CallStack
  import opened Exceptions

  // ----- The program -----

  /** The call at offset 1 catches at offset 3, the call at 2 is cleaned up at 4, the call at 4 has no pad. */
  const TABLE: LsdaEncoding.Table := LsdaEncoding.Table(None, None, ULEB128,
    [CallSite(1, 1, 3, Some(0)), CallSite(2, 1, 4, None), CallSite(4, 1, 0, None)], [ActionRecord(1, 0)])

  const CODE: map<Word, Sized> :=
    map[0x1000 := Sized(Branch(0x1002), 1), 0x1001 := Sized(Instr.Call(0x1000), 1),
        0x1002 := Sized(Instr.Call(0x2000), 1),
        0x1003 := Sized(Jump(0x1003), 1), 0x1004 := Sized(Instr.Call(0x2000), 1)]

  const LAYOUT: map<Word, Layout> := map[0x1000 := [], 0x1001 := [], 0x1002 := [], 0x1003 := [], 0x1004 := []]

  /** The unwinder's entry point, which calls `save_context`; neither has anything to clean up. */
  const UNWINDER: Function :=
    Function(0x2000, 0x10, map[0x2000 := Sized(Instr.Call(0x3000), 1)], map[0x2000 := []], None, None, None, None)

  const SAVER: Function :=
    Function(0x3000, 0x10, map[0x3000 := Sized(Jump(0x3000), 1)], map[0x3000 := []], None, None, None, None)

  function ActionAt(ip: Word): EHAction {
    if ip == 0x1002 then Catch(0x1003) else if ip == 0x1003 then Cleanup(0x1004) else NoAction
  }

  /** The function's LSDA says this of its calls, and reads no memory to say it. */
  ghost predicate Handled(f: Function) {
    forall memory: Memory, ip: Word | ip in {0x1002, 0x1003, 0x1005} ::
      Personality.SiteAction(memory, FdeOf(f), ip, false) == Done(ActionAt(ip))
        && SiteReads(memory, FdeOf(f), ip, false) == {}
  }

  ghost predicate IsThrower(f: Function) {
    && f.start == 0x1000 && f.length == 0x10 && f.code == CODE && f.layout == LAYOUT
    && f.personality == Some(1) && Handled(f)
  }

  function ViewFor(memory: Memory, ip: Word): View {
    View(memory, None, None, 0x1000, ip, false)
  }

  lemma TableOk(memory: Memory, ip: Word)
    ensures WellFormed(TABLE, ViewFor(memory, ip), TABLE.sites)
    ensures ip == 0x1002 ==> TableAction(memory, ip, 0) == Catch(0x1003)
    ensures ip == 0x1003 ==> TableAction(memory, ip, 1) == Cleanup(0x1004)
    ensures ip == 0x1005 ==> TableAction(memory, ip, 2) == NoAction
    ensures forall k | 0 <= k < 3 :: SiteStart(TABLE, ViewFor(memory, ip), TABLE.sites[k]) == 0x1000 + [1, 2, 4][k]
    ensures forall k | 0 <= k < 3 :: SiteEnd(TABLE, ViewFor(memory, ip), TABLE.sites[k]) == 0x1000 + [2, 3, 5][k]
  {
  }

  function TableAction(memory: Memory, ip: Word, k: nat): EHAction
    requires k < 3
  {
    LsdaEncoding.SiteAction(TABLE, ViewFor(memory, ip), TABLE.sites[k])
  }

  lemma TableAnswers(memory: Memory, ip: Word, n: Word, bytes: seq<Byte>)
    requires Encode(TABLE, ViewFor(memory, ip), 0x5000, n) == Some(bytes) && 0x5000 + |bytes| < WORD
    requires ip in {0x1002, 0x1003, 0x1005}
    ensures FindAction(ViewFor(memory, ip), Slice(0x5000, bytes)) == Done(ActionAt(ip))
    ensures ActionReads(ViewFor(memory, ip), Slice(0x5000, bytes)) == {}
  {
    hide Encode, FindAction, ActionReads, WellFormed, LsdaEncoding.SiteAction, SiteStart, SiteEnd;
    var view := ViewFor(memory, ip);
    TableOk(memory, ip);
    assert bytes + [] == bytes;
    var k := if ip == 0x1002 then 0 else if ip == 0x1003 then 1 else 2;
    CallSelectsItsSite(TABLE, view, 0x5000, n, bytes, [], k);
    DirectTableReadsNothing(TABLE, view, 0x5000, n, bytes, []);
  }

  lemma SiteOf(f: Function, memory: Memory, ip: Word, lsda: Slice)
    requires f.start == 0x1000 && f.lsda == Some(lsda) && lsda.ptr != 0 && f.textBase == None && f.dataBase == None
    ensures Personality.SiteAction(memory, FdeOf(f), ip, false) == FindAction(ViewFor(memory, ip), lsda)
    ensures SiteReads(memory, FdeOf(f), ip, false) == ActionReads(ViewFor(memory, ip), lsda)
  {
    hide FindAction, ActionReads, RowOf;
  }

  lemma ThrowerExists() returns (f: Function)
    ensures IsThrower(f)
  {
    hide Encode, EncodeTypeTable, FindAction, ActionReads, FdeOf, Personality.SiteAction, SiteReads, EncodeRecords,
         EncodeSites, EncodeUnsigned;
    var view := ViewFor(map[], 0);
    OffsetsFit();
    var n := UlebTableEncodes(TABLE, view, 0x5000);
    var bytes := Encode(TABLE, view, 0x5000, n).value;
    assert |EncodeRecords(TABLE.actions)| <= 100 by { RecordsFit(); }
    var lsda := Slice(0x5000, bytes);
    f := Function(0x1000, 0x10, CODE, LAYOUT, Some(1), Some(lsda), None, None);
    forall memory: Memory, ip: Word | ip in {0x1002, 0x1003, 0x1005}
      ensures Personality.SiteAction(memory, FdeOf(f), ip, false) == Done(ActionAt(ip))
      ensures SiteReads(memory, FdeOf(f), ip, false) == {}
    {
      EncodeSameBases(TABLE, view, ViewFor(memory, ip), 0x5000, n);
      TableAnswers(memory, ip, n, bytes);
      SiteOf(f, memory, ip, lsda);
    }
  }

  lemma RecordsFit()
    ensures |EncodeRecords(TABLE.actions)| <= 100
  {
    assert EncodeRecords(TABLE.actions[1..]) == [];
  }

  lemma OffsetsFit()
    ensures forall i | 0 <= i < |TABLE.sites| :: ActionEncodable(TABLE, TABLE.sites[i])
  {
  }

  ghost function SystemOf(f: Function): System {
    System([f, UNWINDER, SAVER], map[], (_: Expr, _: Memory, _: Context) => None)
  }

  lemma ThrowerInstrOk(p: Program, f: Function, a: Word)
    requires p == [f, UNWINDER, SAVER] && IsThrower(f) && a in f.code
    ensures InstrOk(p, f, a)
  {
    hide Handled, InstrOk;
    if f.code[a].instr.Call? { ThrowerCallOk(p, f, a); } else { ThrowerJumpOk(p, f, a); }
  }

  lemma ThrowerCallOk(p: Program, f: Function, a: Word)
    requires p == [f, UNWINDER, SAVER] && f.code == CODE && f.layout == LAYOUT && f.start == 0x1000
    requires a in f.code && f.code[a].instr.Call?
    ensures InstrOk(p, f, a)
  {
    hide InstrOk;
    assert p[0] == f && p[1] == UNWINDER;
    if a == 0x1001 { CallOk(p, f, a, f); } else { CallOk(p, f, a, UNWINDER); }
  }

  lemma CallOk(p: Program, f: Function, a: Word, g: Function)
    requires 0 < a && a + 1 < WORD && a in f.code && f.code[a] == Sized(Instr.Call(g.start), 1)
    requires a in f.layout && f.layout[a] == [] && (a + 1 in f.code ==> a + 1 in f.layout && f.layout[a + 1] == [])
    requires g in p && g.start in g.code && g.start in g.layout && g.layout[g.start] == []
    ensures InstrOk(p, f, a)
  {
  }

  lemma ThrowerJumpOk(p: Program, f: Function, a: Word)
    requires f.code == CODE && f.layout == LAYOUT && a in f.code && !f.code[a].instr.Call?
    ensures InstrOk(p, f, a)
  {
  }

  lemma UnwinderInstrOk(p: Program, f: Function, a: Word)
    requires p == [f, UNWINDER, SAVER]
    ensures a in UNWINDER.code ==> InstrOk(p, UNWINDER, a)
    ensures a in SAVER.code ==> InstrOk(p, SAVER, a)
  {
    assert p[2] == SAVER;
  }

  lemma ExampleProgramOk(f: Function)
    requires IsThrower(f)
    ensures ProgramOk(SystemOf(f).program)
  {
    hide InstrOk, Handled;
    var p := SystemOf(f).program;
    forall g, a | g in p && a in g.code ensures InstrOk(p, g, a) {
      if g == f { ThrowerInstrOk(p, f, a); } else { UnwinderInstrOk(p, f, a); }
    }
  }

  lemma ExamplePadsOk(f: Function)
    requires IsThrower(f)
    ensures PadsOk(SystemOf(f))
  {
    hide ActivationOk, PadOk, Handled, SlotsOf, Get;
    var sys := SystemOf(f);
    forall a: Activation | ActivationOk(sys.program, a, false)
      ensures PadOk(sys.rodata, a.func, SlotsOf(a), Get(a.ctx, RA))
    {
      ExamplePadOk(f, a);
    }
  }

  lemma ExamplePadOk(f: Function, a: Activation)
    requires IsThrower(f) && ActivationOk(SystemOf(f).program, a, false)
    ensures PadOk(map[], a.func, SlotsOf(a), Get(a.ctx, RA))
  {
    hide Personality.SiteAction, SiteReads, FdeOf, Get;
    var ip := Get(a.ctx, RA);
    if a.func == f {
      assert ip in {0x1002, 0x1003, 0x1005};
      assert Personality.SiteAction(map[], FdeOf(f), ip, false) == Done(ActionAt(ip));
    } else {
      NothingThere(a.func, ip);
    }
  }

  lemma NothingThere(f: Function, ip: Word)
    requires f == UNWINDER || f == SAVER
    ensures SiteReads(map[], FdeOf(f), ip, false) == {} && PadAt(map[], f, ip) == None
  {
    hide RowOf;
  }

  lemma ExampleOk(f: Function)
    requires IsThrower(f)
    ensures SystemOk(SystemOf(f))
  {
    hide ProgramOk, PadsOk;
    ExampleProgramOk(f);
    ExamplePadsOk(f);
  }

  // ----- The run -----

  /** The innermost activation is at this site of this function, with this stack pointer. */
  ghost predicate StandsAt(s: State, f: Function, site: Word, sp: Word) {
    s.stack != [] && s.stack[0].func == f && s.stack[0].site == site && Get(s.stack[0].ctx, SP) == sp
  }

  lemma CallsInto(p: Program, s: State, f: Function, site: Word, sp: Word, g: Function) returns (s': State)
    requires StandsAt(s, f, site, sp) && 8 <= sp && site + 1 < WORD
    requires site in f.code && f.code[site] == Sized(Instr.Call(g.start), 1)
    requires g in p && g.start in g.code && g.start in g.layout && g.layout[g.start] == []
    ensures Step(p, s, s') && StandsAt(s', g, g.start, sp - 8) && |s'.stack| == |s.stack| + 1
    ensures s'.stack[1..] == [Activation(f, site, Set(s.stack[0].ctx, RA, site + 1))] + s.stack[1..]
    ensures s'.memory == s.memory[sp - 8 := site + 1]
  {
    hide Get, Set, Moved, SlotsOf;
    var ctx := s.stack[0].ctx;
    MovedTo(ctx, sp - 8, g.start);
    s' := State(s.memory[sp - 8 := site + 1],
                [Activation(g, g.start, Moved(ctx, sp - 8, g.start)), Activation(f, site, Set(ctx, RA, site + 1))] +
                  s.stack[1..],
                s.root);
  }

  lemma Branches(p: Program, s: State, f: Function, site: Word, sp: Word, target: Word, taken: bool) returns (s': State)
    requires StandsAt(s, f, site, sp) && site + 1 < WORD
    requires site in f.code && f.code[site] == Sized(Branch(target), 1)
    ensures Step(p, s, s') && StandsAt(s', f, if taken then target else site + 1, sp) && |s'.stack| == |s.stack|
    ensures s'.stack[1..] == s.stack[1..]
  {
    hide Get, Set, Moved, SlotsOf;
    var ctx, next := s.stack[0].ctx, if taken then target else site + 1;
    MovedTo(ctx, sp, next);
    s' := State(s.memory, [Activation(f, next, Moved(ctx, sp, next))] + s.stack[1..], s.root);
  }

  lemma Starts(f: Function, ctx: Context) returns (s: State)
    requires IsThrower(f)
    ensures Init(SystemOf(f).program, s) && StandsAt(s, f, 0x1000, 0x8000) && |s.stack| == 1
  {
    hide Handled, Get;
    var c, root := Moved(ctx, 0x8000, 0x1000), Moved(ctx, 0x8008, 0);
    MovedTo(ctx, 0x8000, 0x1000);
    MovedTo(ctx, 0x8008, 0);
    s := State(map[], [Activation(f, 0x1000, c)], root);
    assert SystemOf(f).program[0] == f;
  }

  /** Up to the throw: the function calls itself, and the inner call enters the unwinder. */
  lemma RunsToThrow(f: Function, ctx: Context) returns (states: seq<State>)
    requires IsThrower(f)
    ensures |states| == 6 && Init(SystemOf(f).program, states[0])
    ensures forall i, j | 0 <= i && j == i + 1 && j < 6 :: Step(SystemOf(f).program, states[i], states[j])
    ensures AtThrow(f, states[5].stack)
    ensures Load(states[5].memory, 0x7ff0) == 0x1003
  {
    hide Get, Step, Init, Handled;
    var p := SystemOf(f).program;
    assert p[0] == f && p[1] == UNWINDER && p[2] == SAVER;
    var s0 := Starts(f, ctx);
    var s1 := Branches(p, s0, f, 0x1000, 0x8000, 0x1002, false);
    var s2 := CallsInto(p, s1, f, 0x1001, 0x8000, f);
    var s3 := Branches(p, s2, f, 0x1000, 0x7ff8, 0x1002, true);
    var s4 := CallsInto(p, s3, f, 0x1002, 0x7ff8, UNWINDER);
    var s5 := CallsInto(p, s4, UNWINDER, 0x2000, 0x7ff0, SAVER);
    assert s5.stack[1] == s5.stack[1..][0] && s5.stack[2] == s5.stack[1..][1] && s5.stack[3] == s5.stack[1..][2];
    states := [s0, s1, s2, s3, s4, s5];
  }

  /** From the cleanup: its frame calls the unwinder again. */
  lemma RunsToResume(f: Function, s: State) returns (s1: State, s2: State)
    requires IsThrower(f) && StandsAt(s, f, 0x1004, 0x7ff8)
    ensures Step(SystemOf(f).program, s, s1) && Step(SystemOf(f).program, s1, s2)
    ensures |s1.stack| == |s.stack| + 1 && |s2.stack| == |s.stack| + 2
    ensures s2.stack[1].func == UNWINDER && s2.stack[2].func == f && Get(s2.stack[2].ctx, RA) == 0x1005
    ensures Load(s2.memory, 0x7ff0) == 0x1005
  {
    hide Get, Step, Handled;
    var p := SystemOf(f).program;
    assert p[0] == f && p[1] == UNWINDER && p[2] == SAVER;
    s1 := CallsInto(p, s, f, 0x1004, 0x7ff8, UNWINDER);
    s2 := CallsInto(p, s1, UNWINDER, 0x2000, 0x7ff0, SAVER);
    assert s2.stack[1] == s2.stack[1..][0] && s2.stack[2] == s2.stack[1..][1];
  }

  lemma StepMoves(sys: System, s: State, s': State)
    requires sys.rodata == map[] && Step(sys.program, s, s')
    ensures Moves(sys, s, s')
  {
    hide Step;
  }

  lemma LandMoves(sys: System, exception: Word, key: Word, s: State, s': State, start: nat, ctx: Context, w: Walk)
    requires sys.rodata == map[] && Lands(sys, exception, key, s, s', start, ctx, w)
    ensures Moves(sys, s, s')
  {
    hide Step, Lands;
  }

  /** The call stack at the throw, as `RunsToThrow` leaves it. */
  ghost predicate AtThrow(f: Function, stack: seq<Activation>) {
    && |stack| == 4 && stack[1].func == UNWINDER && stack[2].func == stack[3].func == f
    && Get(stack[2].ctx, RA) == 0x1003 && Get(stack[3].ctx, RA) == 0x1002 && Get(stack[2].ctx, SP) == 0x7ff8
  }

  lemma CallActions(f: Function)
    requires IsThrower(f)
    ensures PadAt(map[], f, 0x1003) == Some(0x1004)
    ensures Personality.SiteAction(map[], FdeOf(f), 0x1002, false) == Done(Catch(0x1003))
    ensures Personality.SiteAction(map[], FdeOf(f), 0x1003, false) == Done(Cleanup(0x1004))
    ensures Personality.SiteAction(map[], FdeOf(f), 0x1005, false) == Done(NoAction)
  {
    hide Personality.SiteAction, SiteReads, FdeOf;
  }

  /** The search passes the unwinder and the cleanup, and finds the catch. */
  lemma SearchFindsCatch(f: Function, exception: Word, s: State, start: nat, ctx: Context, w: Walk)
    requires IsThrower(f) && Inv(SystemOf(f).program, s) && AtThrow(f, s.stack) && start == 1
    requires Enters(SystemOf(f), s, start, ctx, w)
    ensures |w.visits| == 3 && Inverts(s.stack, 1, w)
    ensures var env := EnvWith(SystemOf(f), s.memory);
            && Quiet(env, w.visits[0]) && PadOf(env, w.visits[1]) == Some(0x1004) && IsCleanup(env, w.visits[1])
            && Raise.SearchOutcome(Rust(env, exception), w) == Raise.HandlerAt(2)
  {
    hide Handled, SystemOk, Inv, Enters, Inverts, Get, Agree, ActivationOk, FrameOk, FdeOf, RowOf, FrameOf, SlotsOf,
         SiteReads,
         Personality.SiteAction, Raise.SearchOutcome, Rust, PadOk, ActionPad;
    var sys, env, visits := SystemOf(f), EnvWith(SystemOf(f), s.memory), w.visits;
    ExampleOk(f);
    CallActions(f);
    EntersInverts(sys, s, 1, ctx, w);
    InvertsLength(s.stack, 1, w);
    forall i | 0 <= i < 3
      ensures VisitAction(env, visits[i]) ==
              Personality.SiteAction(map[], FdeOf(s.stack[i + 1].func), Get(s.stack[i + 1].ctx, RA), false)
      ensures visits[i].frame.fde.personality == s.stack[i + 1].func.personality
      ensures PadOf(env, visits[i]) == PadAt(map[], s.stack[i + 1].func, Get(s.stack[i + 1].ctx, RA))
    {
      InvertsAt(s.stack, 1, w, i);
      StackOk(sys.program, s, i + 1);
      SameRa(visits[i].at.ctx, s.stack[i + 1].ctx);
      SuspendedAction(sys, env, s.stack[i + 1], visits[i]);
      PersonalityOf(s.stack[i + 1]);
    }
    SearchFindsHandler(env, exception, w, 2);
  }

  lemma PersonalityOf(a: Activation)
    ensures FrameOf(a).fde.personality == a.func.personality
  {
    hide RowOf;
  }

  /** The second phase lands in the cleanup. */
  lemma LandsInPad(f: Function, exception: Word, key: Word, s: State, ctx: Context, w: Walk) returns (s': State)
    requires IsThrower(f) && Inv(SystemOf(f).program, s) && AtThrow(f, s.stack)
    requires Enters(SystemOf(f), s, 1, ctx, w)
    ensures Lands(SystemOf(f), exception, key, s, s', 1, ctx, w)
    ensures StandsAt(s', f, 0x1004, 0x7ff8) && |s'.stack| == 2
    ensures Raise.FirstStop(Raise.Cleaning(Rust(EnvWith(SystemOf(f), s.memory), exception), key), w.visits) == 1
  {
    hide IsThrower, Inv, Enters, Inverts, Get, Agree, FrameOf, Rust, Raise.SearchOutcome, PadOf, Quiet, IsCleanup,
         EntersPad,
         Raise.FirstStop, Raise.CleanupOutcome, Raise.Cleaning, SlotsOf;
    var sys, env := SystemOf(f), EnvWith(SystemOf(f), s.memory);
    SearchFindsCatch(f, exception, s, 1, ctx, w);
    CleanupLands(env, exception, key, w.visits, 1);
    var ctx' := Raise.CleanupOutcome(Rust(env, exception), w.visits, key).ctx;
    InvertsAt(s.stack, 1, w, 1);
    FrameIs(s.stack[2]);
    PadRegisters(env, exception, w.visits[1], ctx', s.stack[2].ctx, SlotsOf(s.stack[2]));
    s' := State(s.memory[0x7ff0 := 0x1004], [Activation(f, 0x1004, ctx')] + s.stack[3..], s.root);
  }

  /** The whole run, and where the unwinder is entered in it. */
  lemma ExampleRun(f: Function, ctx: Context, exception: Word) returns (key: Word, states: seq<State>, w: Walk)
    requires IsThrower(f)
    ensures |states| == 9 && IsMachineRun(SystemOf(f), states)
    ensures AtThrow(f, states[5].stack) && Enters(SystemOf(f), states[5], 1, states[5].stack[1].ctx, w)
    ensures |w.visits| == 3 && key == Raise.HandlerKey(w.visits[2].at)
    ensures Raise.SearchOutcome(Rust(EnvWith(SystemOf(f), states[5].memory), exception), w) == Raise.HandlerAt(2)
    ensures IsCleanup(EnvWith(SystemOf(f), states[5].memory), w.visits[1])
    ensures Raise.FirstStop(Raise.Cleaning(Rust(EnvWith(SystemOf(f), states[5].memory), exception), key), w.visits) == 1
    ensures Lands(SystemOf(f), exception, key, states[5], states[6], 1, states[5].stack[1].ctx, w)
    ensures |states[5].stack| == 4 && |states[6].stack| == 2 && |states[7].stack| == 3 && |states[8].stack| == 4
    ensures states[8].stack[1].func == UNWINDER && states[8].stack[2].func == f
            && Get(states[8].stack[2].ctx, RA) == 0x1005
    ensures Load(states[5].memory, 0x7ff0) == 0x1003 && Load(states[8].memory, 0x7ff0) == 0x1005
  {
    hide *;
    var sys := SystemOf(f);
    ExampleOk(f);
    NoReadOnly(f);
    var run := RunsToThrow(f, ctx);
    AtThrowIs(f, run[5].stack);
    StartIsRun(f, run);
    Reached(f, run);
    w := EnterAt(f, run[5]);
    SearchFindsCatch(f, exception, run[5], 1, run[5].stack[1].ctx, w);
    key := Raise.HandlerKey(w.visits[2].at);
    var s6 := LandsInPad(f, exception, key, run[5], run[5].stack[1].ctx, w);
    var s7, s8 := RunsToResume(f, s6);
    LandMoves(sys, exception, key, run[5], s6, 1, run[5].stack[1].ctx, w);
    StepMoves(sys, s6, s7);
    StepMoves(sys, s7, s8);
    RunGoesOn(sys, run, s6);
    RunGoesOn(sys, run + [s6], s7);
    assert run + [s6] + [s7] == run + [s6, s7];
    RunGoesOn(sys, run + [s6, s7], s8);
    assert run + [s6, s7] + [s8] == run + [s6, s7, s8];
    states := run + [s6, s7, s8];
  }

  lemma AtThrowIs(f: Function, stack: seq<Activation>)
    requires AtThrow(f, stack)
    ensures |stack| == 4
  {
  }

  lemma NoReadOnly(f: Function)
    ensures SystemOf(f).rodata == map[]
  {
  }

  lemma StartIsRun(f: Function, run: seq<State>)
    requires run != [] && Init(SystemOf(f).program, run[0])
    requires forall i, j | 0 <= i && j == i + 1 && j < |run| :: Step(SystemOf(f).program, run[i], run[j])
    ensures IsMachineRun(SystemOf(f), run)
  {
    hide Init, Step, Moves;
    forall i, j | 0 <= i && j == i + 1 && j < |run| ensures Moves(SystemOf(f), run[i], run[j]) {
      StepMoves(SystemOf(f), run[i], run[j]);
    }
  }

  lemma RunGoesOn(sys: System, run: seq<State>, s: State)
    requires IsMachineRun(sys, run) && Moves(sys, run[|run| - 1], s)
    ensures IsMachineRun(sys, run + [s])
  {
    hide Init, Moves, ReadOnly;
  }

  lemma Reached(f: Function, run: seq<State>)
    requires IsThrower(f) && IsMachineRun(SystemOf(f), run) && |run| == 6
    ensures Inv(SystemOf(f).program, run[5])
  {
    hide IsThrower, SystemOk, IsMachineRun, Inv, ReadOnly;
    ExampleOk(f);
    Exceptions.ReachableInv(SystemOf(f), run, 5);
  }

  lemma EnterAt(f: Function, s: State) returns (w: Walk)
    requires IsThrower(f) && Inv(SystemOf(f).program, s) && |s.stack| == 4
    ensures Enters(SystemOf(f), s, 1, s.stack[1].ctx, w)
  {
    hide ProgramOk, PadsOk, IsThrower, Inv, IsPath, Inverts, Get;
    ExampleOk(f);
    w := WalkFrom(SystemOf(f).program, s, EnvWith(SystemOf(f), s.memory), 1, s.stack[1].ctx);
  }

  /**
   An exception that is raised, cleaned up after and resumed: the resume passes the unwinder's frame and
   the cleanup's, whose call has replaced the return address that the raise had read there.
   */
  lemma ResumedThrowExists(ctx: Context, exception: Word)
    returns (sys: System, key: Word, states: seq<State>, entries: seq<Entered>, stages: seq<Stage>)
    ensures SystemOk(sys) && IsMachineRun(sys, states) && IsThrow(sys, exception, key, states, entries, stages)
    ensures |stages| == 2 && stages[1].entry == 2 && Finds(Base(sys), exception, stages[0], 2)
    ensures exists x :: Load(stages[1].memory, x) != Load(stages[0].memory, x)
  {
    hide *;
    var f := ThrowerExists();
    sys := SystemOf(f);
    ExampleOk(f);
    var w;
    key, states, w := ExampleRun(f, ctx, exception);
    var e0, e1 := Entered(5, 1, states[5].stack[1].ctx), Entered(8, 1, states[8].stack[1].ctx);
    var s0 := Stage(states[5].memory, Point(e0.ctx, false), w, 0);
    AgreesWithItself(e1.ctx);
    var s1 := EntrySees(sys, states, e1, 2);
    entries, stages := [e0, e1], [s0, s1];
    EnterSees(sys, states, e0, s0);
    StageFinds(sys, exception, key, states, s0);
    QuietSites(f, states[8].stack);
    ResumesHere(f, exception, key, states, e0, s0, e1, s1);
    ThrowOfTwo(sys, exception, key, states, e0, s0, e1, s1);
    SeesMemory(sys, states, e1, s1);
    Differ(states[5].memory, states[8].memory);
  }

  lemma Differ(m: Memory, m': Memory)
    requires Load(m, 0x7ff0) == 0x1003 && Load(m', 0x7ff0) == 0x1005
    ensures exists x :: Load(m', x) != Load(m, x)
  {
    var x: Word := 0x7ff0;
    assert Load(m', x) != Load(m, x);
  }

  lemma AgreesWithItself(ctx: Context)
    ensures Agree(KEPT, ctx, ctx)
  {
  }

  lemma EnterSees(sys: System, states: seq<State>, e: Entered, s: Stage)
    requires e.at < |states| && s.memory == states[e.at].memory && s.start == Point(e.ctx, false)
    requires Enters(sys, states[e.at], e.start, e.ctx, s.walk)
    ensures Sees(sys, states, e, s) && In(Base(sys), s) == EnvWith(sys, s.memory)
  {
    hide Enters;
  }

  /** A stage's search and landing are those of its walk. */
  lemma StageFinds(sys: System, exception: Word, key: Word, states: seq<State>, s: Stage)
    requires In(Base(sys), s) == EnvWith(sys, s.memory) && |s.walk.visits| == 3
    requires Raise.SearchOutcome(Rust(EnvWith(sys, s.memory), exception), s.walk) == Raise.HandlerAt(2)
    requires Raise.FirstStop(Raise.Cleaning(Rust(EnvWith(sys, s.memory), exception), key), s.walk.visits) == 1
    requires IsCleanup(EnvWith(sys, s.memory), s.walk.visits[1])
    ensures Finds(Base(sys), exception, s, 2) && InCleanup(Base(sys), exception, key, s)
  {
    hide Raise.SearchOutcome, Raise.FirstStop, Raise.Cleaning, Rust, IsCleanup, EnvWith, Base;
  }

  lemma QuietSites(f: Function, stack: seq<Activation>)
    requires IsThrower(f) && |stack| == 4
    requires stack[1].func == UNWINDER && stack[2].func == f && Get(stack[2].ctx, RA) == 0x1005
    ensures QuietSite(map[], stack[1]) && QuietSite(map[], stack[2])
  {
    hide Personality.SiteAction, FdeOf, Handled;
    CallActions(f);
  }

  lemma ResumesHere(f: Function, exception: Word, key: Word, states: seq<State>, e: Entered, s: Stage, e': Entered,
                    next: Stage)
    requires |states| == 9 && e.at == 5 && e'.at == 8 && e.start == 1 && e'.start == 1 && next.entry == 2
    requires Lands(SystemOf(f), exception, key, states[5], states[6], 1, e.ctx, s.walk)
    requires InCleanup(Base(SystemOf(f)), exception, key, s)
    requires |states[6].stack| == 2 && |states[7].stack| == 3 && |states[8].stack| == 4
    requires QuietSite(map[], states[8].stack[1]) && QuietSite(map[], states[8].stack[2])
    ensures Resumes(SystemOf(f), exception, key, states, e, s, e', next)
  {
    hide Lands, InCleanup, QuietSite;
  }

  lemma ThrowOfTwo(sys: System, exception: Word, key: Word, states: seq<State>, e: Entered, s: Stage, e': Entered,
                   next: Stage)
    requires Sees(sys, states, e, s) && Sees(sys, states, e', next) && s.entry == 0
    requires Resumes(sys, exception, key, states, e, s, e', next)
    ensures IsThrow(sys, exception, key, states, [e, e'], [s, next])
  {
    hide Sees, Resumes;
  }
}
