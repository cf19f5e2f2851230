/** What the two phases agree on when every routine is the Rust personality. */
module TwoPhase {
  import opened Words
  import opened Wrappers
  import opened Contexts
  import opened Lsda
  import opened Frames
  import opened Walks
  import opened Abi
  import opened Personality
  import opened Raise

  /** The Rust personality as the drivers call it, with version 1. */
  function Rust(env: Env, exception: Word): Routine {
    (actions: set<Action>, v: Visit) => RustAnswer(env, 1, actions, exception, v)
  }

  /** The landing pad that an action leads to. */
  function ActionPad(action: Outcome<EHAction>): Option<Word> {
    match action
    case Done(Cleanup(lpad)) => Some(lpad)
    case Done(Catch(lpad)) => Some(lpad)
    case Done(Filter(lpad)) => Some(lpad)
    case _ => None
  }

  /** The landing pad at a visited frame's current instruction, if it has one. */
  function PadOf(env: Env, v: Visit): Option<Word> {
    if v.frame.fde.personality == None then None else ActionPad(VisitAction(env, v))
  }

  /** The frame stops the search: it catches here. */
  predicate Handles(env: Env, v: Visit) {
    v.frame.fde.personality.Some? && VisitAction(env, v).Done? &&
    (VisitAction(env, v).value.Catch? || VisitAction(env, v).value.Filter?)
  }

  /** The frame lets both phases pass: it has nothing to do here. */
  predicate Quiet(env: Env, v: Visit) {
    v.frame.fde.personality == None || VisitAction(env, v) == Done(NoAction)
  }

  /** The frame lets the search pass: nothing to do here, or only a cleanup. */
  predicate Passes(env: Env, v: Visit) {
    Quiet(env, v) || (VisitAction(env, v).Done? && VisitAction(env, v).value.Cleanup?)
  }

  lemma RustSearches(env: Env, exception: Word, v: Visit)
    ensures Searching(Rust(env, exception))(v) == ContinueUnwind <==> Passes(env, v)
    ensures Searching(Rust(env, exception))(v) == HandlerFound <==> Handles(env, v)
  {
    hide FindAction, Set;
  }

  lemma RustCleans(env: Env, exception: Word, key: Word, v: Visit)
    ensures Quiet(env, v) ==> Cleaning(Rust(env, exception), key)(v) == ContinueUnwind
    ensures PadOf(env, v).Some? <==> Cleaning(Rust(env, exception), key)(v) == InstallContext
    ensures PadOf(env, v).Some? ==>
      Rust(env, exception)(CleanupActions(v.at, key), v).ctx == EnterPad(v.at.ctx, exception, PadOf(env, v).value)
  {
    hide FindAction, Set, EnterPad;
  }

  /** The search ends at a frame exactly when that frame catches and every frame inside it lets it pass. */
  lemma SearchFindsHandler(env: Env, exception: Word, w: Walk, h: nat)
    ensures SearchOutcome(Rust(env, exception), w) == HandlerAt(h) <==>
            h < |w.visits| && Handles(env, w.visits[h]) && forall j | 0 <= j < h :: Passes(env, w.visits[j])
  {
    hide Passes, Handles, Rust, Searching, FirstStop;
    forall v: Visit
      ensures Searching(Rust(env, exception))(v) == ContinueUnwind <==> Passes(env, v)
      ensures Searching(Rust(env, exception))(v) == HandlerFound <==> Handles(env, v)
    {
      RustSearches(env, exception, v);
    }
    if h < |w.visits| && Handles(env, w.visits[h]) && forall j | 0 <= j < h :: Passes(env, w.visits[j]) {
      SearchAt(Rust(env, exception), w, h);
    }
  }

  /** The registers a landing pad of visit `v` starts with. */
  ghost predicate EntersPad(env: Env, exception: Word, v: Visit, ctx: Context) {
    PadOf(env, v).Some? && forall r: Reg ::
      Get(ctx, r) == if r == RAX then exception
                     else if r == RDX then 0
                     else if r == RA then PadOf(env, v).value
                     else if r == SP then WrappingAdd(Get(v.at.ctx, SP), v.frame.row.savedArgsSize)
                     else Get(v.at.ctx, r)
  }

  /** The second phase installs the first landing pad it meets, provided only quiet frames come before. */
  lemma CleanupLands(env: Env, exception: Word, key: Word, visits: seq<Visit>, k: nat)
    requires k < |visits| && PadOf(env, visits[k]).Some?
    requires forall j | 0 <= j < k :: Quiet(env, visits[j])
    ensures var r := CleanupOutcome(Rust(env, exception), visits, key);
            r.Installs? && r.index == k && EntersPad(env, exception, visits[k], r.ctx)
    ensures FirstStop(Cleaning(Rust(env, exception), key), visits) == k
  {
    hide PadOf, Quiet, Rust, Cleaning, FirstStop, CleanupOutcome;
    forall j | 0 <= j <= k
      ensures j < k ==> Cleaning(Rust(env, exception), key)(visits[j]) == ContinueUnwind
    {
      RustCleans(env, exception, key, visits[j]);
    }
    RustCleans(env, exception, key, visits[k]);
    OutcomeAt(Rust(env, exception), visits, key, k);
    AskIsAnswer(env, exception, key, visits[k]);
  }

  /** Whatever the second phase installs is the landing pad of the visit where it stops. */
  lemma InstallsEnters(env: Env, exception: Word, key: Word, visits: seq<Visit>)
    ensures var r := CleanupOutcome(Rust(env, exception), visits, key);
            r.Installs? ==> r.index < |visits| && r.index == FirstStop(Cleaning(Rust(env, exception), key), visits)
                            && EntersPad(env, exception, visits[r.index], r.ctx)
  {
    hide PadOf, Rust;
    var r := CleanupOutcome(Rust(env, exception), visits, key);
    if r.Installs? {
      RustCleans(env, exception, key, visits[r.index]);
    }
  }

  lemma AskIsAnswer(env: Env, exception: Word, key: Word, v: Visit)
    requires Cleaning(Rust(env, exception), key)(v) == InstallContext
    ensures Rust(env, exception)(CleanupActions(v.at, key), v).code == InstallContext
  {
    hide RustAnswer;
  }

  function FirstWhere(p: Visit -> bool, visits: seq<Visit>, i: nat): (k: nat)
    requires i <= |visits|
    ensures i <= k <= |visits|
    ensures forall j | i <= j < k :: !p(visits[j])
    ensures k < |visits| ==> p(visits[k])
    decreases |visits| - i
  {
    if i == |visits| || p(visits[i]) then i else FirstWhere(p, visits, i + 1)
  }

  /** The first visit from `i` on with a landing pad, or the number of visits. */
  function NextPad(env: Env, visits: seq<Visit>, i: nat): (k: nat)
    requires i <= |visits|
    ensures i <= k <= |visits|
    ensures forall j | i <= j < k :: PadOf(env, visits[j]) == None
    ensures k < |visits| ==> PadOf(env, visits[k]).Some?
  {
    hide PadOf;
    FirstWhere((v: Visit) => PadOf(env, v).Some?, visits, i)
  }

  /**
   Two-phase agreement: once the search has found a handler at `h`, the second phase over the same
   walk never fails. It installs the innermost frame at or inside `h` with a landing pad, and the
   registers there are the walk's own, up to the data registers, the IP and the stack adjustment.
   */
  lemma PhasesAgree(env: Env, exception: Word, w: Walk, h: nat, key: Word)
    requires SearchOutcome(Rust(env, exception), w) == HandlerAt(h)
    ensures h < |w.visits| && PadOf(env, w.visits[h]).Some?
    ensures var k := NextPad(env, w.visits, 0);
            k <= h &&
            var r := CleanupOutcome(Rust(env, exception), w.visits, key);
            r.Installs? && r.index == k && EntersPad(env, exception, w.visits[k], r.ctx)
  {
    hide FindAction, CleanupOutcome, SearchOutcome, EntersPad, Rust;
    SearchFindsHandler(env, exception, w, h);
    CleanupLands(env, exception, key, w.visits, NextPad(env, w.visits, 0));
  }

  // ----- The handler key -----

  /** A normal frame and, one address above it, a signal frame: the two that the key cannot tell apart. */
  predicate Twins(p: Point, q: Point) {
    !p.signal && q.signal && StackPointer(q) == StackPointer(p) + 1
  }

  /** The key never falls along an outward step, and fails to grow in one situation only. */
  lemma KeyStep(p: Point, q: Point)
    requires Outward(p, q) && (p.signal ==> 0 < StackPointer(p))
    ensures HandlerKey(p) <= HandlerKey(q)
    ensures HandlerKey(p) == HandlerKey(q) <==> Twins(p, q)
    ensures q.signal ==> 0 < StackPointer(q)
  {
  }

  /** The walk moves outwards from a normal frame, as every driver starts it. */
  ghost predicate Outgoing(w: Walk) {
    StepsOutward(w) && (w.visits != [] ==> !w.visits[0].at.signal)
  }

  lemma {:induction false} SignalAboveZero(w: Walk, i: nat)
    requires Outgoing(w) && i < |w.visits|
    ensures w.visits[i].at.signal ==> 0 < StackPointer(w.visits[i].at)
    decreases i
  {
    if i > 0 {
      SignalAboveZero(w, i - 1);
      assert Outward(w.visits[i - 1].at, w.visits[i].at);
    }
  }

  /** Keys never fall along a walk, and only twins that follow each other share one. */
  lemma {:induction false} KeysGrow(w: Walk, i: nat, j: nat)
    requires Outgoing(w) && i < j < |w.visits|
    ensures HandlerKey(w.visits[i].at) <= HandlerKey(w.visits[j].at)
    ensures HandlerKey(w.visits[i].at) == HandlerKey(w.visits[j].at)
            <==> j == i + 1 && Twins(w.visits[i].at, w.visits[j].at)
    decreases j
  {
    hide HandlerKey, Outward;
    SignalAboveZero(w, j - 1);
    assert Outward(w.visits[j - 1].at, w.visits[j].at);
    KeyStep(w.visits[j - 1].at, w.visits[j].at);
    if i < j - 1 {
      KeysGrow(w, i, j - 1);
    }
  }

  /** Visit `i` has the key of visit `h` without being that visit. */
  predicate SharesKey(w: Walk, h: nat, i: nat)
    requires h < |w.visits| && i < |w.visits|
  {
    || (i + 1 == h && Twins(w.visits[i].at, w.visits[h].at))
    || (h + 1 == i && Twins(w.visits[h].at, w.visits[i].at))
  }

  /** The exact condition: the handler frame is flagged, and besides it only a twin next to it. */
  lemma FlagsHandler(w: Walk, h: nat, i: nat)
    requires Outgoing(w) && h < |w.visits| && i < |w.visits|
    ensures HandlerFrame in CleanupActions(w.visits[i].at, HandlerKey(w.visits[h].at)) <==> i == h || SharesKey(w, h, i)
  {
    hide HandlerKey, Outward, Twins;
    if i < h {
      KeysGrow(w, i, h);
    } else if h < i {
      KeysGrow(w, h, i);
    }
  }

  ghost predicate EvenStack(w: Walk) {
    forall i | 0 <= i < |w.visits| :: StackPointer(w.visits[i].at) % 2 == 0
  }

  /** The first frame is not a signal frame, stack pointers are even, and the walk moves outwards. */
  ghost predicate Regular(w: Walk) {
    Outgoing(w) && EvenStack(w)
  }

  lemma KeysIncrease(w: Walk, i: nat, j: nat)
    requires Regular(w) && i < j < |w.visits|
    ensures HandlerKey(w.visits[i].at) < HandlerKey(w.visits[j].at)
  {
    KeysGrow(w, i, j);
  }

  /** On even stacks there are no twins: only the handler's own visit is flagged as the handler frame. */
  lemma OnlyHandlerFlagged(w: Walk, h: nat, i: nat)
    requires Regular(w) && h < |w.visits| && i < |w.visits|
    ensures HandlerFrame in CleanupActions(w.visits[i].at, HandlerKey(w.visits[h].at)) <==> i == h
  {
    hide HandlerKey, Outward, CleanupActions;
    FlagsHandler(w, h, i);
  }

  /** A function whose frame takes one byte, and whose caller is taken for a signal-interrupted frame. */
  ghost const TRAMPOLINE: Fde :=
    Fde(0x100, 0x10, map[0x100 := Row(RegisterAndOffset(SP, 1), [(RA, Constant(0x200))], 0)],
        true, Some(1), None, None, None)

  /** The outermost function: it has no rule for RA. */
  ghost const OUTERMOST: Fde :=
    Fde(0x200, 0x10, map[0x200 := Row(RegisterAndOffset(SP, 8), [], 0)], false, Some(1), None, None, None)

  /** Handles in the signal-interrupted frame. */
  function HandlesInSignal(): Routine {
    (actions: set<Action>, v: Visit) =>
      Answer(if SearchPhase in actions && v.at.signal then HandlerFound else ContinueUnwind, v.at.ctx)
  }

  lemma TwinStep(env: Env, ctx: Context) returns (ctx': Context)
    requires env.fdes == [TRAMPOLINE, OUTERMOST] && Get(ctx, SP) == 16 && Get(ctx, RA) == 0x101
    ensures FromContext(env, Point(ctx, false)) == Success(Some(Frame(TRAMPOLINE, TRAMPOLINE.rows[0x100])))
    ensures Caller(env, TRAMPOLINE.rows[0x100], ctx) == Success(ctx')
    ensures Get(ctx', SP) == 17 && Get(ctx', RA) == 0x200
  {
    var row := TRAMPOLINE.rows[0x100];
    assert env.fdes[0] == TRAMPOLINE;
    assert RuleFor(row.rules, RA) == Some(Constant(0x200)) && RuleFor(row.rules, SP) == None;
    ctx' := Caller(env, row, ctx).value;
  }

  lemma LastStep(env: Env, ctx: Context) returns (ctx': Context)
    requires env.fdes == [TRAMPOLINE, OUTERMOST] && Get(ctx, SP) == 17 && Get(ctx, RA) == 0x200
    ensures FromContext(env, Point(ctx, true)) == Success(Some(Frame(OUTERMOST, OUTERMOST.rows[0x200])))
    ensures Caller(env, OUTERMOST.rows[0x200], ctx) == Success(ctx') && Get(ctx', RA) == 0
  {
    var row := OUTERMOST.rows[0x200];
    assert env.fdes[1..] == [OUTERMOST] && [OUTERMOST][0] == OUTERMOST;
    assert FindFde(env.fdes[1..], 0x200) == Some(OUTERMOST);
    assert FindFde(env.fdes, 0x200) == Some(OUTERMOST);
    assert RuleFor(row.rules, RA) == None;
    ctx' := Caller(env, row, ctx).value;
  }

  /**
   Such twins occur: on this walk the search finds its handler in the second frame, and the second
   phase flags the first one as well.
   */
  lemma OddStackConfuses(ctx: Context, env: Env) returns (w: Walk)
    requires Get(ctx, SP) == 16 && Get(ctx, RA) == 0x101 && env.fdes == [TRAMPOLINE, OUTERMOST]
    ensures IsWalk(env, Point(ctx, false), w) && Outgoing(w) && |w.visits| == 2
    ensures SearchOutcome(HandlesInSignal(), w) == HandlerAt(1)
    ensures HandlerFrame in CleanupActions(w.visits[0].at, HandlerKey(w.visits[1].at))
  {
    hide FromContext, Caller, Get;
    var ctx1 := TwinStep(env, ctx);
    var ctx2 := LastStep(env, ctx1);
    var p1, p2 := Point(ctx1, true), Point(ctx2, false);
    var v0 := Visit(Point(ctx, false), Frame(TRAMPOLINE, TRAMPOLINE.rows[0x100]));
    var v1 := Visit(p1, Frame(OUTERMOST, OUTERMOST.rows[0x200]));
    EndsAtZero(env, p2);
    assert IsPath(env, p2, Walk([], StackEnd(p2)));
    w := Walk([v0, v1], StackEnd(p2));
    assert w.visits[1..] == [v1] && [v1][1..] == [];
    assert IsPath(env, p1, Walk([v1], StackEnd(p2)));
    SearchAt(HandlesInSignal(), w, 1);
    FlagsHandler(w, 1, 0);
  }

  lemma EndsAtZero(env: Env, p: Point)
    requires Get(p.ctx, RA) == 0
    ensures FromContext(env, p) == Success(None)
  {
  }
}
