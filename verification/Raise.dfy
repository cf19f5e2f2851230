/** Raising an exception in two phases (src/unwinder/mod.rs:150-252). */
module Raise {
  import opened Words
  import opened Wrappers
  import opened Contexts
  import opened Frames
  import opened Walks
  import opened Abi
  import opened Personality

  /** What the personality routine named by a frame answers; it has no state of its own. */
  type Routine = (set<Action>, Visit) -> Answer

  type StopFn = nat

  class UnwindException {
    var private1: Option<StopFn>
    var private2: Word
  }

  class SavedContext {
    var ctx: Context
  }

  /** How a call ends: by returning, by `restore_context` on the saved context, or by a panic. */
  datatype Ending = Returned(code: ReasonCode) | Resumed | Panicked

  /** Disambiguates a signal frame from a normal frame with the same stack pointer. */
  function HandlerKey(p: Point): Word {
    WrappingSub(Get(p.ctx, SP), if p.signal then 1 else 0)
  }

  function CleanupActions(p: Point, handlerCfa: Word): set<Action> {
    {CleanupPhase} + if HandlerKey(p) == handlerCfa then {HandlerFrame} else {}
  }

  /** The code that decides whether the walk goes on; a frame without a routine lets it. */
  function Ask(routine: Routine, actions: set<Action>, v: Visit): ReasonCode {
    if v.frame.fde.personality.Some? then routine(actions, v).code else ContinueUnwind
  }

  function Searching(routine: Routine): Visit -> ReasonCode {
    (v: Visit) => Ask(routine, {SearchPhase}, v)
  }

  function Cleaning(routine: Routine, handlerCfa: Word): Visit -> ReasonCode {
    (v: Visit) => Ask(routine, CleanupActions(v.at, handlerCfa), v)
  }

  /** The first visit whose code does not let the walk go on, or the number of visits. */
  function FirstStop(code: Visit -> ReasonCode, visits: seq<Visit>): (k: nat)
    ensures k <= |visits|
    ensures forall j | 0 <= j < k :: code(visits[j]) == ContinueUnwind
    ensures k < |visits| ==> code(visits[k]) != ContinueUnwind
  {
    if visits == [] || code(visits[0]) != ContinueUnwind then 0
    else
      assert forall j | 1 <= j < |visits| :: visits[j] == visits[1..][j - 1];
      1 + FirstStop(code, visits[1..])
  }

  lemma FirstStopIs(code: Visit -> ReasonCode, visits: seq<Visit>, k: nat)
    requires k <= |visits|
    requires forall j | 0 <= j < k :: code(visits[j]) == ContinueUnwind
    requires k < |visits| ==> code(visits[k]) != ContinueUnwind
    ensures FirstStop(code, visits) == k
  {
  }

  /** A path that is not followed to its end must be followed at least to the visit where the walk stops. */
  ghost predicate FollowedToStop(code: Visit -> ReasonCode, w: Walk) {
    w.end.GoesOn? ==> FirstStop(code, w.visits) < |w.visits|
  }

  /** Before the stop there is a visit left. */
  lemma VisitAhead(code: Visit -> ReasonCode, w: Walk, i: nat)
    requires FollowedToStop(code, w) && i <= |w.visits|
    requires forall j | 0 <= j < i :: code(w.visits[j]) == ContinueUnwind
    ensures w.end.GoesOn? ==> i < |w.visits|
  {
    if i == |w.visits| { FirstStopIs(code, w.visits, i); }
  }

  datatype Call = Call(actions: set<Action>, visit: Visit)

  /** The calls of routines while walking over `visits`, frame by frame. */
  ghost function Calls(actions: Visit -> set<Action>, visits: seq<Visit>): seq<Call> {
    if visits == [] then []
    else
      var v := visits[|visits| - 1];
      Calls(actions, visits[..|visits| - 1]) + if v.frame.fde.personality.Some? then [Call(actions(v), v)] else []
  }

  ghost function SearchCalls(visits: seq<Visit>): seq<Call> {
    Calls((_: Visit) => {SearchPhase}, visits)
  }

  ghost function CleanupCalls(handlerCfa: Word, visits: seq<Visit>): seq<Call> {
    Calls((v: Visit) => CleanupActions(v.at, handlerCfa), visits)
  }

  function Upto(visits: seq<Visit>, k: nat): seq<Visit> {
    if k < |visits| then visits[..k + 1] else visits
  }

  datatype CleanupResult = Installs(index: nat, ctx: Context) | Fails(code: ReasonCode)

  /** The outcome of the second phase on a walk. */
  function CleanupOutcome(routine: Routine, visits: seq<Visit>, handlerCfa: Word): (r: CleanupResult)
    ensures r.Fails? ==> r.code == FatalPhase2Error || r.code == Aborted
  {
    var k := FirstStop(Cleaning(routine, handlerCfa), visits);
    if k == |visits| then Fails(FatalPhase2Error)
    else
      var answer := routine(CleanupActions(visits[k].at, handlerCfa), visits[k]);
      if answer.code == InstallContext then Installs(k, AdjustStackForArgs(visits[k].frame, answer.ctx))
      else Fails(if answer.code == Aborted then Aborted else FatalPhase2Error)
  }

  lemma OutcomeAt(routine: Routine, visits: seq<Visit>, handlerCfa: Word, k: nat)
    requires k <= |visits|
    requires forall j | 0 <= j < k :: Cleaning(routine, handlerCfa)(visits[j]) == ContinueUnwind
    requires k < |visits| ==> Cleaning(routine, handlerCfa)(visits[k]) != ContinueUnwind
    ensures FirstStop(Cleaning(routine, handlerCfa), visits) == k
    ensures CleanupOutcome(routine, visits, handlerCfa) ==
            if k == |visits| then Fails(FatalPhase2Error)
            else
              var answer := routine(CleanupActions(visits[k].at, handlerCfa), visits[k]);
              if answer.code == InstallContext then Installs(k, AdjustStackForArgs(visits[k].frame, answer.ctx))
              else Fails(if answer.code == Aborted then Aborted else FatalPhase2Error)
  {
    FirstStopIs(Cleaning(routine, handlerCfa), visits, k);
  }

  lemma NoCalls(actions: Visit -> set<Action>)
    ensures Calls(actions, []) == []
  {
  }

  /** One more visit adds one call, or none when its frame has no routine. */
  lemma CallsStep(actions: Visit -> set<Action>, visits: seq<Visit>, i: nat)
    requires i < |visits|
    ensures Calls(actions, visits[..i + 1]) ==
            Calls(actions, visits[..i]) +
            if visits[i].frame.fde.personality.Some? then [Call(actions(visits[i]), visits[i])] else []
  {
    assert visits[..i + 1][..i] == visits[..i];
  }

  /** Where a frame is found, the walk has a visit there, and goes on as `Next` says. */
  lemma VisitsLeft(env: Env, w: Walk, i: nat, p: Point, frame: Frame)
    requires i <= |w.visits| && IsPath(env, p, Suffix(w, i)) && (w.end.GoesOn? ==> i < |w.visits|)
    requires FromContext(env, p) == Success(Some(frame))
    ensures i < |w.visits| && w.visits[i] == Visit(p, frame)
    ensures match Next(env, w.visits[i])
            case Failure => i + 1 == |w.visits| && w.end == BadInfo
            case Success(q) => IsPath(env, q, Suffix(w, i + 1))
  {
    hide FromContext, Next;
    assert w.visits[i..][1..] == w.visits[i + 1..];
  }

  /** Where no frame is found, the walk has no visit left and ends there. */
  lemma VisitsDone(env: Env, w: Walk, i: nat, p: Point)
    requires i <= |w.visits| && IsPath(env, p, Suffix(w, i)) && (w.end.GoesOn? ==> i < |w.visits|)
    requires FromContext(env, p).Failure? || FromContext(env, p).value == None
    ensures i == |w.visits| && w.visits[..i] == w.visits
    ensures w.end == if FromContext(env, p).Failure? then BadInfo else StackEnd(p)
  {
    hide FromContext, Next;
  }

  lemma NextIs(env: Env, v: Visit, caller: Result<Context>)
    requires caller == Caller(env, v.frame.row, v.at.ctx)
    ensures Next(env, v) == if caller.Failure? then Failure else Success(Point(caller.value, v.frame.fde.trampoline))
  {
    hide Caller;
  }

  /** `raise_exception_phase2`. */
  method RaisePhase2(env: Env, routine: Routine, saved: SavedContext, handlerCfa: Word, ghost w: Walk)
    returns (code: ReasonCode, ghost calls: seq<Call>)
    requires IsPath(env, Point(saved.ctx, false), w) && FollowedToStop(Cleaning(routine, handlerCfa), w)
    modifies saved
    ensures match CleanupOutcome(routine, w.visits, handlerCfa)
            case Installs(_, ctx) => code == InstallContext && saved.ctx == ctx
            case Fails(failure) => code == failure
    ensures calls == CleanupCalls(handlerCfa, Upto(w.visits, FirstStop(Cleaning(routine, handlerCfa), w.visits)))
  {
    hide FromContext, Next, Caller, IsPath, FirstStop, CleanupOutcome, Calls, AdjustStackForArgs, HandlerKey,
         FollowedToStop;
    var signal := false;
    ghost var i := 0;
    ghost var flags := (v: Visit) => CleanupActions(v.at, handlerCfa);
    calls := [];
    assert Suffix(w, 0) == w;
    NoCalls(flags);
    while true
      invariant i <= |w.visits| && IsPath(env, Point(saved.ctx, signal), Suffix(w, i))
      invariant forall j | 0 <= j < i :: Cleaning(routine, handlerCfa)(w.visits[j]) == ContinueUnwind
      invariant calls == CleanupCalls(handlerCfa, w.visits[..i])
      decreases |w.visits| - i
    {
      VisitAhead(Cleaning(routine, handlerCfa), w, i);
      var p := Point(saved.ctx, signal);
      var found := FromContext(env, p);
      if found.Failure? || found.value == None {
        VisitsDone(env, w, i, p);
        OutcomeAt(routine, w.visits, handlerCfa, i);
        return FatalPhase2Error, calls;
      }
      var frame := found.value.value;
      var v := Visit(p, frame);
      VisitsLeft(env, w, i, p, frame);
      CallsStep(flags, w.visits, i);
      var frameCfa := HandlerKey(p);
      if frame.fde.personality.Some? {
        var actions := {CleanupPhase} + if frameCfa == handlerCfa then {HandlerFrame} else {};
        var answer := routine(actions, v);
        calls := calls + [Call(actions, v)];
        if answer.code != ContinueUnwind {
          OutcomeAt(routine, w.visits, handlerCfa, i);
          if answer.code == InstallContext {
            saved.ctx := AdjustStackForArgs(frame, answer.ctx);
            return InstallContext, calls;
          }
          return if answer.code == Aborted then Aborted else FatalPhase2Error, calls;
        }
      }
      var caller := Unwind(env, frame.row, p.ctx);
      NextIs(env, v, caller);
      if caller.Failure? {
        assert w.visits[..i + 1] == w.visits;
        OutcomeAt(routine, w.visits, handlerCfa, i + 1);
        return FatalPhase2Error, calls;
      }
      saved.ctx := caller.value;
      signal := frame.fde.trampoline;
      i := i + 1;
    }
  }

  datatype SearchResult = HandlerAt(index: nat) | SearchFails(ending: Ending)

  /** The outcome of the first phase on a walk. */
  function SearchOutcome(routine: Routine, w: Walk): (r: SearchResult)
    ensures r.HandlerAt? ==> r.index < |w.visits|
  {
    var k := FirstStop(Searching(routine), w.visits);
    if k == |w.visits| then SearchFails(Returned(if w.end.StackEnd? then EndOfStack else FatalPhase1Error))
    else
      var code := Searching(routine)(w.visits[k]);
      if code == HandlerFound then HandlerAt(k)
      else SearchFails(if code == Aborted then Panicked else Returned(FatalPhase1Error))
  }

  lemma SearchAt(routine: Routine, w: Walk, k: nat)
    requires k <= |w.visits|
    requires forall j | 0 <= j < k :: Searching(routine)(w.visits[j]) == ContinueUnwind
    requires k < |w.visits| ==> Searching(routine)(w.visits[k]) != ContinueUnwind
    ensures FirstStop(Searching(routine), w.visits) == k
    ensures SearchOutcome(routine, w) ==
            if k == |w.visits| then SearchFails(Returned(if w.end.StackEnd? then EndOfStack else FatalPhase1Error))
            else
              var code := Searching(routine)(w.visits[k]);
              if code == HandlerFound then HandlerAt(k)
              else SearchFails(if code == Aborted then Panicked else Returned(FatalPhase1Error))
  {
    FirstStopIs(Searching(routine), w.visits, k);
  }

  /** The path reaches where the search stops and, if that is at a handler, where the second phase stops. */
  ghost predicate RaiseFollowed(routine: Routine, w: Walk) {
    && FollowedToStop(Searching(routine), w)
    && match SearchOutcome(routine, w)
       case HandlerAt(h) => FollowedToStop(Cleaning(routine, HandlerKey(w.visits[h].at)), w)
       case SearchFails(_) => true
  }

  lemma RaiseFollowedIs(routine: Routine, w: Walk)
    requires RaiseFollowed(routine, w)
    ensures FollowedToStop(Searching(routine), w)
    ensures SearchOutcome(routine, w).HandlerAt? ==>
              FollowedToStop(Cleaning(routine, HandlerKey(w.visits[SearchOutcome(routine, w).index].at)), w)
  {
    hide SearchOutcome, FollowedToStop, HandlerKey;
  }

  /**
   `_Unwind_RaiseException`: the search runs on a copy, so a search that finds no handler leaves
   the exception and the saved context alone; otherwise the second phase decides.
   */
  method RaiseException(env: Env, routine: Routine, exception: UnwindException, saved: SavedContext, ghost w: Walk)
    returns (ending: Ending, ghost searched: seq<Call>, ghost cleaned: seq<Call>)
    requires IsPath(env, Point(saved.ctx, false), w) && RaiseFollowed(routine, w)
    modifies exception, saved
    ensures searched == SearchCalls(Upto(w.visits, FirstStop(Searching(routine), w.visits)))
    ensures match SearchOutcome(routine, w)
            case SearchFails(failure) =>
              ending == failure && cleaned == [] && saved.ctx == old(saved.ctx) &&
              exception.private1 == old(exception.private1) && exception.private2 == old(exception.private2)
            case HandlerAt(h) =>
              var key := HandlerKey(w.visits[h].at);
              && exception.private1 == None && exception.private2 == key
              && cleaned == CleanupCalls(key, Upto(w.visits, FirstStop(Cleaning(routine, key), w.visits)))
              && match CleanupOutcome(routine, w.visits, key)
                 case Installs(_, ctx) => ending == Resumed && saved.ctx == ctx
                 case Fails(code) => ending == if code == Aborted then Panicked else Returned(code)
  {
    hide FromContext, Next, Caller, IsPath, FirstStop, SearchOutcome, CleanupOutcome, Calls, HandlerKey, RaiseFollowed,
         FollowedToStop;
    RaiseFollowedIs(routine, w);
    var ctx := saved.ctx;
    var signal := false;
    ghost var i := 0;
    ghost var flags := (_: Visit) => {SearchPhase};
    searched, cleaned := [], [];
    assert Suffix(w, 0) == w;
    NoCalls(flags);
    while true
      invariant i <= |w.visits| && IsPath(env, Point(ctx, signal), Suffix(w, i))
      invariant forall j | 0 <= j < i :: Searching(routine)(w.visits[j]) == ContinueUnwind
      invariant searched == SearchCalls(w.visits[..i])
      invariant unchanged(saved) && unchanged(exception)
      decreases |w.visits| - i
    {
      VisitAhead(Searching(routine), w, i);
      var p := Point(ctx, signal);
      var found := FromContext(env, p);
      if found.Failure? || found.value == None {
        VisitsDone(env, w, i, p);
        SearchAt(routine, w, i);
        return Returned(if found.Failure? then FatalPhase1Error else EndOfStack), searched, cleaned;
      }
      var frame := found.value.value;
      var v := Visit(p, frame);
      VisitsLeft(env, w, i, p, frame);
      CallsStep(flags, w.visits, i);
      if frame.fde.personality.Some? {
        var answer := routine({SearchPhase}, v);
        searched := searched + [Call({SearchPhase}, v)];
        if answer.code != ContinueUnwind {
          SearchAt(routine, w, i);
          if answer.code == HandlerFound { break; }
          return if answer.code == Aborted then Panicked else Returned(FatalPhase1Error), searched, cleaned;
        }
      }
      var caller := Unwind(env, frame.row, ctx);
      NextIs(env, v, caller);
      if caller.Failure? {
        assert w.visits[..i + 1] == w.visits;
        SearchAt(routine, w, i + 1);
        return Returned(FatalPhase1Error), searched, cleaned;
      }
      ctx := caller.value;
      signal := frame.fde.trampoline;
      i := i + 1;
    }

    var handlerCfa := HandlerKey(Point(ctx, signal));
    exception.private1 := None;
    exception.private2 := handlerCfa;
    var code;
    code, cleaned := RaisePhase2(env, routine, saved, handlerCfa, w);
    ending := if code == InstallContext then Resumed else if code == Aborted then Panicked else Returned(code);
  }

  // ----- What routines are asked -----

  /** The visits of frames that have a routine, in order. */
  ghost function Asked(visits: seq<Visit>): seq<Visit> {
    if visits == [] then []
    else
      var v := visits[|visits| - 1];
      Asked(visits[..|visits| - 1]) + if v.frame.fde.personality.Some? then [v] else []
  }

  /** The routines called while walking over visits are exactly theirs, in order, each with its actions. */
  lemma {:induction false} CallsAre(actions: Visit -> set<Action>, visits: seq<Visit>)
    ensures |Calls(actions, visits)| == |Asked(visits)|
    ensures forall i | 0 <= i < |Asked(visits)| ::
              Calls(actions, visits)[i] == Call(actions(Asked(visits)[i]), Asked(visits)[i])
  {
    if visits != [] {
      CallsAre(actions, visits[..|visits| - 1]);
    }
  }

  /** A search tells every routine that it is the search phase, and nothing else. */
  lemma SearchAsks(routine: Routine, w: Walk)
    ensures forall v: Visit :: Searching(routine)(v) ==
              if v.frame.fde.personality.Some? then routine({SearchPhase}, v).code else ContinueUnwind
    ensures var k := FirstStop(Searching(routine), w.visits);
            var calls, asked := SearchCalls(Upto(w.visits, k)), Asked(w.visits[..if k < |w.visits| then k + 1 else k]);
            |calls| == |asked| && forall i | 0 <= i < |asked| :: calls[i] == Call({SearchPhase}, asked[i])
  {
    hide FirstStop, Asked, Calls;
    var k := FirstStop(Searching(routine), w.visits);
    assert w.visits[..|w.visits|] == w.visits;
    CallsAre((_: Visit) => {SearchPhase}, Upto(w.visits, k));
  }

  /**
   A second phase tells every routine that it is the cleanup phase, and that its frame is the handler's
   where SP, less one after a signal, is the key; nothing else.
   */
  lemma CleanupAsks(routine: Routine, key: Word, visits: seq<Visit>)
    ensures forall v: Visit :: Cleaning(routine, key)(v) ==
              if v.frame.fde.personality == None then ContinueUnwind
              else if (Get(v.at.ctx, 7) - if v.at.signal then 1 else 0) % WORD == key
              then routine({CleanupPhase, HandlerFrame}, v).code
              else routine({CleanupPhase}, v).code
    ensures var k := FirstStop(Cleaning(routine, key), visits);
            var calls, asked := CleanupCalls(key, Upto(visits, k)), Asked(visits[..if k < |visits| then k + 1 else k]);
            |calls| == |asked| && forall i | 0 <= i < |asked| ::
              && calls[i].visit == asked[i]
              && calls[i].actions == if (Get(asked[i].at.ctx, 7) - if asked[i].at.signal then 1 else 0) % WORD == key
                                     then {CleanupPhase, HandlerFrame} else {CleanupPhase}
  {
    hide FirstStop, Asked, Calls, Get, CleanupActions;
    forall v: Visit { FlagSets(v.at, key); }
    var k := FirstStop(Cleaning(routine, key), visits);
    assert visits[..|visits|] == visits;
    CallsAre((v: Visit) => CleanupActions(v.at, key), Upto(visits, k));
  }

  lemma FlagSets(p: Point, key: Word)
    ensures CleanupActions(p, key) == if (Get(p.ctx, 7) - if p.signal then 1 else 0) % WORD == key
                                      then {CleanupPhase, HandlerFrame} else {CleanupPhase}
  {
  }
}
