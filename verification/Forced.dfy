/** Forced unwinding, and resuming either kind of unwinding (src/unwinder/mod.rs:254-381). */
module Forced {
  import opened Words
  import opened Wrappers
  import opened Contexts
  import opened Frames
  import opened Walks
  import opened Abi
  import opened Personality
  import opened Raise
  import opened Scripts

  datatype ForcedCall =
    | StopCall(stop: StopFn, arg: Word, actions: set<Action>, at: Point, frame: Option<Frame>)
    | RoutineCall(actions: set<Action>, visit: Visit)

  /** What a callback answers, given every call made so far, its own included. */
  type Callbacks = seq<ForcedCall> -> Answer

  /** The answer that lets unwinding go on. */
  function Expected(call: ForcedCall): ReasonCode {
    if call.StopCall? then NoReason else ContinueUnwind
  }

  function Accepted(callbacks: Callbacks): seq<ForcedCall> -> bool {
    (log: seq<ForcedCall>) => log != [] && callbacks(log).code == Expected(log[|log| - 1])
  }

  const FORCED: set<Action> := {ForceUnwind, CleanupPhase}

  /** The calls for one frame: the stop function, then the frame's routine if it has one. */
  function VisitCalls(stop: StopFn, arg: Word, v: Visit): seq<ForcedCall> {
    [StopCall(stop, arg, FORCED, v.at, Some(v.frame))] +
    if v.frame.fde.personality.Some? then [RoutineCall(FORCED, v)] else []
  }

  /** The call made where the stack ends. */
  function EndCalls(stop: StopFn, arg: Word, end: End): seq<ForcedCall> {
    if end.StackEnd? then [StopCall(stop, arg, FORCED + {AtEndOfStack}, end.at, None)] else []
  }

  /** The calls of a forced unwinding that is never refused. */
  function Script(stop: StopFn, arg: Word, w: Walk): seq<ForcedCall>
    decreases |w.visits|
  {
    if w.visits != [] then VisitCalls(stop, arg, w.visits[0]) + Script(stop, arg, Walk(w.visits[1..], w.end))
    else EndCalls(stop, arg, w.end)
  }

  /** The code a refused call leads to: only a routine can install a context. */
  function Refusal(call: ForcedCall, code: ReasonCode): ReasonCode {
    if code == Aborted then Aborted
    else if call.RoutineCall? && code == InstallContext then InstallContext
    else FatalPhase2Error
  }

  /**
   The outcome of forced unwinding over a walk: the script is followed up to the first refusal,
   which decides the code; followed to its end, it is the end of the walk that decides.
   */
  ghost predicate Outcome(callbacks: Callbacks, stop: StopFn, arg: Word, w: Walk,
                          log: seq<ForcedCall>, code: ReasonCode, ctx: Context)
  {
    && Plays(Accepted(callbacks), Script(stop, arg, w), log)
    && (PlaysOut(Accepted(callbacks), Script(stop, arg, w), log) ==>
          code == if w.end.StackEnd? then EndOfStack else FatalPhase2Error)
    && (!PlaysOut(Accepted(callbacks), Script(stop, arg, w), log) ==>
          var last := log[|log| - 1];
          && code == Refusal(last, callbacks(log).code)
          && (code == InstallContext ==> ctx == AdjustStackForArgs(last.visit.frame, callbacks(log).ctx)))
  }

  lemma ScriptStep(stop: StopFn, arg: Word, w: Walk, i: nat)
    requires i < |w.visits|
    ensures Script(stop, arg, Suffix(w, i)) == VisitCalls(stop, arg, w.visits[i]) + Script(stop, arg, Suffix(w, i + 1))
  {
    assert w.visits[i..][1..] == w.visits[i + 1..];
  }

  lemma ScriptEnd(stop: StopFn, arg: Word, w: Walk)
    ensures Script(stop, arg, Suffix(w, |w.visits|)) ==
            EndCalls(stop, arg, w.end)
  {
  }

  lemma Refused(callbacks: Callbacks, stop: StopFn, arg: Word, w: Walk, log: seq<ForcedCall>, call: ForcedCall,
                rest: seq<ForcedCall>, ctx: Context)
    requires Playing(Accepted(callbacks), Script(stop, arg, w), log, [call] + rest)
    requires callbacks(log + [call]).code != Expected(call)
    requires call.RoutineCall? && callbacks(log + [call]).code == InstallContext ==>
               ctx == AdjustStackForArgs(call.visit.frame, callbacks(log + [call]).ctx)
    ensures Outcome(callbacks, stop, arg, w, log + [call], Refusal(call, callbacks(log + [call]).code), ctx)
  {
    hide Playing, Script, AdjustStackForArgs;
    PlayOne(Accepted(callbacks), Script(stop, arg, w), log, call, rest);
  }

  lemma AllPlayed(callbacks: Callbacks, stop: StopFn, arg: Word, w: Walk, log: seq<ForcedCall>, ctx: Context)
    requires Playing(Accepted(callbacks), Script(stop, arg, w), log, [])
    ensures Outcome(callbacks, stop, arg, w, log, if w.end.StackEnd? then EndOfStack else FatalPhase2Error, ctx)
  {
    hide Playing, Script, AdjustStackForArgs;
    PlayedAll(Accepted(callbacks), Script(stop, arg, w), log);
  }

  /** A path that is not followed to its end must be followed at least to the first refusal. */
  ghost predicate FollowedToRefusal(callbacks: Callbacks, stop: StopFn, arg: Word, w: Walk) {
    w.end.GoesOn? ==> !PlaysOut(Accepted(callbacks), Script(stop, arg, w), Script(stop, arg, w))
  }

  lemma CallAhead(callbacks: Callbacks, stop: StopFn, arg: Word, w: Walk, log: seq<ForcedCall>, i: nat)
    requires FollowedToRefusal(callbacks, stop, arg, w) && i <= |w.visits|
    requires Playing(Accepted(callbacks), Script(stop, arg, w), log, Script(stop, arg, Suffix(w, i)))
    ensures w.end.GoesOn? ==> i < |w.visits|
  {
    hide Playing, PlaysOut;
    if w.end.GoesOn? && i == |w.visits| {
      ScriptEnd(stop, arg, w);
      PlayedAll(Accepted(callbacks), Script(stop, arg, w), log);
    }
  }

  /** `force_unwind_phase2`. */
  method ForceUnwindPhase2(env: Env, callbacks: Callbacks, saved: SavedContext, stop: StopFn, arg: Word, ghost w: Walk)
    returns (code: ReasonCode, log: seq<ForcedCall>)
    requires IsPath(env, Point(saved.ctx, false), w) && FollowedToRefusal(callbacks, stop, arg, w)
    modifies saved
    ensures Outcome(callbacks, stop, arg, w, log, code, saved.ctx)
  {
    hide FromContext, Next, Caller, IsPath, Script, Outcome, Playing, AdjustStackForArgs, FollowedToRefusal, PlaysOut,
         Plays;
    var signal := false;
    ghost var i := 0;
    log := [];
    assert Suffix(w, 0) == w;
    StartPlaying(Accepted(callbacks), Script(stop, arg, w));
    while true
      invariant i <= |w.visits| && IsPath(env, Point(saved.ctx, signal), Suffix(w, i))
      invariant Playing(Accepted(callbacks), Script(stop, arg, w), log, Script(stop, arg, Suffix(w, i)))
      decreases |w.visits| - i
    {
      CallAhead(callbacks, stop, arg, w, log, i);
      var p := Point(saved.ctx, signal);
      var found := FromContext(env, p);
      if found.Failure? {
        VisitsDone(env, w, i, p);
        ScriptEnd(stop, arg, w);
        AllPlayed(callbacks, stop, arg, w, log, saved.ctx);
        return FatalPhase2Error, log;
      }
      var frame := found.value;

      ghost var rest: seq<ForcedCall>;
      ghost var calls: seq<ForcedCall> := [];
      if frame.None? {
        VisitsDone(env, w, i, p);
        ScriptEnd(stop, arg, w);
        rest := [];
      } else {
        VisitsLeft(env, w, i, p, frame.value);
        ScriptStep(stop, arg, w, i);
        calls := VisitCalls(stop, arg, w.visits[i])[1..];
        rest := calls + Script(stop, arg, Suffix(w, i + 1));
      }
      var actions := FORCED + if frame.None? then {AtEndOfStack} else {};
      assert FORCED + {} == FORCED;
      var stopCall := StopCall(stop, arg, actions, p, frame);
      assert Script(stop, arg, Suffix(w, i)) == [stopCall] + rest;
      var answer := callbacks(log + [stopCall]);
      if answer.code != NoReason {
        Refused(callbacks, stop, arg, w, log, stopCall, rest, saved.ctx);
        return if answer.code == Aborted then Aborted else FatalPhase2Error, log + [stopCall];
      }
      PlayOne(Accepted(callbacks), Script(stop, arg, w), log, stopCall, rest);
      log := log + [stopCall];

      if frame.None? {
        AllPlayed(callbacks, stop, arg, w, log, saved.ctx);
        return EndOfStack, log;
      }
      var v := Visit(p, frame.value);
      if frame.value.fde.personality.Some? {
        var routineCall := RoutineCall(FORCED, v);
        ghost var more := Script(stop, arg, Suffix(w, i + 1));
        assert rest == [routineCall] + more;
        answer := callbacks(log + [routineCall]);
        if answer.code != ContinueUnwind {
          if answer.code == InstallContext {
            saved.ctx := AdjustStackForArgs(frame.value, answer.ctx);
          }
          Refused(callbacks, stop, arg, w, log, routineCall, more, saved.ctx);
          return if answer.code == InstallContext then InstallContext
                 else if answer.code == Aborted then Aborted else FatalPhase2Error, log + [routineCall];
        }
        PlayOne(Accepted(callbacks), Script(stop, arg, w), log, routineCall, more);
        log := log + [routineCall];
      } else {
        assert rest == Script(stop, arg, Suffix(w, i + 1));
      }

      var caller := Unwind(env, frame.value.row, p.ctx);
      NextIs(env, v, caller);
      if caller.Failure? {
        ScriptEnd(stop, arg, w);
        AllPlayed(callbacks, stop, arg, w, log, saved.ctx);
        return FatalPhase2Error, log;
      }
      saved.ctx := caller.value;
      signal := frame.value.fde.trampoline;
      i := i + 1;
    }
  }

  /**
   END_OF_STACK is returned exactly when the walk reached the end of the stack and the stop function
   accepted its last call, the one flagged with the end.
   */
  lemma EndOfStackAccepted(callbacks: Callbacks, stop: StopFn, arg: Word, w: Walk, log: seq<ForcedCall>,
                           code: ReasonCode, ctx: Context)
    requires Outcome(callbacks, stop, arg, w, log, code, ctx)
    ensures code == EndOfStack <==>
            && w.end.StackEnd? && log == Script(stop, arg, w)
            && log != [] && log[|log| - 1] == StopCall(stop, arg, FORCED + {AtEndOfStack}, w.end.at, None)
            && callbacks(log).code == NoReason
  {
    if w.end.StackEnd? {
      LastIsEnd(stop, arg, w);
    }
  }

  lemma {:induction false} LastIsEnd(stop: StopFn, arg: Word, w: Walk)
    requires w.end.StackEnd?
    ensures var script := Script(stop, arg, w);
            script != [] && script[|script| - 1] == StopCall(stop, arg, FORCED + {AtEndOfStack}, w.end.at, None)
    decreases |w.visits|
  {
    if w.visits != [] {
      LastIsEnd(stop, arg, Walk(w.visits[1..], w.end));
    }
  }

  // ----- What the script says -----

  function StopsOf(calls: seq<ForcedCall>): seq<ForcedCall> {
    if calls == [] then []
    else (if calls[0].StopCall? then [calls[0]] else []) + StopsOf(calls[1..])
  }

  lemma {:induction false} StopsOfSum(a: seq<ForcedCall>, b: seq<ForcedCall>)
    ensures StopsOf(a + b) == StopsOf(a) + StopsOf(b)
  {
    if a == [] {
      assert a + b == b;
    } else {
      assert (a + b)[1..] == a[1..] + b && (a + b)[0] == a[0];
      StopsOfSum(a[1..], b);
      Regroup(if a[0].StopCall? then [a[0]] else [], StopsOf(a[1..]), StopsOf(b));
    }
  }

  lemma Regroup<T>(a: seq<T>, b: seq<T>, c: seq<T>)
    ensures (a + b) + c == a + (b + c)
  {
  }

  /** The stop calls are one for each visited frame, in order, and one more where the stack ends. */
  lemma {:induction false} StopsOncePerFrame(stop: StopFn, arg: Word, w: Walk)
    ensures StopsOf(Script(stop, arg, w)) ==
            seq(|w.visits|, i requires 0 <= i < |w.visits| =>
                  StopCall(stop, arg, FORCED, w.visits[i].at, Some(w.visits[i].frame))) +
            EndCalls(stop, arg, w.end)
    decreases |w.visits|
  {
    hide StopsOf, VisitCalls;
    if w.visits != [] {
      var rest := Walk(w.visits[1..], w.end);
      StopsOncePerFrame(stop, arg, rest);
      StopsOfSum(VisitCalls(stop, arg, w.visits[0]), Script(stop, arg, rest));
      StopsOfVisit(stop, arg, w.visits[0]);
    } else {
      StopsOfEnd(stop, arg, w);
    }
  }

  lemma StopsOfVisit(stop: StopFn, arg: Word, v: Visit)
    ensures StopsOf(VisitCalls(stop, arg, v)) == [StopCall(stop, arg, FORCED, v.at, Some(v.frame))]
  {
    var calls := VisitCalls(stop, arg, v);
    assert calls[1..] == if v.frame.fde.personality.Some? then [RoutineCall(FORCED, v)] else [];
    assert StopsOf(calls[1..]) == [];
  }

  lemma StopsOfEnd(stop: StopFn, arg: Word, w: Walk)
    requires w.visits == []
    ensures StopsOf(Script(stop, arg, w)) == Script(stop, arg, w)
  {
  }

  /** What holds of the `i`-th call of a script for a walk that ends in `end`. */
  ghost predicate InOrder(stop: StopFn, arg: Word, end: End, script: seq<ForcedCall>, i: nat)
    requires i < |script|
  {
    match script[i]
    case StopCall(s, a, actions, p, frame) =>
      && s == stop && a == arg
      && (frame == None <==> i == |script| - 1 && end.StackEnd?)
      && actions == (if frame == None then {ForceUnwind, CleanupPhase, AtEndOfStack} else {ForceUnwind, CleanupPhase})
      && (frame.Some? && frame.value.fde.personality.Some? ==>
            i + 1 < |script| && script[i + 1] == RoutineCall({ForceUnwind, CleanupPhase}, Visit(p, frame.value)))
    case RoutineCall(actions, v) =>
      && actions == {ForceUnwind, CleanupPhase} && !(i == |script| - 1 && end.StackEnd?)
      && v.frame.fde.personality.Some?
      && i > 0 && script[i - 1] == StopCall(stop, arg, {ForceUnwind, CleanupPhase}, v.at, Some(v.frame))
  }

  /**
   Every call of the stop function carries the one argument, and is followed by a call of the frame's
   routine just when the frame has one; no routine is called otherwise. Both are told that unwinding
   is forced and cleans up; the end of the stack is flagged in the last call, when the walk ends there,
   and in no other.
   */
  lemma {:induction false} ScriptOrder(stop: StopFn, arg: Word, w: Walk)
    ensures forall i | 0 <= i < |Script(stop, arg, w)| :: InOrder(stop, arg, w.end, Script(stop, arg, w), i)
    decreases |w.visits|
  {
    if w.visits != [] {
      var rest := Walk(w.visits[1..], w.end);
      var head, tail := VisitCalls(stop, arg, w.visits[0]), Script(stop, arg, rest);
      ScriptOrder(stop, arg, rest);
      EndIsLast(stop, arg, rest);
      forall i | 0 <= i < |head + tail| ensures InOrder(stop, arg, w.end, head + tail, i) {
        if |head| <= i {
          assert InOrder(stop, arg, w.end, tail, i - |head|);
          assert (head + tail)[i] == tail[i - |head|];
          if |head| < i { assert (head + tail)[i - 1] == tail[i - 1 - |head|]; }
          if i + 1 < |head + tail| { assert (head + tail)[i + 1] == tail[i + 1 - |head|]; }
        }
      }
    }
  }

  function RoutinesOf(calls: seq<ForcedCall>): seq<ForcedCall> {
    if calls == [] then []
    else (if calls[0].RoutineCall? then [calls[0]] else []) + RoutinesOf(calls[1..])
  }

  lemma {:induction false} RoutinesOfSum(a: seq<ForcedCall>, b: seq<ForcedCall>)
    ensures RoutinesOf(a + b) == RoutinesOf(a) + RoutinesOf(b)
  {
    if a == [] {
      assert a + b == b;
    } else {
      assert (a + b)[1..] == a[1..] + b && (a + b)[0] == a[0];
      RoutinesOfSum(a[1..], b);
      Regroup(if a[0].RoutineCall? then [a[0]] else [], RoutinesOf(a[1..]), RoutinesOf(b));
    }
  }

  /** One routine call for each visit whose frame has a routine, in order. */
  function RoutineCalls(visits: seq<Visit>): seq<ForcedCall> {
    if visits == [] then []
    else (if visits[0].frame.fde.personality.Some? then [RoutineCall({ForceUnwind, CleanupPhase}, visits[0])] else [])
         + RoutineCalls(visits[1..])
  }

  /** The routine calls are exactly one for each visited frame that has a routine, in order. */
  lemma {:induction false} RoutinesOncePerFrame(stop: StopFn, arg: Word, w: Walk)
    ensures RoutinesOf(Script(stop, arg, w)) == RoutineCalls(w.visits)
    decreases |w.visits|
  {
    hide RoutinesOf, VisitCalls;
    if w.visits != [] {
      var rest := Walk(w.visits[1..], w.end);
      RoutinesOncePerFrame(stop, arg, rest);
      RoutinesOfSum(VisitCalls(stop, arg, w.visits[0]), Script(stop, arg, rest));
      RoutinesOfVisit(stop, arg, w.visits[0]);
    } else {
      RoutinesOfEnd(stop, arg, w);
    }
  }

  lemma RoutinesOfVisit(stop: StopFn, arg: Word, v: Visit)
    ensures RoutinesOf(VisitCalls(stop, arg, v)) == RoutineCalls([v])
  {
    var calls, routine := VisitCalls(stop, arg, v), RoutineCall(FORCED, v);
    assert [v][1..] == [] && RoutinesOf([]) == [];
    if v.frame.fde.personality.Some? {
      assert calls[1..] == [routine] && [routine][1..] == [];
      assert RoutinesOf([routine]) == [routine];
    } else {
      assert calls[1..] == [];
    }
  }

  lemma RoutinesOfEnd(stop: StopFn, arg: Word, w: Walk)
    requires w.visits == []
    ensures RoutinesOf(Script(stop, arg, w)) == []
  {
  }

  /** Each call but the last was answered with the code that lets unwinding go on. */
  ghost predicate WentOn(callbacks: Callbacks, log: seq<ForcedCall>, n: nat)
    requires 1 <= n <= |log|
  {
    callbacks(log[..n]).code == if log[n - 1].StopCall? then NoReason else ContinueUnwind
  }

  /**
   What decides a forced unwinding. Every call but the last let it go on. If the last did not, it is a
   routine that answered INSTALL_CONTEXT, whose registers are installed with the arguments dropped, or
   the unwinding fails; if it did, the walk ended, and its end decides.
   */
  lemma LastCallDecides(callbacks: Callbacks, stop: StopFn, arg: Word, w: Walk, log: seq<ForcedCall>,
                        code: ReasonCode, ctx: Context)
    requires Outcome(callbacks, stop, arg, w, log, code, ctx)
    ensures log <= Script(stop, arg, w)
    ensures forall n | 1 <= n < |log| :: WentOn(callbacks, log, n)
    ensures log != [] && !WentOn(callbacks, log, |log|) ==>
              var last, answer := log[|log| - 1], callbacks(log);
              if last.RoutineCall? && answer.code == InstallContext
              then code == InstallContext && Installed(last.visit, answer.ctx, ctx)
              else code == if answer.code == Aborted then Aborted else FatalPhase2Error
    ensures log == [] || WentOn(callbacks, log, |log|) ==>
              log == Script(stop, arg, w) && code == if w.end.StackEnd? then EndOfStack else FatalPhase2Error
  {
    hide Script;
    assert log[..|log|] == log;
    forall n | 1 <= n < |log| ensures WentOn(callbacks, log, n) {
      assert Accepted(callbacks)(log[..n]);
    }
  }

  /** The routine's registers, with the stack pointer (register 7) past the arguments. */
  ghost predicate Installed(v: Visit, answered: Context, ctx: Context) {
    forall r: Reg :: Get(ctx, r) ==
      if r == 7 then (Get(answered, 7) + v.frame.row.savedArgsSize) % WORD else Get(answered, r)
  }

  lemma EndIsLast(stop: StopFn, arg: Word, w: Walk)
    ensures w.end.StackEnd? ==> Script(stop, arg, w) != []
  {
  }

  // ----- The entry points -----

  /** `_Unwind_ForcedUnwind`: the stop function and its argument are kept in the exception. */
  method ForcedUnwind(env: Env, callbacks: Callbacks, exception: UnwindException, saved: SavedContext,
                      stop: StopFn, arg: Word, ghost w: Walk)
    returns (ending: Ending, ghost code: ReasonCode, log: seq<ForcedCall>)
    requires IsPath(env, Point(saved.ctx, false), w) && FollowedToRefusal(callbacks, stop, arg, w)
    modifies exception, saved
    ensures exception.private1 == Some(stop) && exception.private2 == arg
    ensures Outcome(callbacks, stop, arg, w, log, code, saved.ctx)
    ensures ending == if code == InstallContext then Resumed else if code == Aborted then Panicked else Returned(code)
  {
    exception.private1 := Some(stop);
    exception.private2 := arg;
    var result;
    result, log := ForceUnwindPhase2(env, callbacks, saved, stop, arg, w);
    code := result;
    ending := if result == InstallContext then Resumed else if result == Aborted then Panicked else Returned(result);
  }

  /**
   `_Unwind_Resume`: `private1` tells which kind of unwinding goes on and how `private2` is read.
   It never returns: anything but an installed context fails its assertion.
   */
  method Resume(env: Env, routine: Routine, callbacks: Callbacks, exception: UnwindException, saved: SavedContext,
                ghost w: Walk)
    returns (ending: Ending, ghost code: ReasonCode, ghost cleaned: seq<Call>, log: seq<ForcedCall>)
    requires IsPath(env, Point(saved.ctx, false), w)
    requires match exception.private1
             case None => FollowedToStop(Cleaning(routine, exception.private2), w)
             case Some(stop) => FollowedToRefusal(callbacks, stop, exception.private2, w)
    modifies saved
    ensures ending == if code == InstallContext then Resumed else Panicked
    ensures match exception.private1
            case None =>
              var key := exception.private2;
              && log == []
              && cleaned == CleanupCalls(key, Upto(w.visits, FirstStop(Cleaning(routine, key), w.visits)))
              && (match CleanupOutcome(routine, w.visits, key)
                  case Installs(_, ctx) => code == InstallContext && saved.ctx == ctx
                  case Fails(failure) => code == failure)
            case Some(stop) =>
              cleaned == [] && Outcome(callbacks, stop, exception.private2, w, log, code, saved.ctx)
  {
    hide CleanupOutcome, Outcome, IsPath, Cleaning, FirstStop;
    log, cleaned := [], [];
    var result;
    match exception.private1 {
      case None =>
        result, cleaned := RaisePhase2(env, routine, saved, exception.private2, w);
      case Some(stop) =>
        result, log := ForceUnwindPhase2(env, callbacks, saved, stop, exception.private2, w);
    }
    code := result;
    ending := if result == InstallContext then Resumed else Panicked;
  }

  /**
   `_Unwind_Resume_or_Rethrow`: an exception that was raised is raised afresh; one being forced
   goes on with the stop function and argument it holds.
   */
  method ResumeOrRethrow(env: Env, routine: Routine, callbacks: Callbacks, exception: UnwindException,
                         saved: SavedContext, ghost w: Walk)
    returns (ending: Ending, ghost code: ReasonCode, log: seq<ForcedCall>)
    requires IsPath(env, Point(saved.ctx, false), w)
    requires match exception.private1
             case None => RaiseFollowed(routine, w)
             case Some(stop) => FollowedToRefusal(callbacks, stop, exception.private2, w)
    modifies exception, saved
    ensures old(exception.private1) == None ==>
      match SearchOutcome(routine, w)
      case SearchFails(failure) =>
        ending == failure && exception.private1 == None && exception.private2 == old(exception.private2)
      case HandlerAt(h) =>
        var key := HandlerKey(w.visits[h].at);
        && exception.private1 == None && exception.private2 == key
        && (match CleanupOutcome(routine, w.visits, key)
            case Installs(_, ctx) => ending == Resumed && saved.ctx == ctx
            case Fails(failure) => ending == if failure == Aborted then Panicked else Returned(failure))
    ensures match old(exception.private1)
            case None => true
            case Some(stop) =>
              && exception.private1 == old(exception.private1) && exception.private2 == old(exception.private2)
              && Outcome(callbacks, stop, exception.private2, w, log, code, saved.ctx)
              && ending == if code == InstallContext then Resumed else Panicked
  {
    hide CleanupOutcome, SearchOutcome, Outcome, IsPath, HandlerKey;
    log := [];
    if exception.private1 == None {
      ghost var searched, cleaned;
      ending, searched, cleaned := RaiseException(env, routine, exception, saved, w);
      code := NoReason;
    } else {
      var result;
      result, log := ForceUnwindPhase2(env, callbacks, saved, exception.private1.value, exception.private2, w);
      code := result;
      ending := if result == InstallContext then Resumed else Panicked;
    }
  }
}
