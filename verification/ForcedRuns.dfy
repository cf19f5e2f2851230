/** A forced unwinding and the resumes that follow it, over a whole run. */
module ForcedRuns {
  import opened Words
  import opened Wrappers
  import opened Contexts
  import opened Frames
  import opened Walks
  import opened Abi
  import opened Personality
  import opened Raise
  import opened Scripts
  import opened Forced
  import opened Resumption

  /**
   One entry into forced unwinding: what the exception's private fields hold when it begins, the
   callbacks with what they answer from then on, and what `ForceUnwindPhase2` makes of it.
   */
  datatype ForcedStage = ForcedStage(
    stage: Stage,
    private1: Option<StopFn>,
    private2: Word,
    callbacks: Callbacks,
    log: seq<ForcedCall>,
    code: ReasonCode,
    ctx: Context
  )

  /** The stage is what the contracts of `ForcedUnwind` and `Resume` say of a call. */
  ghost predicate IsForcedStage(env: Env, f: ForcedStage) {
    && IsWalk(In(env, f.stage), f.stage.start, f.stage.walk) && !f.stage.start.signal
    && f.private1.Some?
    && Forced.Outcome(f.callbacks, f.private1.value, f.private2, f.stage.walk, f.log, f.code, f.ctx)
  }

  /** The path followed up to and including visit `k`. */
  function Until(w: Walk, k: nat): Walk
    requires k < |w.visits|
  {
    Walk(w.visits[..k + 1], BadInfo)
  }

  /** The routine of visit `k` installed a context, after the calls for the frames up to it. */
  ghost predicate InstallsAt(f: ForcedStage, k: nat) {
    && f.private1.Some? && k < |f.stage.walk.visits| && f.code == InstallContext
    && f.log == Script(f.private1.value, f.private2, Until(f.stage.walk, k))
  }

  lemma {:induction false} CutAtRoutine(stop: StopFn, arg: Word, w: Walk, log: seq<ForcedCall>) returns (k: nat)
    requires log != [] && log <= Script(stop, arg, w) && log[|log| - 1].RoutineCall?
    ensures k < |w.visits| && log == Script(stop, arg, Until(w, k))
    decreases |w.visits|
  {
    hide VisitCalls;
    if w.visits == [] {
      assert false;
    } else {
      var v, rest := w.visits[0], Walk(w.visits[1..], w.end);
      var head, tail := VisitCalls(stop, arg, v), Script(stop, arg, rest);
      VisitCallsAre(stop, arg, v);
      assert Script(stop, arg, w) == head + tail;
      if |log| <= |head| {
        assert log == head[..|log|];
        k := 0;
        FirstUntil(stop, arg, w);
      } else {
        var log' := log[|head|..];
        PrefixPast(head, tail, log);
        var k' := CutAtRoutine(stop, arg, rest, log');
        k := k' + 1;
        UntilStep(stop, arg, w, k);
      }
    }
  }

  lemma PrefixPast<T>(head: seq<T>, tail: seq<T>, log: seq<T>)
    requires log <= head + tail && |head| <= |log|
    ensures log[|head|..] <= tail && log == head + log[|head|..]
  {
    assert (head + tail)[|head|..|log|] == tail[..|log| - |head|];
    assert log == (head + tail)[..|log|];
  }

  lemma VisitCallsAre(stop: StopFn, arg: Word, v: Visit)
    ensures var calls := VisitCalls(stop, arg, v);
            && 1 <= |calls| <= 2 && calls[0].StopCall? && (|calls| == 2 ==> calls[1].RoutineCall?)
  {
  }

  lemma FirstUntil(stop: StopFn, arg: Word, w: Walk)
    requires w.visits != []
    ensures Script(stop, arg, Until(w, 0)) == VisitCalls(stop, arg, w.visits[0])
  {
    hide VisitCalls;
    assert Until(w, 0).visits[1..] == [];
  }

  lemma UntilStep(stop: StopFn, arg: Word, w: Walk, k: nat)
    requires 1 <= k < |w.visits|
    ensures Script(stop, arg, Until(w, k)) ==
            VisitCalls(stop, arg, w.visits[0]) + Script(stop, arg, Until(Walk(w.visits[1..], w.end), k - 1))
  {
    hide VisitCalls;
    assert w.visits[..k + 1][1..] == w.visits[1..][..k];
  }

  /** A stage that installs a context does so at a visit, with the calls of all frames up to it made. */
  lemma InstallsSomewhere(env: Env, f: ForcedStage) returns (k: nat)
    requires IsForcedStage(env, f) && f.code == InstallContext
    ensures InstallsAt(f, k)
  {
    hide IsWalk, Script, AdjustStackForArgs;
    k := CutAtRoutine(f.private1.value, f.private2, f.stage.walk, f.log);
  }

  /** The stop call for a visit. */
  function StopFor(stop: StopFn, arg: Word, v: Visit): ForcedCall {
    StopCall(stop, arg, FORCED, v.at, Some(v.frame))
  }

  lemma {:induction false} StopsCalled(stop: StopFn, arg: Word, w: Walk, j: nat)
    requires j < |w.visits|
    ensures StopFor(stop, arg, w.visits[j]) in Script(stop, arg, w)
    decreases j
  {
    if j == 0 {
      assert Script(stop, arg, w)[0] == StopFor(stop, arg, w.visits[0]);
    } else {
      StopsCalled(stop, arg, Walk(w.visits[1..], w.end), j - 1);
    }
  }

  /**
   `next` is the resume from the landing pad at visit `k` of `f`: the exception holds what it held, the
   walk passes the frames that led back into the unwinder, whose routines let it, and comes to the
   caller of the landing pad's frame. What the frames outside it are unwound from is as it was.
   */
  ghost predicate ForcedOn(env: Env, kept: set<Reg>, f: ForcedStage, k: nat, next: ForcedStage, k': nat) {
    && next.private1 == f.private1 && next.private2 == f.private2
    && k + 1 < |f.stage.walk.visits| && 2 <= next.stage.entry < |next.stage.walk.visits|
    && SamePoint(kept, f.stage.walk.visits[k + 1].at, next.stage.walk.visits[next.stage.entry].at)
    && (forall n | k < n < |f.stage.walk.visits| ::
          SameReads(In(env, f.stage), next.stage.memory, kept, f.stage.walk.visits[n]))
    && next.stage.entry <= k'
  }

  /**
   A forced unwinding begun with `stop` and `arg`, and its resumes. `landings` says at which visit each
   stage left the unwinder; the last one may have gone on to the end instead.
   */
  ghost predicate IsForcedRun(env: Env, kept: set<Reg>, stop: StopFn, arg: Word, run: seq<ForcedStage>,
                              landings: seq<nat>) {
    && run != [] && |landings| == |run| && run[0].stage.entry == 0
    && run[0].private1 == Some(stop) && run[0].private2 == arg
    && (forall t | 0 <= t < |run| :: IsForcedStage(env, run[t]))
    && (forall t | 0 <= t < |run| - 1 :: InstallsAt(run[t], landings[t]))
    && (forall t, u | 0 <= t && u == t + 1 && u < |run| ::
          ForcedOn(env, kept, run[t], landings[t], run[u], landings[u]))
  }

  lemma RunAt(env: Env, kept: set<Reg>, stop: StopFn, arg: Word, run: seq<ForcedStage>, landings: seq<nat>, t: nat)
    requires IsForcedRun(env, kept, stop, arg, run, landings) && t < |run|
    ensures |landings| == |run| && run[0].stage.entry == 0 && run[0].private1 == Some(stop) && run[0].private2 == arg
    ensures IsForcedStage(env, run[t])
    ensures t > 0 ==> InstallsAt(run[t - 1], landings[t - 1])
    ensures t > 0 ==> ForcedOn(env, kept, run[t - 1], landings[t - 1], run[t], landings[t])
  {
    hide IsForcedStage, InstallsAt, ForcedOn;
  }

  /** Every stage, resumes included, calls the stop function that the forced unwinding began with. */
  lemma {:induction false} FieldsKept(env: Env, kept: set<Reg>, stop: StopFn, arg: Word, run: seq<ForcedStage>,
                                      landings: seq<nat>, t: nat)
    requires IsForcedRun(env, kept, stop, arg, run, landings) && t < |run|
    ensures run[t].private1 == Some(stop) && run[t].private2 == arg
    decreases t
  {
    hide IsForcedRun, IsForcedStage, InstallsAt, SamePoint, SameReads;
    RunAt(env, kept, stop, arg, run, landings, t);
    if t > 0 {
      FieldsKept(env, kept, stop, arg, run, landings, t - 1);
    }
  }

  lemma StopCallsCarry(stop: StopFn, arg: Word, w: Walk, log: seq<ForcedCall>, i: nat)
    requires log <= Script(stop, arg, w) && i < |log| && log[i].StopCall?
    ensures log[i].stop == stop && log[i].arg == arg
  {
    hide Script;
    ScriptOrder(stop, arg, w);
    assert InOrder(stop, arg, w.end, Script(stop, arg, w), i);
  }

  /** Every call of a stop function in a whole run is of the first stop function, with the first argument. */
  lemma ForcedRunKeepsStop(env: Env, kept: set<Reg>, stop: StopFn, arg: Word, run: seq<ForcedStage>, landings: seq<nat>,
                           t: nat, i: nat)
    requires IsForcedRun(env, kept, stop, arg, run, landings) && t < |run| && i < |run[t].log|
    ensures run[t].log[i].StopCall? ==> run[t].log[i].stop == stop && run[t].log[i].arg == arg
  {
    hide IsForcedRun, InstallsAt, ForcedOn, IsWalk, Script, PlaysOut, AdjustStackForArgs;
    RunAt(env, kept, stop, arg, run, landings, t);
    FieldsKept(env, kept, stop, arg, run, landings, t);
    if run[t].log[i].StopCall? {
      StopCallsCarry(stop, arg, run[t].stage.walk, run[t].log, i);
    }
  }

  /** The frame of the first walk from which stage `t` still has to unwind. */
  function FromOf(run: seq<ForcedStage>, landings: seq<nat>, t: nat): int
    requires t < |run| && |landings| == |run|
  {
    if t == 0 then 0 else FromOf(run, landings, t - 1) + landings[t - 1] - run[t - 1].stage.entry + 1
  }

  /** Each stage rejoins the first walk where the one before it left off. */
  lemma {:induction false} ForcedRejoins(env: Env, kept: set<Reg>, stop: StopFn, arg: Word, run: seq<ForcedStage>,
                                         landings: seq<nat>, t: nat)
    requires Preserves(env, kept) && IsForcedRun(env, kept, stop, arg, run, landings) && t < |run|
    ensures |landings| == |run|
    ensures SameFrom(env, kept, run[t].stage, run[t].stage.entry, run[0].stage, FromOf(run, landings, t))
    decreases t
  {
    hide Preserves, IsForcedRun, IsForcedStage, InstallsAt, SameFrom, SamePoint, SameReads, IsPath, Landing;
    RunAt(env, kept, stop, arg, run, landings, t);
    if t == 0 {
      SameAsItself(env, kept, run[0].stage);
    } else {
      ForcedRejoins(env, kept, stop, arg, run, landings, t - 1);
      RunAt(env, kept, stop, arg, run, landings, t - 1);
      StageWalks(env, run[t - 1]);
      StageWalks(env, run[t]);
      Later(env, kept, stop, arg, run, landings, t - 1);
      var s, next, k, from := run[t - 1].stage, run[t].stage, landings[t - 1], FromOf(run, landings, t - 1);
      SameFromLength(env, kept, s, s.entry, run[0].stage, from);
      SuffixesAgree(env, kept, s, k + 1, next, next.entry);
      SameFromTail(env, kept, s, s.entry, run[0].stage, from, k + 1 - s.entry);
      SameFromTrans(env, kept, next, next.entry, s, k + 1, run[0].stage, from + (k + 1 - s.entry));
    }
  }

  lemma StageWalks(env: Env, f: ForcedStage)
    requires IsForcedStage(env, f)
    ensures IsWalk(In(env, f.stage), f.stage.start, f.stage.walk)
  {
    hide IsWalk, Forced.Outcome;
  }

  lemma Later(env: Env, kept: set<Reg>, stop: StopFn, arg: Word, run: seq<ForcedStage>, landings: seq<nat>, t: nat)
    requires IsForcedRun(env, kept, stop, arg, run, landings) && t < |run|
    ensures run[t].stage.entry <= landings[t] || t == 0
    ensures run[0].stage.entry == 0 && |landings| == |run|
  {
    hide IsForcedStage, InstallsAt, SamePoint, SameReads;
    if t > 0 { RunAt(env, kept, stop, arg, run, landings, t); }
  }

  /** The stop function was called, in stage `f`, for the frame of visit `i` of the first walk. */
  ghost predicate Stopped(kept: set<Reg>, stop: StopFn, arg: Word, first: Stage, i: nat, f: ForcedStage)
    requires i < |first.walk.visits|
  {
    exists v | v in f.stage.walk.visits :: SameVisit(kept, v, first.walk.visits[i]) && StopFor(stop, arg, v) in f.log
  }

  /** Visit `n` of stage `t` is visit `i` of the first walk; if the stage's log covers it, the frame was stopped for. */
  lemma StoppedAt(env: Env, kept: set<Reg>, stop: StopFn, arg: Word, first: Stage, from: int, f: ForcedStage, w: Walk,
                  i: nat)
    requires SameFrom(env, kept, f.stage, f.stage.entry, first, from) && from <= i < |first.walk.visits|
    requires f.log == Script(stop, arg, w) && w.visits <= f.stage.walk.visits
    requires f.stage.entry + (i - from) < |w.visits|
    ensures Stopped(kept, stop, arg, first, i, f)
  {
    hide SameVisit, VisitAction, Script;
    var n := f.stage.entry + (i - from);
    assert w.visits[n] == f.stage.walk.visits[n];
    StopsCalled(stop, arg, w, n);
    assert SameSight(In(env, f.stage), In(env, first), kept, f.stage.walk.visits[n], first.walk.visits[i]);
  }

  /**
   No frame is skipped: for every frame of the first walk up to the one in which stage `t` landed, some
   stage up to `t` called the stop function.
   */
  lemma {:induction false} ForcedRunStopsEveryFrame(env: Env, kept: set<Reg>, stop: StopFn, arg: Word,
                                                    run: seq<ForcedStage>, landings: seq<nat>, t: nat, i: nat)
    returns (u: nat)
    requires Preserves(env, kept) && IsForcedRun(env, kept, stop, arg, run, landings) && t < |run|
    requires InstallsAt(run[t], landings[t]) && |landings| == |run|
    requires i < FromOf(run, landings, t) + landings[t] - run[t].stage.entry + 1
    ensures u <= t && i < |run[0].stage.walk.visits| && Stopped(kept, stop, arg, run[0].stage, i, run[u])
    decreases t
  {
    hide Preserves, IsForcedRun, IsForcedStage, SameFrom, SamePoint, SameReads, Stopped, Script, ForcedOn;
    RunAt(env, kept, stop, arg, run, landings, t);
    ForcedRejoins(env, kept, stop, arg, run, landings, t);
    FieldsKept(env, kept, stop, arg, run, landings, t);
    Later(env, kept, stop, arg, run, landings, t);
    var from := FromOf(run, landings, t);
    SameFromLength(env, kept, run[t].stage, run[t].stage.entry, run[0].stage, from);
    if i < from {
      u := ForcedRunStopsEveryFrame(env, kept, stop, arg, run, landings, t - 1, i);
    } else {
      u := t;
      StoppedAt(env, kept, stop, arg, run[0].stage, from, run[t], Until(run[t].stage.walk, landings[t]), i);
    }
  }

  /** And if the last stage goes on to the end of the walk, there is none left out at all. */
  lemma ForcedRunStopsAll(env: Env, kept: set<Reg>, stop: StopFn, arg: Word, run: seq<ForcedStage>, landings: seq<nat>,
                          i: nat) returns (u: nat)
    requires Preserves(env, kept) && IsForcedRun(env, kept, stop, arg, run, landings)
    requires run[|run| - 1].log == Script(stop, arg, run[|run| - 1].stage.walk) && i < |run[0].stage.walk.visits|
    ensures u < |run| && Stopped(kept, stop, arg, run[0].stage, i, run[u])
  {
    hide Preserves, IsForcedStage, SameFrom, SamePoint, SameReads, Stopped, Script, InstallsAt, ForcedOn;
    var t := |run| - 1;
    RunAt(env, kept, stop, arg, run, landings, t);
    ForcedRejoins(env, kept, stop, arg, run, landings, t);
    var from := FromOf(run, landings, t);
    SameFromLength(env, kept, run[t].stage, run[t].stage.entry, run[0].stage, from);
    if i < from {
      u := ForcedRunStopsEveryFrame(env, kept, stop, arg, run, landings, t - 1, i);
    } else {
      u := t;
      StoppedAt(env, kept, stop, arg, run[0].stage, from, run[t], run[t].stage.walk, i);
    }
  }
}
