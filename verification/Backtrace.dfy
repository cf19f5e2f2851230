/** Walking the stack for a backtrace (src/unwinder/mod.rs:390-431). */
module Backtrace {
  import opened Words
  import opened Wrappers
  import opened Contexts
  import opened Frames
  import opened Walks
  import opened Abi
  import opened Raise
  import opened Scripts

  /** A call of the trace function; the last one, where the stack ends, has no frame. */
  datatype TraceCall = TraceCall(at: Point, frame: Option<Frame>)

  type TraceFn = seq<TraceCall> -> ReasonCode

  function Accepted(trace: TraceFn): seq<TraceCall> -> bool {
    (log: seq<TraceCall>) => trace(log) == NoReason
  }

  /** Every visit from the `from`-th on, and then the end of the stack if the walk gets there. */
  function Report(w: Walk, from: nat): seq<TraceCall>
    requires from <= |w.visits|
  {
    seq(|w.visits| - from, i requires 0 <= i < |w.visits| - from =>
          TraceCall(w.visits[from + i].at, Some(w.visits[from + i].frame))) +
    (if w.end.StackEnd? then [TraceCall(w.end.at, None)] else [])
  }

  /** The first visit from `i` on of the function that starts at `own`, or the number of visits. */
  function FirstOwn(visits: seq<Visit>, own: Word, i: nat): (k: nat)
    requires i <= |visits|
    ensures i <= k <= |visits|
    ensures forall j | i <= j < k :: visits[j].frame.fde.start != own
    ensures k < |visits| ==> visits[k].frame.fde.start == own
    decreases |visits| - i
  {
    if i == |visits| || visits[i].frame.fde.start == own then i else FirstOwn(visits, own, i + 1)
  }

  /**
   What a backtrace reports: the whole walk, or when the unwinder's frames are hidden what comes
   after the first frame of `_Unwind_Backtrace`, which is nothing when there is none.
   */
  function Reported(w: Walk, hideTrace: bool, own: Word): seq<TraceCall> {
    var k := FirstOwn(w.visits, own, 0);
    if !hideTrace then Report(w, 0)
    else if k == |w.visits| then []
    else Report(w, k + 1)
  }

  /**
   Hiding cuts the report to a suffix: what goes are the frames up to the first one of the hiding
   function. Without such a frame nothing is left, not even the end of the stack.
   */
  lemma HidingCuts(w: Walk, own: Word)
    ensures var shown, all := Reported(w, true, own), Reported(w, false, own);
            if exists i :: 0 <= i < |w.visits| && w.visits[i].frame.fde.start == own
            then exists k :: 0 <= k < |w.visits| && w.visits[k].frame.fde.start == own
                   && (forall j | 0 <= j < k :: w.visits[j].frame.fde.start != own)
                   && |shown| == |all| - (k + 1) && shown == all[k + 1..]
            else shown == []
  {
    var k := FirstOwn(w.visits, own, 0);
    if k < |w.visits| {
      assert Reported(w, true, own) == Reported(w, false, own)[k + 1..];
    }
  }

  /** Without hiding, every visit is reported in order, and then the end of the stack, without a frame. */
  lemma ReportsAll(w: Walk, own: Word)
    ensures var all, n := Reported(w, false, own), |w.visits|;
            && |all| == (if w.end.StackEnd? then n + 1 else n)
            && (forall i | 0 <= i < n :: all[i] == TraceCall(w.visits[i].at, Some(w.visits[i].frame)))
            && (w.end.StackEnd? ==> all[n] == TraceCall(w.end.at, None))
  {
  }

  /**
   What decides a backtrace. Every call but the last was answered NO_REASON. Any other answer to the
   last fails; otherwise the report was made in full, and the end of the walk decides.
   */
  lemma LastCallDecides(trace: TraceFn, w: Walk, hideTrace: bool, own: Word, log: seq<TraceCall>, ending: Ending)
    requires Outcome(trace, w, hideTrace, own, log, ending)
    ensures log <= Reported(w, hideTrace, own) && forall n | 1 <= n < |log| :: trace(log[..n]) == NoReason
    ensures log != [] && trace(log) != NoReason ==>
              ending == if trace(log) == Aborted then Panicked else Returned(FatalPhase1Error)
    ensures log == [] || trace(log) == NoReason ==>
              log == Reported(w, hideTrace, own) &&
              ending == Returned(if w.end.StackEnd? then EndOfStack else FatalPhase1Error)
  {
    hide Reported;
    forall n | 1 <= n < |log| ensures trace(log[..n]) == NoReason {
      assert Accepted(trace)(log[..n]);
    }
  }

  lemma ReportStep(w: Walk, i: nat)
    requires i < |w.visits|
    ensures Report(w, i) == [TraceCall(w.visits[i].at, Some(w.visits[i].frame))] + Report(w, i + 1)
  {
  }

  /** The code a backtrace returns: the walk's end decides, unless a call was refused. */
  ghost predicate Outcome(trace: TraceFn, w: Walk, hideTrace: bool, own: Word, log: seq<TraceCall>, ending: Ending) {
    var script := Reported(w, hideTrace, own);
    && Plays(Accepted(trace), script, log)
    && ending == if !PlaysOut(Accepted(trace), script, log) then
                   (if trace(log) == Aborted then Panicked else Returned(FatalPhase1Error))
                 else Returned(if w.end.StackEnd? then EndOfStack else FatalPhase1Error)
  }

  lemma Refused(trace: TraceFn, w: Walk, hideTrace: bool, own: Word, log: seq<TraceCall>, call: TraceCall,
                rest: seq<TraceCall>)
    requires Playing(Accepted(trace), Reported(w, hideTrace, own), log, [call] + rest)
    requires trace(log + [call]) != NoReason
    ensures Outcome(trace, w, hideTrace, own, log + [call],
                    if trace(log + [call]) == Aborted then Panicked else Returned(FatalPhase1Error))
  {
    hide Reported, Playing;
    PlayOne(Accepted(trace), Reported(w, hideTrace, own), log, call, rest);
  }

  lemma AllPlayed(trace: TraceFn, w: Walk, hideTrace: bool, own: Word, log: seq<TraceCall>)
    requires Playing(Accepted(trace), Reported(w, hideTrace, own), log, [])
    ensures Outcome(trace, w, hideTrace, own, log, Returned(if w.end.StackEnd? then EndOfStack else FatalPhase1Error))
  {
    hide Reported, Playing;
    PlayedAll(Accepted(trace), Reported(w, hideTrace, own), log);
  }

  /** What is still to be reported when the walk has come to visit `i`. */
  ghost function Left(w: Walk, own: Word, skipping: bool, i: nat): seq<TraceCall>
    requires i <= |w.visits|
  {
    var k := FirstOwn(w.visits, own, i);
    if !skipping then Report(w, i) else if k == |w.visits| then [] else Report(w, k + 1)
  }

  /** Skipping a visit leaves what was left, until the visit of the hiding function itself. */
  lemma LeftSkip(w: Walk, own: Word, i: nat)
    requires i < |w.visits|
    ensures Left(w, own, true, i) == Left(w, own, w.visits[i].frame.fde.start != own, i + 1)
  {
  }

  lemma LeftStep(w: Walk, own: Word, i: nat)
    requires i < |w.visits|
    ensures Left(w, own, false, i) == [TraceCall(w.visits[i].at, Some(w.visits[i].frame))] + Left(w, own, false, i + 1)
  {
    ReportStep(w, i);
  }

  lemma LeftDone(w: Walk, own: Word, skipping: bool)
    ensures Left(w, own, skipping, |w.visits|) ==
            if w.end.StackEnd? && !skipping then [TraceCall(w.end.at, None)] else []
  {
  }

  lemma LeftStart(w: Walk, own: Word, hideTrace: bool)
    ensures Left(w, own, hideTrace, 0) == Reported(w, hideTrace, own)
  {
  }

  /** A path that is not followed to its end must be followed at least to the call that is refused. */
  ghost predicate FollowedToRefusal(trace: TraceFn, w: Walk, hideTrace: bool, own: Word) {
    w.end.GoesOn? ==> !PlaysOut(Accepted(trace), Reported(w, hideTrace, own), Reported(w, hideTrace, own))
  }

  lemma CallAhead(trace: TraceFn, w: Walk, hideTrace: bool, own: Word, log: seq<TraceCall>, skipping: bool, i: nat)
    requires FollowedToRefusal(trace, w, hideTrace, own) && i <= |w.visits|
    requires Playing(Accepted(trace), Reported(w, hideTrace, own), log, Left(w, own, skipping, i))
    ensures w.end.GoesOn? ==> i < |w.visits|
  {
    hide Playing, PlaysOut, Left, Reported;
    if w.end.GoesOn? && i == |w.visits| {
      LeftDone(w, own, skipping);
      PlayedAll(Accepted(trace), Reported(w, hideTrace, own), log);
    }
  }

  /** `_Unwind_Backtrace`; it walks a copy of the saved context, which it leaves as it is. */
  method Backtrace(env: Env, trace: TraceFn, saved: Context, hideTrace: bool, own: Word, ghost w: Walk)
    returns (ending: Ending, log: seq<TraceCall>)
    requires IsPath(env, Point(saved, false), w) && FollowedToRefusal(trace, w, hideTrace, own)
    ensures Outcome(trace, w, hideTrace, own, log, ending)
  {
    hide FromContext, Next, Caller, IsPath, Outcome, Playing, Plays, PlaysOut, Left, Reported;
    var ctx := saved;
    var signal := false;
    var skipping := hideTrace;
    ghost var script := Reported(w, hideTrace, own);
    ghost var i := 0;
    log := [];
    assert Suffix(w, 0) == w;
    StartPlaying(Accepted(trace), script);
    LeftStart(w, own, hideTrace);
    while true
      invariant i <= |w.visits| && IsPath(env, Point(ctx, signal), Suffix(w, i))
      invariant Playing(Accepted(trace), script, log, Left(w, own, skipping, i))
      decreases |w.visits| - i
    {
      CallAhead(trace, w, hideTrace, own, log, skipping, i);
      var p := Point(ctx, signal);
      var found := FromContext(env, p);
      if found.Failure? {
        VisitsDone(env, w, i, p);
        LeftDone(w, own, skipping);
        AllPlayed(trace, w, hideTrace, own, log);
        return Returned(FatalPhase1Error), log;
      }
      var frame := found.value;
      ghost var rest: seq<TraceCall> := [];
      if frame.None? {
        VisitsDone(env, w, i, p);
        LeftDone(w, own, skipping);
      } else {
        VisitsLeft(env, w, i, p, frame.value);
        LeftSkip(w, own, i);
        LeftStep(w, own, i);
        rest := Left(w, own, false, i + 1);
      }
      if !skipping {
        var call := TraceCall(p, frame);
        assert Left(w, own, skipping, i) == [call] + rest;
        var code := trace(log + [call]);
        if code != NoReason {
          Refused(trace, w, hideTrace, own, log, call, rest);
          return if code == Aborted then Panicked else Returned(FatalPhase1Error), log + [call];
        }
        PlayOne(Accepted(trace), script, log, call, rest);
        log := log + [call];
      }
      if frame.None? {
        AllPlayed(trace, w, hideTrace, own, log);
        return Returned(EndOfStack), log;
      }
      if skipping {
        if frame.value.fde.start == own {
          skipping := false;
        }
      }
      var caller := Unwind(env, frame.value.row, ctx);
      NextIs(env, Visit(p, frame.value), caller);
      if caller.Failure? {
        LeftDone(w, own, skipping);
        AllPlayed(trace, w, hideTrace, own, log);
        return Returned(FatalPhase1Error), log;
      }
      ctx := caller.value;
      signal := frame.value.fde.trampoline;
      i := i + 1;
    }
  }
}
