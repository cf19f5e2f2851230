/** The set-once finder under any interleaving of any number of threads (src/unwinder/find_fde/custom.rs). */
module SetOnce {
  import opened Wrappers

  type Tid = nat
  type Finder = nat

  const UNINITIALIZED: nat := 0
  const INITIALIZING: nat := 1
  const INITIALIZED: nat := 2

  /**
   Where a thread stands. Setting: before the exchange, before and during the write of the cell,
   before the store of the state, spinning, and returned. Getting: before the load, before and
   during the read of the cell, and returned. `Panicked` is a fired `unwrap` or `unreachable!`.
   */
  datatype Pc =
    | Idle
    | SetCalled(finder: Finder)
    | SetWon(finder: Finder)
    | SetWriting(finder: Finder)
    | SetWritten(finder: Finder)
    | SetSpins(finder: Finder)
    | SetReturned(finder: Finder, ok: bool)
    | GetCalled
    | GetLoaded
    | GetReading
    | GetReturned(result: Option<Finder>)
    | Panicked

  datatype State = State(word: nat, cell: Option<Finder>, threads: map<Tid, Pc>)

  function At(s: State, t: Tid): Pc {
    if t in s.threads then s.threads[t] else Idle
  }

  function Goes(s: State, t: Tid, pc: Pc): State {
    s.(threads := s.threads[t := pc])
  }

  ghost predicate Init(s: State) {
    s == State(UNINITIALIZED, None, map[])
  }

  /** One atomic step of thread `t`; a thread that has returned may call again. */
  ghost predicate StepOf(s: State, s': State, t: Tid) {
    match At(s, t)
    case Idle => s' == Goes(s, t, GetCalled) || exists f :: s' == Goes(s, t, SetCalled(f))
    case SetReturned(_, _) => s' == Goes(s, t, Idle)
    case GetReturned(_) => s' == Goes(s, t, Idle)
    case SetCalled(f) =>
      s' == if s.word == UNINITIALIZED then Goes(s.(word := INITIALIZING), t, SetWon(f))
            else if s.word == INITIALIZING then Goes(s, t, SetSpins(f))
            else if s.word == INITIALIZED then Goes(s, t, SetReturned(f, false))
            else Goes(s, t, Panicked)
    case SetWon(f) => s' == Goes(s, t, SetWriting(f))
    case SetWriting(f) => s' == Goes(s.(cell := Some(f)), t, SetWritten(f))
    case SetWritten(f) => s' == Goes(s.(word := INITIALIZED), t, SetReturned(f, true))
    case SetSpins(f) => s' == if s.word == INITIALIZING then s else Goes(s, t, SetReturned(f, false))
    case GetCalled => s' == Goes(s, t, if s.word == INITIALIZED then GetLoaded else GetReturned(None))
    case GetLoaded => s' == Goes(s, t, GetReading)
    case GetReading =>
      s' == Goes(s, t, match s.cell case Some(f) => GetReturned(Some(f)) case None => Panicked)
    case Panicked => false
  }

  /** A run: each step is some thread's; `who[i]` takes the step from `states[i]`. */
  ghost predicate IsRun(states: seq<State>, who: seq<Tid>) {
    && |states| == |who| + 1 && Init(states[0])
    && forall i, j | 0 <= i && j == i + 1 && j < |states| :: StepOf(states[i], states[j], who[i])
  }

  /** The thread holds the right to initialize. */
  predicate Initializes(pc: Pc) {
    pc.SetWon? || pc.SetWriting? || pc.SetWritten?
  }

  /** What every reachable state keeps. */
  ghost predicate Inv(s: State) {
    && s.word <= INITIALIZED
    && (s.word == INITIALIZING ==> exists t :: Initializes(At(s, t)))
    && (s.word == UNINITIALIZED ==> s.cell == None)
    && (s.word == INITIALIZED ==> s.cell.Some?)
    && (forall t, u :: Initializes(At(s, t)) && Initializes(At(s, u)) ==> t == u)
    && (forall t :: ThreadOk(s, At(s, t)))
  }

  /** What a thread may count on at each place. */
  predicate ThreadOk(s: State, pc: Pc) {
    match pc
    case SetWon(_) => s.word == INITIALIZING && s.cell == None
    case SetWriting(_) => s.word == INITIALIZING && s.cell == None
    case SetWritten(f) => s.word == INITIALIZING && s.cell == Some(f)
    case SetSpins(_) => s.word != UNINITIALIZED
    case SetReturned(f, ok) => s.word == INITIALIZED && (ok ==> s.cell == Some(f))
    case GetLoaded => s.word == INITIALIZED
    case GetReading => s.word == INITIALIZED
    case GetReturned(result) => result.Some? ==> s.word == INITIALIZED && s.cell == result
    case Panicked => false
    case _ => true
  }

  lemma StepKeepsInv(s: State, s': State, t: Tid)
    requires Inv(s) && StepOf(s, s', t)
    ensures Inv(s')
    ensures s.word <= s'.word && (s.cell.Some? ==> s'.cell == s.cell)
  {
    assert forall u | u != t :: At(s', u) == At(s, u);
    assert ThreadOk(s, At(s, t));
    forall u ensures ThreadOk(s', At(s', u)) {
      assert ThreadOk(s, At(s, u));
      if u != t && Initializes(At(s, u)) {
        assert !Initializes(At(s, t));
      }
    }
    if s'.word == INITIALIZING {
      if s.word == INITIALIZING {
        var u :| Initializes(At(s, u));
        assert Initializes(At(s', u));
      } else {
        assert Initializes(At(s', t));
      }
    }
  }

  lemma {:induction false} ReachableInv(states: seq<State>, who: seq<Tid>, i: nat)
    requires IsRun(states, who) && i < |states|
    ensures Inv(states[i])
    decreases i
  {
    hide StepOf, Inv;
    if i == 0 {
      InitInv(states[0]);
    } else {
      ReachableInv(states, who, i - 1);
      StepKeepsInv(states[i - 1], states[i], who[i - 1]);
    }
  }

  lemma InitInv(s: State)
    requires Init(s)
    ensures Inv(s)
  {
  }

  /** The state word never goes back, and a cell once written stays as it is. */
  lemma {:induction false} Monotone(states: seq<State>, who: seq<Tid>, i: nat, j: nat)
    requires IsRun(states, who) && i <= j < |states|
    ensures states[i].word <= states[j].word && (states[i].cell.Some? ==> states[j].cell == states[i].cell)
    decreases j
  {
    hide StepOf, Inv;
    if i < j {
      Monotone(states, who, i, j - 1);
      ReachableInv(states, who, j - 1);
      StepKeepsInv(states[j - 1], states[j], who[j - 1]);
    }
  }

  /** No `unwrap` and no `unreachable!` ever fires, and the cell is never read or written during its write. */
  lemma NoPanicNoRace(states: seq<State>, who: seq<Tid>, i: nat, t: Tid, u: Tid)
    requires IsRun(states, who) && i < |states|
    ensures At(states[i], t) != Panicked
    ensures t != u && At(states[i], t).SetWriting? ==> !At(states[i], u).SetWriting? && !At(states[i], u).GetReading?
  {
    hide StepOf;
    ReachableInv(states, who, i);
    assert ThreadOk(states[i], At(states[i], t)) && ThreadOk(states[i], At(states[i], u));
  }

  /** The cell is written at most once: any two writes of a run are the same step. */
  lemma WrittenOnce(states: seq<State>, who: seq<Tid>, i: nat, j: nat)
    requires IsRun(states, who) && i <= j < |who|
    requires At(states[i], who[i]).SetWriting? && At(states[j], who[j]).SetWriting?
    ensures i == j
  {
    ReachableInv(states, who, i);
    ReachableInv(states, who, j);
    assert ThreadOk(states[j], At(states[j], who[j]));
    if i < j {
      assert StepOf(states[i], states[i + 1], who[i]);
      Monotone(states, who, i + 1, j);
    }
  }

  /** The `j`-th step returns Ok from a set of `f`. */
  ghost predicate ReturnsOk(states: seq<State>, who: seq<Tid>, j: nat, f: Finder) {
    && j < |who| && |states| == |who| + 1
    && !At(states[j], who[j]).SetReturned? && At(states[j + 1], who[j]) == SetReturned(f, true)
  }

  /** Where Ok is returned, the word becomes INITIALIZED, and the cell holds what was set. */
  lemma OkInitializes(states: seq<State>, who: seq<Tid>, j: nat, f: Finder)
    requires IsRun(states, who) && ReturnsOk(states, who, j, f)
    ensures states[j].word == 1 && states[j + 1].word == 2 && states[j + 1].cell == Some(f)
  {
    ReachableInv(states, who, j);
    assert StepOf(states[j], states[j + 1], who[j]);
    assert ThreadOk(states[j], At(states[j], who[j]));
  }

  /** At most one set returns Ok. */
  lemma OneWinner(states: seq<State>, who: seq<Tid>, i: nat, j: nat, f: Finder, g: Finder)
    requires IsRun(states, who) && ReturnsOk(states, who, i, f) && ReturnsOk(states, who, j, g)
    ensures i == j && f == g
  {
    hide StepOf, Inv;
    OkInitializes(states, who, i, f);
    OkInitializes(states, who, j, g);
    if i < j {
      Monotone(states, who, i + 1, j);
    } else if j < i {
      Monotone(states, who, j + 1, i);
    }
  }

  /** The step that makes the word INITIALIZED returns Ok, and the cell holds what that call set. */
  lemma InitializingReturnsOk(states: seq<State>, who: seq<Tid>, j: nat) returns (f: Finder)
    requires IsRun(states, who) && j < |who| && states[j].word != 2 && states[j + 1].word == 2
    ensures ReturnsOk(states, who, j, f) && states[j + 1].cell == Some(f)
  {
    ReachableInv(states, who, j);
    assert StepOf(states[j], states[j + 1], who[j]);
    assert ThreadOk(states[j], At(states[j], who[j]));
    f := At(states[j], who[j]).finder;
  }

  /** And one does: once the word is INITIALIZED, an earlier step has returned Ok, for what is in the cell. */
  lemma {:induction false} WinnerExists(states: seq<State>, who: seq<Tid>, i: nat) returns (j: nat, f: Finder)
    requires IsRun(states, who) && i < |states| && states[i].word == 2
    ensures j < i && ReturnsOk(states, who, j, f) && states[i].cell == Some(f)
    decreases i
  {
    hide StepOf, Inv;
    StartsUninitialized(states, who);
    if states[i - 1].word == 2 {
      j, f := WinnerExists(states, who, i - 1);
      Monotone(states, who, i - 1, i);
    } else {
      j := i - 1;
      f := InitializingReturnsOk(states, who, j);
    }
  }

  lemma StartsUninitialized(states: seq<State>, who: seq<Tid>)
    requires IsRun(states, who)
    ensures states[0] == State(0, None, map[])
  {
    hide StepOf;
  }

  /** The `m`-th step is an exchange that wins: a set finds the word UNINITIALIZED and takes it. */
  ghost predicate Wins(states: seq<State>, who: seq<Tid>, m: nat) {
    && m < |who| && |states| == |who| + 1 && At(states[m], who[m]).SetCalled?
    && states[m].word == 0 && states[m + 1].word == 1
  }

  /** The `e`-th step is the exchange of a call that loses. */
  ghost predicate Loses(states: seq<State>, who: seq<Tid>, e: nat) {
    e < |who| && |states| == |who| + 1 && At(states[e], who[e]).SetCalled? && states[e].word != 0
  }

  lemma {:induction false} WinBefore(states: seq<State>, who: seq<Tid>, e: nat) returns (m: nat)
    requires IsRun(states, who) && e < |states| && states[e].word != 0
    ensures m < e && Wins(states, who, m)
    decreases e
  {
    hide Inv;
    StartsUninitialized(states, who);
    if states[e - 1].word != 0 {
      m := WinBefore(states, who, e - 1);
    } else {
      ReachableInv(states, who, e - 1);
      m := e - 1;
      assert StepOf(states[m], states[m + 1], who[m]);
      WordTaken(states[m], states[m + 1], who[m]);
    }
  }

  lemma WordTaken(s: State, s': State, t: Tid)
    requires Inv(s) && StepOf(s, s', t) && s.word == 0 && s'.word != 0
    ensures At(s, t).SetCalled? && s'.word == 1
  {
    assert ThreadOk(s, At(s, t));
  }

  /** Thread `t` spins from after its exchange, the `e`-th step, to state `j`. */
  ghost predicate SpinsSince(states: seq<State>, t: Tid, e: nat, j: nat) {
    e <= j < |states| && forall n | e < n <= j :: At(states[n], t).SetSpins?
  }

  lemma {:induction false} SpinStart(states: seq<State>, who: seq<Tid>, t: Tid, j: nat) returns (e: nat)
    requires IsRun(states, who) && j < |states| && At(states[j], t).SetSpins?
    ensures e < j && who[e] == t && Loses(states, who, e) && SpinsSince(states, t, e, j)
    decreases j
  {
    hide Inv;
    StartsUninitialized(states, who);
    assert StepOf(states[j - 1], states[j], who[j - 1]);
    if At(states[j - 1], t).SetSpins? {
      e := SpinStart(states, who, t, j - 1);
    } else {
      e := j - 1;
      SpinEntered(states[e], states[j], who[e], t);
    }
  }

  lemma SpinEntered(s: State, s': State, u: Tid, t: Tid)
    requires StepOf(s, s', u) && At(s', t).SetSpins? && !At(s, t).SetSpins?
    ensures u == t && At(s, t).SetCalled? && s.word != 0
  {
  }

  /**
   A set returns Err only if another came first: its own exchange, at step `e`, found the word taken,
   and an earlier step `m`, the exchange of another call, had taken it.
   */
  lemma ErrAfterWinner(states: seq<State>, who: seq<Tid>, j: nat, f: Finder) returns (m: nat, e: nat)
    requires IsRun(states, who) && j < |who|
    requires !At(states[j], who[j]).SetReturned? && At(states[j + 1], who[j]) == SetReturned(f, false)
    ensures m < e <= j && Wins(states, who, m) && Loses(states, who, e) && who[e] == who[j]
    ensures SpinsSince(states, who[j], e, j)
  {
    hide Inv;
    var t := who[j];
    assert StepOf(states[j], states[j + 1], t);
    ReachableInv(states, who, j);
    ErrFrom(states[j], states[j + 1], t, f);
    if At(states[j], t).SetSpins? {
      e := SpinStart(states, who, t, j);
    } else {
      e := j;
    }
    m := WinBefore(states, who, e);
  }

  lemma ErrFrom(s: State, s': State, t: Tid, f: Finder)
    requires Inv(s) && StepOf(s, s', t) && !At(s, t).SetReturned? && At(s', t) == SetReturned(f, false)
    ensures At(s, t).SetSpins? || (At(s, t).SetCalled? && s.word != 0)
  {
    assert ThreadOk(s, At(s, t));
  }

  // ----- Progress -----

  /** How many steps of its own a call needs at most, when it need not wait. */
  function StepsToReturn(pc: Pc): nat {
    match pc
    case SetCalled(_) => 4
    case SetWon(_) => 3
    case SetWriting(_) => 2
    case SetWritten(_) => 1
    case SetSpins(_) => 1
    case GetCalled => 3
    case GetLoaded => 2
    case GetReading => 1
    case _ => 0
  }

  /**
   A call can always take its next step, and each brings it nearer to its return, but that a set spins
   while another initializes; and then that other call can step.
   */
  lemma NothingStuck(s: State, t: Tid) returns (s': State)
    requires Inv(s) && StepsToReturn(At(s, t)) > 0
    ensures StepOf(s, s', t)
    ensures At(s, t).SetSpins? && s.word == 1 ==>
              exists u :: u != t && StepsToReturn(At(s, u)) > 0 && !At(s, u).SetSpins? && !At(s, u).SetCalled?
    ensures !(At(s, t).SetSpins? && s.word == 1) ==> StepsToReturn(At(s', t)) < StepsToReturn(At(s, t))
  {
    assert ThreadOk(s, At(s, t));
    if s.word == INITIALIZING {
      var u :| Initializes(At(s, u));
    }
    match At(s, t)
    case SetCalled(f) =>
      s' := if s.word == UNINITIALIZED then Goes(s.(word := INITIALIZING), t, SetWon(f))
            else if s.word == INITIALIZING then Goes(s, t, SetSpins(f))
            else Goes(s, t, SetReturned(f, false));
    case SetWon(f) => s' := Goes(s, t, SetWriting(f));
    case SetWriting(f) => s' := Goes(s.(cell := Some(f)), t, SetWritten(f));
    case SetWritten(f) => s' := Goes(s.(word := INITIALIZED), t, SetReturned(f, true));
    case SetSpins(f) => s' := if s.word == INITIALIZING then s else Goes(s, t, SetReturned(f, false));
    case GetCalled => s' := Goes(s, t, if s.word == INITIALIZED then GetLoaded else GetReturned(None));
    case GetLoaded => s' := Goes(s, t, GetReading);
    case GetReading => s' := Goes(s, t, GetReturned(s.cell));
    case _ =>
  }

  /** Returning is not skipped: a call that can step nowhere else has returned, and may then be called again. */
  lemma CallsBegin(s: State, t: Tid, f: Finder)
    requires At(s, t) == Idle
    ensures StepOf(s, Goes(s, t, SetCalled(f)), t) && StepOf(s, Goes(s, t, GetCalled), t)
  {
  }

  /** A set that runs alone from the start returns Ok, with its finder in the cell. */
  lemma SoloSetReturnsOk(t: Tid, f: Finder) returns (states: seq<State>, who: seq<Tid>)
    ensures IsRun(states, who) && |who| == 5
    ensures At(states[5], t) == SetReturned(f, true) && states[5].cell == Some(f) && states[5].word == 2
  {
    var s0 := State(UNINITIALIZED, None, map[]);
    var s1 := Goes(s0, t, SetCalled(f));
    var s2 := Goes(s1.(word := INITIALIZING), t, SetWon(f));
    var s3 := Goes(s2, t, SetWriting(f));
    var s4 := Goes(s3.(cell := Some(f)), t, SetWritten(f));
    var s5 := Goes(s4.(word := INITIALIZED), t, SetReturned(f, true));
    states, who := [s0, s1, s2, s3, s4, s5], [t, t, t, t, t];
  }

  /**
   Thread `t` is inside one call of get from state `j` to state `k`: it was called there and has not
   begun another.
   */
  ghost predicate OneGet(states: seq<State>, t: Tid, j: nat, k: nat) {
    && j < k < |states| && At(states[j], t) == GetCalled
    && forall m | j <= m <= k :: At(states[m], t) != Idle
  }

  lemma {:induction false} GetSees(states: seq<State>, who: seq<Tid>, t: Tid, j: nat, k: nat, m: nat)
    requires IsRun(states, who) && OneGet(states, t, j, k) && j <= m <= k
    requires states[j].word == INITIALIZED
    ensures var pc := At(states[m], t);
            pc.GetCalled? || pc.GetLoaded? || pc.GetReading? || (pc.GetReturned? && pc.result.Some?)
    decreases m
  {
    hide Inv;
    if j < m {
      GetSees(states, who, t, j, k, m - 1);
      Monotone(states, who, j, m - 1);
      ReachableInv(states, who, m - 1);
      ReachableInv(states, who, m);
      WordBounded(states[m - 1]);
      NotPanicked(states[m], t);
      assert StepOf(states[m - 1], states[m], who[m - 1]);
    }
  }

  lemma WordBounded(s: State)
    requires Inv(s)
    ensures s.word <= INITIALIZED
  {
  }

  lemma NotPanicked(s: State, t: Tid)
    requires Inv(s)
    ensures At(s, t) != Panicked
  {
    assert ThreadOk(s, At(s, t));
  }

  /**
   Once any set has returned, Ok or Err, every get called after it returns a finder: the one that
   is in the cell from then on, which is the finder of whichever set returns Ok in the whole run.
   */
  lemma GetsWinner(states: seq<State>, who: seq<Tid>, i: nat, s: Tid, j: nat, k: nat, t: Tid, w: nat, winner: Tid)
    requires IsRun(states, who) && i <= j && OneGet(states, t, j, k)
    requires At(states[i], s).SetReturned? && At(states[k], t).GetReturned?
    ensures states[i].cell.Some? && At(states[k], t).result == states[i].cell
    ensures w < |states| && At(states[w], winner).SetReturned? && At(states[w], winner).ok ==>
              states[i].cell == Some(At(states[w], winner).finder)
  {
    hide StepOf;
    ReachableInv(states, who, i);
    assert ThreadOk(states[i], At(states[i], s));
    Monotone(states, who, i, j);
    ReachableInv(states, who, j);
    GetSees(states, who, t, j, k, k);
    ReachableInv(states, who, k);
    assert ThreadOk(states[k], At(states[k], t));
    Monotone(states, who, i, k);
    if w < |states| && At(states[w], winner).SetReturned? && At(states[w], winner).ok {
      ReachableInv(states, who, w);
      assert ThreadOk(states[w], At(states[w], winner));
      if i <= w { Monotone(states, who, i, w); } else { Monotone(states, who, w, i); }
    }
  }
}
