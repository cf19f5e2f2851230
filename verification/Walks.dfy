/** The walk from a register context outwards, as every driver in src/unwinder/mod.rs takes it. */
module Walks {
  import opened Words
  import opened Wrappers
  import opened Contexts
  import opened Frames

  datatype Visit = Visit(at: Point, frame: Frame)

  /**
   A walk ends where there is no further frame, or at an error in the unwind information. It may also
   be followed only so far: `GoesOn` says where it would be taken up.
   */
  datatype End = StackEnd(at: Point) | BadInfo | GoesOn(at: Point)

  datatype Walk = Walk(visits: seq<Visit>, end: End)

  /** Where the walk goes on after a visit. */
  ghost function Next(env: Env, v: Visit): Result<Point> {
    match Caller(env, v.frame.row, v.at.ctx)
    case Failure => Failure
    case Success(ctx) => Success(Point(ctx, v.frame.fde.trampoline))
  }

  /** `w` is the walk that starts at `p`, as far as it is followed. */
  ghost predicate IsPath(env: Env, p: Point, w: Walk)
    decreases |w.visits|
  {
    if w.visits == [] && w.end.GoesOn? then w.end.at == p
    else
      match FromContext(env, p)
      case Failure => w == Walk([], BadInfo)
      case Success(None) => w == Walk([], StackEnd(p))
      case Success(Some(frame)) =>
        && w.visits != [] && w.visits[0] == Visit(p, frame)
        && match Next(env, w.visits[0])
           case Failure => w.visits[1..] == [] && w.end == BadInfo
           case Success(q) => IsPath(env, q, Walk(w.visits[1..], w.end))
  }

  /** `w` is the whole walk that starts at `p`. */
  ghost predicate IsWalk(env: Env, p: Point, w: Walk) {
    IsPath(env, p, w) && !w.end.GoesOn?
  }

  /** From every start the walk can be followed for any number of visits, or else to its end. */
  lemma {:induction false} PathExists(env: Env, p: Point, n: nat) returns (w: Walk)
    ensures IsPath(env, p, w) && |w.visits| <= n && (w.end.GoesOn? ==> |w.visits| == n)
    decreases n
  {
    hide FromContext, Next;
    if n == 0 {
      return Walk([], GoesOn(p));
    }
    match FromContext(env, p) {
      case Failure => w := Walk([], BadInfo);
      case Success(None) => w := Walk([], StackEnd(p));
      case Success(Some(frame)) =>
        var v := Visit(p, frame);
        match Next(env, v) {
          case Failure =>
            w := Walk([v], BadInfo);
          case Success(q) =>
            var rest := PathExists(env, q, n - 1);
            w := Walk([v] + rest.visits, rest.end);
            assert w.visits[1..] == rest.visits && Walk(w.visits[1..], w.end) == rest;
        }
    }
  }

  function Suffix(w: Walk, i: nat): Walk
    requires i <= |w.visits|
  {
    Walk(w.visits[i..], w.end)
  }

  /** From any visit on, the rest of a walk is itself the walk from there. */
  lemma {:induction false} SuffixIsWalk(env: Env, p: Point, w: Walk, i: nat)
    requires IsPath(env, p, w) && i < |w.visits|
    ensures IsPath(env, w.visits[i].at, Suffix(w, i))
    ensures FromContext(env, w.visits[i].at) == Success(Some(w.visits[i].frame))
    ensures i + 1 < |w.visits| ==> Next(env, w.visits[i]) == Success(w.visits[i + 1].at)
    ensures i == 0 ==> w.visits[0].at == p
    decreases i
  {
    hide FromContext, Next;
    if i == 0 {
      assert Suffix(w, 0) == w;
    } else {
      var rest := Walk(w.visits[1..], w.end);
      SuffixIsWalk(env, Next(env, w.visits[0]).value, rest, i - 1);
      assert Suffix(rest, i - 1) == Suffix(w, i);
    }
  }

  lemma WalkStart(env: Env, p: Point, w: Walk)
    requires IsWalk(env, p, w) && w.visits != []
    ensures w.visits[0].at == p
  {
    hide FromContext, Next;
  }

  /** A start has one walk. */
  lemma {:induction false} WalkUnique(env: Env, p: Point, w: Walk, w': Walk)
    requires IsWalk(env, p, w) && IsWalk(env, p, w')
    ensures w == w'
    decreases |w.visits|
  {
    hide FromContext, Next;
    match FromContext(env, p) {
      case Success(Some(frame)) =>
        match Next(env, w.visits[0]) {
          case Success(q) =>
            WalkUnique(env, q, Walk(w.visits[1..], w.end), Walk(w'.visits[1..], w'.end));
          case Failure =>
        }
        assert w.visits == [w.visits[0]] + w.visits[1..] && w'.visits == [w'.visits[0]] + w'.visits[1..];
      case _ =>
    }
  }

  // ----- Walks that move outwards -----

  function StackPointer(p: Point): Word { Get(p.ctx, SP) }

  /** Every step raises SP, except that a signal-interrupted frame may share it with its caller. */
  predicate Outward(p: Point, q: Point) {
    || StackPointer(p) < StackPointer(q)
    || (StackPointer(p) == StackPointer(q) && p.signal && !q.signal)
  }

  /** The point that `n` steps from `p` lead to, when the walk gets that far. */
  ghost function Reach(env: Env, p: Point, n: nat): Option<Point>
    decreases n
  {
    if n == 0 then Some(p)
    else
      match FromContext(env, p)
      case Success(Some(frame)) =>
        (match Next(env, Visit(p, frame))
         case Failure => None
         case Success(q) => Reach(env, q, n - 1))
      case _ => None
  }

  /** Every step of the walk from `p`, however far it gets, moves outwards. */
  ghost predicate AlwaysOutward(env: Env, p: Point) {
    forall n: nat :: Reach(env, p, n).Some? && Reach(env, p, n + 1).Some? ==>
      Outward(Reach(env, p, n).value, Reach(env, p, n + 1).value)
  }

  /** How many steps an outward walk has left at most. */
  function StepsLeft(p: Point): nat {
    2 * (WORD - StackPointer(p)) + if p.signal then 1 else 0
  }

  lemma OutwardTail(env: Env, p: Point, frame: Frame, q: Point)
    requires AlwaysOutward(env, p)
    requires FromContext(env, p) == Success(Some(frame)) && Next(env, Visit(p, frame)) == Success(q)
    ensures Outward(p, q) && AlwaysOutward(env, q)
  {
    hide FromContext, Next, Outward;
    assert Reach(env, p, 0) == Some(p) && Reach(env, q, 0) == Some(q);
    assert Reach(env, p, 1) == Reach(env, q, 0);
    forall n: nat ensures Reach(env, q, n) == Reach(env, p, n + 1) {}
    forall n: nat | Reach(env, q, n).Some? && Reach(env, q, n + 1).Some?
      ensures Outward(Reach(env, q, n).value, Reach(env, q, n + 1).value)
    {
      assert Reach(env, p, n + 1) == Reach(env, q, n) && Reach(env, p, n + 2) == Reach(env, q, n + 1);
    }
  }

  /** Termination of every driver: an outward walk is finite, with a bound known from its start. */
  lemma {:induction false} OutwardWalkEnds(env: Env, p: Point) returns (w: Walk)
    requires AlwaysOutward(env, p)
    ensures IsWalk(env, p, w) && |w.visits| <= StepsLeft(p)
    decreases StepsLeft(p)
  {
    hide FromContext, Next, AlwaysOutward;
    match FromContext(env, p) {
      case Failure => w := Walk([], BadInfo);
      case Success(None) => w := Walk([], StackEnd(p));
      case Success(Some(frame)) =>
        var v := Visit(p, frame);
        match Next(env, v) {
          case Failure =>
            w := Walk([v], BadInfo);
          case Success(q) =>
            OutwardTail(env, p, frame, q);
            var rest := OutwardWalkEnds(env, q);
            w := Walk([v] + rest.visits, rest.end);
            assert w.visits[1..] == rest.visits && Walk(w.visits[1..], w.end) == rest;
        }
    }
  }

  /**
   From every frame the walk reaches, the CFA lies strictly above the stack pointer and is the
   stack pointer of the caller.
   */
  ghost predicate CfaAbove(env: Env, p: Point) {
    forall n: nat :: Reach(env, p, n).Some? ==> RowAbove(env, Reach(env, p, n).value)
  }

  ghost predicate RowAbove(env: Env, p: Point) {
    match FromContext(env, p)
    case Success(Some(frame)) =>
      RuleFor(frame.row.rules, SP) == None &&
      (Cfa(env, frame.row, p.ctx).Some? ==> StackPointer(p) < Cfa(env, frame.row, p.ctx).value)
    case _ => true
  }

  lemma CfaAboveTail(env: Env, p: Point, frame: Frame, q: Point)
    requires CfaAbove(env, p)
    requires FromContext(env, p) == Success(Some(frame)) && Next(env, Visit(p, frame)) == Success(q)
    ensures StackPointer(p) < StackPointer(q) && CfaAbove(env, q)
  {
    hide FromContext, Next, RowAbove;
    assert Reach(env, p, 0) == Some(p) && RowAbove(env, p);
    RaisesStackPointer(env, p, frame, q);
    forall n: nat | Reach(env, q, n).Some? ensures RowAbove(env, Reach(env, q, n).value) {
      assert Reach(env, p, n + 1) == Reach(env, q, n);
    }
  }

  lemma RaisesStackPointer(env: Env, p: Point, frame: Frame, q: Point)
    requires RowAbove(env, p)
    requires FromContext(env, p) == Success(Some(frame)) && Next(env, Visit(p, frame)) == Success(q)
    ensures StackPointer(p) < StackPointer(q)
  {
    hide FromContext;
  }

  /** With every CFA strictly above, a walk takes no more steps than there are addresses left above its start. */
  lemma {:induction false} CfaAboveWalkEnds(env: Env, p: Point) returns (w: Walk)
    requires CfaAbove(env, p)
    ensures IsWalk(env, p, w) && |w.visits| <= WORD - StackPointer(p)
    decreases WORD - StackPointer(p)
  {
    hide FromContext, Next, CfaAbove;
    match FromContext(env, p) {
      case Failure => w := Walk([], BadInfo);
      case Success(None) => w := Walk([], StackEnd(p));
      case Success(Some(frame)) =>
        var v := Visit(p, frame);
        match Next(env, v) {
          case Failure =>
            w := Walk([v], BadInfo);
          case Success(q) =>
            CfaAboveTail(env, p, frame, q);
            var rest := CfaAboveWalkEnds(env, q);
            w := Walk([v] + rest.visits, rest.end);
            assert w.visits[1..] == rest.visits && Walk(w.visits[1..], w.end) == rest;
        }
    }
  }

  /** Along a walk that moves outwards, so do any two visits in order. */
  ghost predicate StepsOutward(w: Walk) {
    forall i, j | 0 <= i && j == i + 1 && j < |w.visits| :: Outward(w.visits[i].at, w.visits[j].at)
  }

  lemma {:induction false} OutwardVisits(env: Env, p: Point, w: Walk)
    requires IsWalk(env, p, w) && AlwaysOutward(env, p)
    ensures StepsOutward(w)
    decreases |w.visits|
  {
    hide FromContext, Next, Outward, AlwaysOutward;
    if |w.visits| > 1 {
      SuffixIsWalk(env, p, w, 0);
      var q := w.visits[1].at;
      OutwardTail(env, p, w.visits[0].frame, q);
      OutwardVisits(env, q, Walk(w.visits[1..], w.end));
      var rest := w.visits[1..];
      forall i, j | 0 <= i && j == i + 1 && j < |w.visits| ensures Outward(w.visits[i].at, w.visits[j].at) {
        if i > 0 {
          assert rest[i - 1] == w.visits[i] && rest[j - 1] == w.visits[j];
        }
      }
    }
  }
}
