/**
 The whole run of an exception: a raise followed by any number of resumes, each from inside a
 cleanup. Memory changes between them; what must not change is what the frames still to be unwound
 are read from. Walks that agree on that and on the preserved registers visit the same frames, and
 so the run enters the landing pads from the thrower to the handler in turn.
 */
module Resumption {
  import opened Words
  import opened Wrappers
  import opened Contexts
  import opened Lsda
  import opened Frames
  import opened Walks
  import opened Abi
  import opened Personality
  import opened Raise
  import opened TwoPhase

  // ----- Contexts that agree on the preserved registers -----

  ghost predicate Agree(kept: set<Reg>, c: Context, d: Context) {
    forall r: Reg | r in kept :: Get(c, r) == Get(d, r)
  }

  /** A row that recovers kept registers from kept registers. */
  ghost predicate LocalRow(kept: set<Reg>, row: Row) {
    && (row.cfa.RegisterAndOffset? ==> row.cfa.register in kept)
    && (forall i | 0 <= i < |row.rules| :: LocalRule(kept, row.rules[i].0, row.rules[i].1))
  }

  ghost predicate LocalRule(kept: set<Reg>, r: Reg, rule: RegisterRule) {
    rule.Register? && r in kept ==> rule.register in kept
  }

  /** The unwind information never makes a kept register depend on one that is not kept. */
  ghost predicate Preserves(env: Env, kept: set<Reg>) {
    && SP in kept && RA in kept
    && forall fde, pc | fde in env.fdes && pc in fde.rows :: LocalRow(kept, fde.rows[pc])
  }

  // ----- Memories that agree on what is read -----

  function With(env: Env, m: Memory): Env {
    env.(memory := m)
  }

  /** Under memory `m`, an expression evaluates as it does now, and whatever the registers not kept. */
  ghost predicate SameExpr(env: Env, m: Memory, kept: set<Reg>, ctx: Context, expr: Expr) {
    forall d: Context | Agree(kept, ctx, d) :: Evaluate(With(env, m), expr, d) == Evaluate(env, expr, ctx)
  }

  /** The words that a rule loads for a kept register, and its expression, are the same under `m`. */
  ghost predicate SameRuleReads(env: Env, m: Memory, kept: set<Reg>, ctx: Context, cfa: Word, r: Reg,
                                rule: RegisterRule) {
    match rule
    case Offset(offset) =>
      r in kept ==> Load(m, WrappingAdd(cfa, AsWord(offset))) == Load(env.memory, WrappingAdd(cfa, AsWord(offset)))
    case Expression(expr) =>
      SameExpr(env, m, kept, ctx, expr) &&
      (match Evaluate(env, expr, ctx)
       case Some(address) => r in kept ==> Load(m, address) == Load(env.memory, address)
       case None => true)
    case ValExpression(expr) => SameExpr(env, m, kept, ctx, expr)
    case _ => true
  }

  ghost predicate SameRowReads(env: Env, m: Memory, kept: set<Reg>, row: Row, ctx: Context) {
    && (row.cfa.CfaExpression? ==> SameExpr(env, m, kept, ctx, row.cfa.expr))
    && (Cfa(env, row, ctx).Some? ==>
          forall i | 0 <= i < |row.rules| ::
            SameRuleReads(env, m, kept, ctx, Cfa(env, row, ctx).value, row.rules[i].0, row.rules[i].1))
  }

  /** Under memory `m`, the visited frame is unwound and its LSDA read from the same words. */
  ghost predicate SameReads(env: Env, m: Memory, kept: set<Reg>, v: Visit) {
    && SameRowReads(env, m, kept, v.frame.row, v.at.ctx)
    && SameWords(env.memory, m, SiteReads(env.memory, v.frame.fde, Get(v.at.ctx, RA), v.at.signal))
  }

  lemma RuleAgrees(env: Env, m: Memory, kept: set<Reg>, c: Context, d: Context, cfa: Word, r: Reg, rule: RegisterRule)
    requires Agree(kept, c, d) && LocalRule(kept, r, rule) && SameRuleReads(env, m, kept, c, cfa, r, rule)
    ensures RuleValue(env, c, cfa, r, rule).Some? == RuleValue(With(env, m), d, cfa, r, rule).Some?
    ensures r in kept ==> RuleValue(env, c, cfa, r, rule) == RuleValue(With(env, m), d, cfa, r, rule)
  {
  }

  /** One unwinding step from contexts that agree, under memories that agree on what it reads. */
  lemma CallersAgree(env: Env, m: Memory, kept: set<Reg>, row: Row, c: Context, d: Context)
    requires SP in kept && RA in kept && LocalRow(kept, row) && Agree(kept, c, d)
    requires SameRowReads(env, m, kept, row, c)
    ensures match Caller(env, row, c)
            case Failure => Caller(With(env, m), row, d) == Failure
            case Success(c') =>
              Caller(With(env, m), row, d).Success? && Agree(kept, c', Caller(With(env, m), row, d).value)
  {
    hide LocalRule, RuleValue, SameRuleReads;
    assert Cfa(env, row, c) == Cfa(With(env, m), row, d);
    if Cfa(env, row, c).Some? {
      var cfa := Cfa(env, row, c).value;
      forall i | 0 <= i < |row.rules|
        ensures RuleValue(env, c, cfa, row.rules[i].0, row.rules[i].1).Some? ==
                RuleValue(With(env, m), d, cfa, row.rules[i].0, row.rules[i].1).Some?
      {
        RuleAgrees(env, m, kept, c, d, cfa, row.rules[i].0, row.rules[i].1);
      }
      assert AllEvaluate(env, row.rules, c, cfa) == AllEvaluate(With(env, m), row.rules, d, cfa);
      forall r: Reg | r in kept
        ensures CallerRegister(env, row.rules, c, cfa, r) == CallerRegister(With(env, m), row.rules, d, cfa, r)
      {
        if rule :| RuleFor(row.rules, r) == Some(rule) {
          var i :| 0 <= i < |row.rules| && row.rules[i] == (r, rule);
          RuleAgrees(env, m, kept, c, d, cfa, r, rule);
        }
      }
    }
  }

  ghost predicate SamePoint(kept: set<Reg>, p: Point, q: Point) {
    Agree(kept, p.ctx, q.ctx) && p.signal == q.signal
  }

  /** Two visits of the same frame, with the kept registers the same. */
  ghost predicate SameVisit(kept: set<Reg>, v: Visit, v': Visit) {
    SamePoint(kept, v.at, v'.at) && v.frame == v'.frame
  }

  /** The same visits, and their LSDAs say the same there. */
  ghost predicate SameSight(env: Env, env': Env, kept: set<Reg>, v: Visit, v': Visit) {
    SameVisit(kept, v, v') && VisitAction(env, v) == VisitAction(env', v')
  }

  lemma SameSites(env: Env, m: Memory, kept: set<Reg>, v: Visit, v': Visit)
    requires RA in kept && SameVisit(kept, v, v') && SameReads(env, m, kept, v)
    ensures SameSight(env, With(env, m), kept, v, v')
  {
    hide SiteAction, SameRowReads;
    SameSite(env.memory, m, v.frame.fde, Get(v.at.ctx, RA), v.at.signal);
  }

  lemma FramesAgree(env: Env, m: Memory, kept: set<Reg>, p: Point, q: Point)
    requires Preserves(env, kept) && SamePoint(kept, p, q)
    ensures FromContext(env, p) == FromContext(With(env, m), q)
    ensures FromContext(env, p).Success? && FromContext(env, p).value.Some? ==>
              LocalRow(kept, FromContext(env, p).value.value.row)
  {
    hide LocalRow;
  }

  /** Walks from agreeing points visit the same frames, and keep agreeing, whatever else changed in memory. */
  lemma {:induction false} WalksAgree(env: Env, m: Memory, kept: set<Reg>, p: Point, q: Point, w: Walk, w': Walk)
    requires Preserves(env, kept) && SamePoint(kept, p, q)
    requires IsWalk(env, p, w) && IsWalk(With(env, m), q, w')
    requires forall v | v in w.visits :: SameReads(env, m, kept, v)
    ensures |w.visits| == |w'.visits|
    ensures forall i | 0 <= i < |w.visits| :: SameSight(env, With(env, m), kept, w.visits[i], w'.visits[i])
    decreases |w.visits|
  {
    hide FromContext, LocalRow, Caller, Agree, Preserves, SameSight, SameRowReads, SiteReads;
    FramesAgree(env, m, kept, p, q);
    match FromContext(env, p) {
      case Success(Some(frame)) =>
        KeepsPointers(env, kept);
        assert SameReads(env, m, kept, w.visits[0]);
        CallersAgree(env, m, kept, frame.row, p.ctx, q.ctx);
        SameSites(env, m, kept, w.visits[0], w'.visits[0]);
        match Next(env, w.visits[0]) {
          case Failure =>
            assert |w.visits| == 1 && |w'.visits| == 1;
          case Success(p') =>
            var q' := Next(With(env, m), w'.visits[0]).value;
            WalksAgree(env, m, kept, p', q', Walk(w.visits[1..], w.end), Walk(w'.visits[1..], w'.end));
            forall i | 0 <= i < |w.visits| ensures SameSight(env, With(env, m), kept, w.visits[i], w'.visits[i]) {
              if i > 0 {
                assert w.visits[i] == w.visits[1..][i - 1] && w'.visits[i] == w'.visits[1..][i - 1];
              }
            }
        }
      case _ =>
    }
  }

  lemma KeepsPointers(env: Env, kept: set<Reg>)
    requires Preserves(env, kept)
    ensures SP in kept && RA in kept
  {
  }

  lemma SightAgrees(env: Env, env': Env, kept: set<Reg>, v: Visit, v': Visit)
    requires SameSight(env, env', kept, v, v')
    ensures PadOf(env, v) == PadOf(env', v')
    ensures Quiet(env, v) <==> Quiet(env', v')
    ensures Handles(env, v) <==> Handles(env', v')
    ensures IsCleanup(env, v) <==> IsCleanup(env', v')
  {
    hide VisitAction;
  }

  // ----- Runs -----

  /**
   One entry into the unwinder, by the raise or by a resume: the memory it reads, where it starts,
   the walk it takes, and how many of its first visits belong to the frames that led back into it.
   */
  datatype Stage = Stage(memory: Memory, start: Point, walk: Walk, entry: nat)

  /** What the unwinder reads during a stage. */
  function In(env: Env, s: Stage): Env {
    With(env, s.memory)
  }

  /** From `i` and `j` on, the two stages see the same. */
  ghost predicate SameFrom(env: Env, kept: set<Reg>, s: Stage, i: int, s': Stage, j: int) {
    var visits, visits' := s.walk.visits, s'.walk.visits;
    && 0 <= i <= |visits| && 0 <= j <= |visits'| && |visits| - i == |visits'| - j
    && forall n, m | i <= n < |visits| && m - j == n - i ::
         SameSight(In(env, s), In(env, s'), kept, visits[n], visits'[m])
  }

  lemma SameFromTrans(env: Env, kept: set<Reg>, a: Stage, i: int, b: Stage, j: int, c: Stage, k: int)
    requires SameFrom(env, kept, b, j, a, i) && SameFrom(env, kept, b, j, c, k)
    ensures SameFrom(env, kept, a, i, c, k)
  {
    hide VisitAction;
    forall n, m | i <= n < |a.walk.visits| && m - k == n - i
      ensures SameSight(In(env, a), In(env, c), kept, a.walk.visits[n], c.walk.visits[m])
    {
      var l := j + (n - i);
      assert SameSight(In(env, b), In(env, a), kept, b.walk.visits[l], a.walk.visits[n]);
      assert SameSight(In(env, b), In(env, c), kept, b.walk.visits[l], c.walk.visits[m]);
    }
  }

  lemma SameFromTail(env: Env, kept: set<Reg>, s: Stage, i: int, s': Stage, j: int, d: nat)
    requires SameFrom(env, kept, s, i, s', j) && i + d <= |s.walk.visits|
    ensures SameFrom(env, kept, s, i + d, s', j + d)
  {
    hide SameSight;
  }

  lemma SuffixesAgree(env: Env, kept: set<Reg>, s: Stage, i: nat, s': Stage, j: nat)
    requires Preserves(env, kept)
    requires IsWalk(In(env, s), s.start, s.walk) && IsWalk(In(env, s'), s'.start, s'.walk)
    requires i < |s.walk.visits| && j < |s'.walk.visits|
    requires SamePoint(kept, s.walk.visits[i].at, s'.walk.visits[j].at)
    requires forall n | i <= n < |s.walk.visits| :: SameReads(In(env, s), s'.memory, kept, s.walk.visits[n])
    ensures SameFrom(env, kept, s, i, s', j)
  {
    hide IsPath, SamePoint, SameSight, SameReads, LocalRow;
    var w, w' := s.walk, s'.walk;
    SuffixIsWalk(In(env, s), s.start, w, i);
    SuffixIsWalk(In(env, s'), s'.start, w', j);
    assert With(In(env, s), s'.memory) == In(env, s');
    WalksAgree(In(env, s), s'.memory, kept, w.visits[i].at, w'.visits[j].at, Suffix(w, i), Suffix(w', j));
    forall n, m | i <= n < |w.visits| && m - j == n - i
      ensures SameSight(In(env, s), In(env, s'), kept, w.visits[n], w'.visits[m])
    {
      assert w.visits[i..][n - i] == w.visits[n] && w'.visits[j..][n - i] == w'.visits[m];
    }
  }

  /** The visit at which a stage leaves the unwinder. */
  ghost function Landing(env: Env, exception: Word, key: Word, s: Stage): nat {
    FirstStop(Cleaning(Rust(In(env, s), exception), key), s.walk.visits)
  }

  predicate IsCleanup(env: Env, v: Visit) {
    VisitAction(env, v).Done? && VisitAction(env, v).value.Cleanup?
  }

  /** The stage lands in a frame that has only a cleanup. */
  ghost predicate InCleanup(env: Env, exception: Word, key: Word, s: Stage) {
    var k := Landing(env, exception, key, s);
    k < |s.walk.visits| && IsCleanup(In(env, s), s.walk.visits[k])
  }

  /**
   `next` is the resume that ends the cleanup in which `s` landed. Its walk starts, as every driver's
   does, in a frame of the unwinder, passes the frame of the cleanup at a place with no landing pad,
   and comes to the caller which that frame had, with the kept registers intact. Memory may have
   changed, but not in the words from which the frames outside the cleanup's are unwound.
   */
  ghost predicate ResumedFrom(env: Env, kept: set<Reg>, exception: Word, key: Word, s: Stage, next: Stage) {
    var k := Landing(env, exception, key, s);
    && InCleanup(env, exception, key, s) && k + 1 < |s.walk.visits|
    && IsWalk(In(env, next), next.start, next.walk) && !next.start.signal
    && 2 <= next.entry < |next.walk.visits|
    && next.walk.visits[next.entry - 1].frame.fde == s.walk.visits[k].frame.fde
    && (forall j | 0 <= j < next.entry :: Quiet(In(env, next), next.walk.visits[j]))
    && SamePoint(kept, s.walk.visits[k + 1].at, next.walk.visits[next.entry].at)
    && (forall n | k < n < |s.walk.visits| :: SameReads(In(env, s), next.memory, kept, s.walk.visits[n]))
  }

  /** A raise: it starts from a normal frame, and no frame of its walk led back into the unwinder. */
  ghost predicate IsRaise(env: Env, s: Stage) {
    s.entry == 0 && !s.start.signal && IsWalk(In(env, s), s.start, s.walk)
  }

  /** A raise and the resumes that follow it. */
  ghost predicate IsRun(env: Env, kept: set<Reg>, exception: Word, key: Word, stages: seq<Stage>) {
    && stages != [] && IsRaise(env, stages[0])
    && forall t, u | 0 <= t && u == t + 1 && u < |stages| ::
         ResumedFrom(env, kept, exception, key, stages[t], stages[u])
  }

  /** The search of the raise finds its handler at visit `h`. */
  ghost predicate Finds(env: Env, exception: Word, raise: Stage, h: nat) {
    SearchOutcome(Rust(In(env, raise), exception), raise.walk) == HandlerAt(h)
  }

  /** The frame of the raise's walk from which stage `t` still has to unwind. */
  ghost function From(env: Env, exception: Word, key: Word, stages: seq<Stage>, t: nat): int
    requires t < |stages|
    decreases t, 0
  {
    if t == 0 then 0 else Landed(env, exception, key, stages, t - 1) + 1
  }

  /** The frame of the raise's walk in which stage `t` lands. */
  ghost function Landed(env: Env, exception: Word, key: Word, stages: seq<Stage>, t: nat): int
    requires t < |stages|
    decreases t, 1
  {
    From(env, exception, key, stages, t) + Landing(env, exception, key, stages[t]) - stages[t].entry
  }

  lemma BeforeHandler(env: Env, exception: Word, r: Stage, h: nat)
    requires Finds(env, exception, r, h)
    ensures h < |r.walk.visits| && Handles(In(env, r), r.walk.visits[h]) && PadOf(In(env, r), r.walk.visits[h]).Some?
    ensures !IsCleanup(In(env, r), r.walk.visits[h])
    ensures forall j | 0 <= j < h :: PadOf(In(env, r), r.walk.visits[j]) == None ==> Quiet(In(env, r), r.walk.visits[j])
    ensures forall j | 0 <= j < h :: !Handles(In(env, r), r.walk.visits[j])
    ensures forall j | 0 <= j < h :: PadOf(In(env, r), r.walk.visits[j]).Some? ==>
              IsCleanup(In(env, r), r.walk.visits[j])
  {
    hide SiteAction, Rust, SearchOutcome;
    SearchFindsHandler(In(env, r), exception, r.walk, h);
  }

  /** The second phase of a stage succeeds, and its `k`-th frame starts its landing pad. */
  ghost predicate EntersPadAt(env: Env, exception: Word, key: Word, s: Stage, k: nat) {
    k < |s.walk.visits| &&
    match CleanupOutcome(Rust(In(env, s), exception), s.walk.visits, key)
    case Installs(index, ctx) => index == k && EntersPad(In(env, s), exception, s.walk.visits[k], ctx)
    case Fails(_) => false
  }

  /**
   Stage `s`, which has the raise `r` left to unwind from frame `from` on, lands in `g`: the next
   frame with a landing pad. It is the handler `h` just when the frame catches.
   */
  ghost predicate LandsInTurn(env: Env, kept: set<Reg>, exception: Word, key: Word, r: Stage, h: nat, s: Stage,
                              from: int, g: int)
  {
    && 0 <= from <= g <= h < |r.walk.visits| && s.entry <= |s.walk.visits|
    && g == NextPad(In(env, r), r.walk.visits, from)
    && SameFrom(env, kept, s, s.entry, r, from)
    && var k := Landing(env, exception, key, s);
       && k == s.entry + (g - from) && k < |s.walk.visits|
       && SameSight(In(env, s), In(env, r), kept, s.walk.visits[k], r.walk.visits[g])
       && EntersPadAt(env, exception, key, s, k)
       && (g == h <==> Handles(In(env, s), s.walk.visits[k]))
       && (g < h <==> IsCleanup(In(env, s), s.walk.visits[k]))
  }

  /** Where a stage has rejoined the raise's walk, it lands in that walk's next landing pad. */
  lemma StageLandsAt(env: Env, kept: set<Reg>, exception: Word, key: Word, r: Stage, h: nat, s: Stage, from: nat)
    returns (g: nat)
    requires Finds(env, exception, r, h)
    requires from <= h < |r.walk.visits| && s.entry <= |s.walk.visits|
    requires forall j | 0 <= j < s.entry :: Quiet(In(env, s), s.walk.visits[j])
    requires SameFrom(env, kept, s, s.entry, r, from)
    ensures LandsInTurn(env, kept, exception, key, r, h, s, from, g)
    ensures g == from + Landing(env, exception, key, s) - s.entry
  {
    hide VisitAction, Rust, CleanupOutcome, FirstStop, NextPad, EntersPad, PadOf, Quiet, Handles, IsCleanup, Finds,
         SameSight, In;
    BeforeHandler(env, exception, r, h);
    var visits, e, e' := s.walk.visits, In(env, s), In(env, r);
    g := NextPad(e', r.walk.visits, from);
    var k := s.entry + (g - from);
    forall i | from <= i < |r.walk.visits|
      ensures s.entry + (i - from) < |visits|
      ensures PadOf(e, visits[s.entry + (i - from)]) == PadOf(e', r.walk.visits[i])
      ensures Quiet(e, visits[s.entry + (i - from)]) <==> Quiet(e', r.walk.visits[i])
    {
      assert SameSight(e, e', kept, visits[s.entry + (i - from)], r.walk.visits[i]);
      SightAgrees(e, e', kept, visits[s.entry + (i - from)], r.walk.visits[i]);
    }
    forall j | 0 <= j < k ensures Quiet(e, visits[j]) {
      if s.entry <= j {
        var i := from + (j - s.entry);
        assert PadOf(e', r.walk.visits[i]) == None && Quiet(e', r.walk.visits[i]);
        assert j == s.entry + (i - from);
      }
    }
    assert SameSight(e, e', kept, visits[k], r.walk.visits[g]);
    SightAgrees(e, e', kept, visits[k], r.walk.visits[g]);
    CleanupLands(e, exception, key, visits, k);
  }

  lemma RunStep(env: Env, kept: set<Reg>, exception: Word, key: Word, stages: seq<Stage>, t: nat)
    requires IsRun(env, kept, exception, key, stages) && t < |stages|
    ensures t == 0 ==> stages[0].entry == 0
    ensures t > 0 ==> ResumedFrom(env, kept, exception, key, stages[t - 1], stages[t])
    ensures IsWalk(In(env, stages[t]), stages[t].start, stages[t].walk) && !stages[t].start.signal
  {
    hide IsWalk, SameReads, SamePoint, InCleanup, Quiet;
    if t > 0 {
      assert ResumedFrom(env, kept, exception, key, stages[t - 1], stages[t]);
    }
  }

  lemma LandedIs(env: Env, exception: Word, key: Word, stages: seq<Stage>, t: nat)
    requires t < |stages|
    ensures Landed(env, exception, key, stages, t)
         == From(env, exception, key, stages, t) + Landing(env, exception, key, stages[t]) - stages[t].entry
    ensures From(env, exception, key, stages, t) == if t == 0 then 0 else Landed(env, exception, key, stages, t - 1) + 1
  {
    hide Landing;
  }

  /** By induction over the stages: each has rejoined the raise's walk, and lands in its next pad. */
  lemma {:induction false} StageLands(env: Env, kept: set<Reg>, exception: Word, key: Word, stages: seq<Stage>,
                                      h: nat, t: nat)
    requires Preserves(env, kept) && IsRun(env, kept, exception, key, stages) && t < |stages|
    requires Finds(env, exception, stages[0], h)
    ensures LandsInTurn(env, kept, exception, key, stages[0], h, stages[t],
                        From(env, exception, key, stages, t), Landed(env, exception, key, stages, t))
    decreases t
  {
    hide *;
    var r := stages[0];
    RunStep(env, kept, exception, key, stages, t);
    LandedIs(env, exception, key, stages, t);
    BeforeHandler(env, exception, r, h);
    var from := From(env, exception, key, stages, t);
    if t == 0 {
      SameAsItself(env, kept, r);
    } else {
      StageLands(env, kept, exception, key, stages, h, t - 1);
      RunStep(env, kept, exception, key, stages, t - 1);
      ResumeRejoins(env, kept, exception, key, stages[t - 1], stages[t], r, h,
                    From(env, exception, key, stages, t - 1), Landed(env, exception, key, stages, t - 1));
    }
    var g := StageLandsAt(env, kept, exception, key, r, h, stages[t], from);
  }

  lemma SameAsItself(env: Env, kept: set<Reg>, s: Stage)
    ensures SameFrom(env, kept, s, 0, s, 0)
  {
    hide VisitAction;
  }

  lemma ResumedFromIs(env: Env, kept: set<Reg>, exception: Word, key: Word, s: Stage, next: Stage)
    requires ResumedFrom(env, kept, exception, key, s, next)
    ensures var k := Landing(env, exception, key, s);
            && IsCleanup(In(env, s), s.walk.visits[k]) && k + 1 < |s.walk.visits|
            && IsWalk(In(env, next), next.start, next.walk) && next.entry < |next.walk.visits|
            && (forall j | 0 <= j < next.entry :: Quiet(In(env, next), next.walk.visits[j]))
            && SamePoint(kept, s.walk.visits[k + 1].at, next.walk.visits[next.entry].at)
            && (forall n | k < n < |s.walk.visits| :: SameReads(In(env, s), next.memory, kept, s.walk.visits[n]))
  {
    hide IsWalk, Landing, IsCleanup, Quiet, SamePoint, SameReads;
  }

  /** A resume from the cleanup of frame `g` walks over the frames of the raise from `g + 1` on. */
  lemma ResumeRejoins(env: Env, kept: set<Reg>, exception: Word, key: Word, s: Stage, next: Stage,
                      r: Stage, h: nat, from: int, g: int)
    requires Preserves(env, kept) && IsWalk(In(env, s), s.start, s.walk)
    requires ResumedFrom(env, kept, exception, key, s, next)
    requires LandsInTurn(env, kept, exception, key, r, h, s, from, g)
    ensures 0 <= g < h < |r.walk.visits|
    ensures next.entry <= |next.walk.visits| && forall j | 0 <= j < next.entry ::
              Quiet(In(env, next), next.walk.visits[j])
    ensures SameFrom(env, kept, next, next.entry, r, g + 1)
  {
    hide *;
    var k := Landing(env, exception, key, s);
    LandsInTurnIs(env, kept, exception, key, r, h, s, from, g);
    ResumedFromIs(env, kept, exception, key, s, next);
    SameFromLength(env, kept, s, s.entry, r, from);
    SuffixesAgree(env, kept, s, k + 1, next, next.entry);
    SameFromTail(env, kept, s, s.entry, r, from, k + 1 - s.entry);
    SameFromTrans(env, kept, next, next.entry, s, k + 1, r, g + 1);
  }

  lemma SameFromLength(env: Env, kept: set<Reg>, s: Stage, i: int, s': Stage, j: int)
    requires SameFrom(env, kept, s, i, s', j)
    ensures 0 <= i <= |s.walk.visits| && |s.walk.visits| - i == |s'.walk.visits| - j
  {
    hide SameSight;
  }

  /** The registers a stage installs are, where kept, those of the raise's own walk. */
  ghost predicate InstallsFrame(env: Env, kept: set<Reg>, exception: Word, key: Word, s: Stage, r: Stage, g: int)
    requires 0 <= g < |r.walk.visits|
  {
    var v := r.walk.visits[g];
    match CleanupOutcome(Rust(In(env, s), exception), s.walk.visits, key)
    case Fails(_) => false
    case Installs(_, ctx) =>
      && PadOf(In(env, r), v) == Some(Get(ctx, RA)) && Get(ctx, RAX) == exception && Get(ctx, RDX) == 0
      && Get(ctx, SP) == WrappingAdd(Get(v.at.ctx, SP), v.frame.row.savedArgsSize)
      && forall q: Reg | q in kept && q != RAX && q != RDX && q != SP && q != RA :: Get(ctx, q) == Get(v.at.ctx, q)
  }

  lemma EntersIsInstalls(env: Env, kept: set<Reg>, exception: Word, key: Word, s: Stage, k: nat, r: Stage, g: nat)
    requires SP in kept && g < |r.walk.visits|
    requires EntersPadAt(env, exception, key, s, k)
    requires SameSight(In(env, s), In(env, r), kept, s.walk.visits[k], r.walk.visits[g])
    ensures InstallsFrame(env, kept, exception, key, s, r, g)
  {
    hide PadOf, CleanupOutcome, Rust, VisitAction;
    SightAgrees(In(env, s), In(env, r), kept, s.walk.visits[k], r.walk.visits[g]);
  }

  /** The frames landed in, stage by stage. */
  ghost function Landings(env: Env, exception: Word, key: Word, stages: seq<Stage>): (r: seq<int>)
    ensures |r| == |stages| && forall t | 0 <= t < |stages| :: r[t] == Landed(env, exception, key, stages, t)
  {
    seq(|stages|, t requires 0 <= t < |stages| => Landed(env, exception, key, stages, t))
  }

  /** The `t`-th index is the next one with a landing pad after the one before it. */
  ghost predicate TakesTurn(env: Env, visits: seq<Visit>, landings: seq<int>, t: nat)
    requires t < |landings|
  {
    var from := if t == 0 then 0 else landings[t - 1] + 1;
    0 <= from <= landings[t] < |visits| && landings[t] == NextPad(env, visits, from)
  }

  ghost predicate NextInTurn(env: Env, visits: seq<Visit>, landings: seq<int>) {
    forall t | 0 <= t < |landings| :: TakesTurn(env, visits, landings, t)
  }

  /** Taking the next pad in turn goes outwards ... */
  lemma {:induction false} NextInTurnIncreases(env: Env, visits: seq<Visit>, landings: seq<int>, t: nat, u: nat)
    requires NextInTurn(env, visits, landings) && t < u < |landings|
    ensures landings[t] < landings[u]
    decreases u
  {
    hide PadOf, NextPad;
    assert TakesTurn(env, visits, landings, u);
    if t < u - 1 {
      NextInTurnIncreases(env, visits, landings, t, u - 1);
    }
  }

  /** ... and leaves no pad out. */
  lemma {:induction false} NextInTurnComplete(env: Env, visits: seq<Visit>, landings: seq<int>, t: nat, i: nat)
    requires NextInTurn(env, visits, landings) && t < |landings| && i <= landings[t]
    ensures i < |visits|
    ensures PadOf(env, visits[i]).Some? <==> i in landings[..t + 1]
    decreases t
  {
    hide PadOf;
    assert TakesTurn(env, visits, landings, t);
    var from := if t == 0 then 0 else landings[t - 1] + 1;
    assert landings[..t + 1] == landings[..t] + [landings[t]];
    if i < from {
      NextInTurnComplete(env, visits, landings, t - 1, i);
    } else {
      forall s | 0 <= s < t ensures landings[s] < i {
        if s < t - 1 { NextInTurnIncreases(env, visits, landings, s, t - 1); }
      }
    }
  }

  lemma LandsInTurnIs(env: Env, kept: set<Reg>, exception: Word, key: Word, r: Stage, h: nat, s: Stage, from: int,
                      g: int)
    requires LandsInTurn(env, kept, exception, key, r, h, s, from, g)
    ensures 0 <= from <= g <= h < |r.walk.visits| && g == NextPad(In(env, r), r.walk.visits, from)
    ensures var k := Landing(env, exception, key, s);
            && k == s.entry + (g - from) && k < |s.walk.visits| && s.entry <= |s.walk.visits|
            && (g < h <==> IsCleanup(In(env, s), s.walk.visits[k]))
            && SameVisit(kept, s.walk.visits[k], r.walk.visits[g])
    ensures SameFrom(env, kept, s, s.entry, r, from)
    ensures g != h ==> InCleanup(env, exception, key, s)
  {
    hide NextPad, SameFrom, SameVisit, EntersPadAt, Landing, Handles, IsCleanup;
  }

  lemma RunTakesTurns(env: Env, kept: set<Reg>, exception: Word, key: Word, stages: seq<Stage>, h: nat)
    requires Preserves(env, kept) && IsRun(env, kept, exception, key, stages)
    requires Finds(env, exception, stages[0], h)
    requires stages != []
    ensures NextInTurn(In(env, stages[0]), stages[0].walk.visits, Landings(env, exception, key, stages))
  {
    hide Preserves, IsRun, Finds, NextPad, Landings, Landed, From, LandsInTurn;
    var landings := Landings(env, exception, key, stages);
    forall t | 0 <= t < |stages| ensures TakesTurn(In(env, stages[0]), stages[0].walk.visits, landings, t) {
      StageLands(env, kept, exception, key, stages, h, t);
      LandedIs(env, exception, key, stages, t);
      LandsInTurnIs(env, kept, exception, key, stages[0], h, stages[t], From(env, exception, key, stages, t),
                    landings[t]);
    }
  }

  /** A stage's landing, told in terms of the raise's walk. */
  lemma StageInstalls(env: Env, kept: set<Reg>, exception: Word, key: Word, r: Stage, h: nat, s: Stage, from: int,
                      g: int)
    requires Preserves(env, kept)
    requires LandsInTurn(env, kept, exception, key, r, h, s, from, g)
    ensures 0 <= g <= h < |r.walk.visits|
    ensures InstallsFrame(env, kept, exception, key, s, r, g)
    ensures g == h <==> Handles(In(env, r), r.walk.visits[g])
  {
    hide Preserves, NextPad, EntersPadAt, SameFrom, SameSight, InstallsFrame, IsCleanup, Handles;
    KeepsPointers(env, kept);
    var k := Landing(env, exception, key, s);
    EntersIsInstalls(env, kept, exception, key, s, k, r, g);
    SightAgrees(In(env, s), In(env, r), kept, s.walk.visits[k], r.walk.visits[g]);
  }

  /**
   The whole run. No stage fails, so `_Unwind_Resume` never misses its assertion, and each installs
   the registers of the raise's own walk. The frames landed in are exactly those with a landing pad,
   from the thrower outwards and each once, none beyond the handler; a stage lands at the handler
   exactly when it lands in a frame that catches.
   */
  lemma RunLandsInOrder(env: Env, kept: set<Reg>, exception: Word, key: Word, stages: seq<Stage>, h: nat)
    requires Preserves(env, kept) && IsRun(env, kept, exception, key, stages)
    requires Finds(env, exception, stages[0], h)
    ensures h < |stages[0].walk.visits|
    ensures var landings, e := Landings(env, exception, key, stages), In(env, stages[0]);
            var visits := stages[0].walk.visits;
            && (forall t | 0 <= t < |stages| ::
                  && 0 <= landings[t] <= h
                  && InstallsFrame(env, kept, exception, key, stages[t], stages[0], landings[t])
                  && (landings[t] == h <==> Handles(e, visits[landings[t]])))
            && (forall t, u | 0 <= t < u < |stages| :: landings[t] < landings[u])
            && (forall t, i | 0 <= t < |stages| && 0 <= i <= landings[t] ::
                  PadOf(e, visits[i]).Some? <==> i in landings[..t + 1])
  {
    hide Preserves, Finds, NextPad, PadOf, InstallsFrame, Handles, Landed, Landings, ResumedFrom, IsRaise, LandsInTurn;
    BeforeHandler(env, exception, stages[0], h);
    RunTakesTurns(env, kept, exception, key, stages, h);
    var visits, landings, e := stages[0].walk.visits, Landings(env, exception, key, stages), In(env, stages[0]);
    forall t, u | 0 <= t < u < |stages| {
      NextInTurnIncreases(e, visits, landings, t, u);
    }
    forall t, i | 0 <= t < |stages| && 0 <= i <= landings[t] {
      NextInTurnComplete(e, visits, landings, t, i);
    }
    forall t | 0 <= t < |stages|
      ensures 0 <= landings[t] <= h && InstallsFrame(env, kept, exception, key, stages[t], stages[0], landings[t])
      ensures landings[t] == h <==> Handles(e, visits[landings[t]])
    {
      StageLands(env, kept, exception, key, stages, h, t);
      StageInstalls(env, kept, exception, key, stages[0], h, stages[t], From(env, exception, key, stages, t),
                    landings[t]);
    }
  }

  /** A run has at most one stage for each frame from the thrower to the handler. */
  lemma RunLength(env: Env, kept: set<Reg>, exception: Word, key: Word, stages: seq<Stage>, h: nat)
    requires Preserves(env, kept) && IsRun(env, kept, exception, key, stages)
    requires Finds(env, exception, stages[0], h)
    ensures |stages| <= h + 1
  {
    hide Preserves, Finds, PadOf, InstallsFrame, Handles, Landed, ResumedFrom, IsRaise;
    RunLandsInOrder(env, kept, exception, key, stages, h);
    var landings := Landings(env, exception, key, stages);
    Pigeonhole(landings, |landings| - 1);
  }

  lemma {:induction false} Pigeonhole(s: seq<int>, t: nat)
    requires t < |s| && s[0] >= 0 && forall i, j | 0 <= i < j < |s| :: s[i] < s[j]
    ensures t <= s[t]
    decreases t
  {
    if t > 0 { Pigeonhole(s, t - 1); }
  }

  // ----- Progress -----

  ghost function Prefix(stages: nat -> Stage, n: nat): (r: seq<Stage>)
    ensures |r| == n && forall t | 0 <= t < n :: r[t] == stages(t)
  {
    seq(n, t requires 0 <= t < n => stages(t))
  }

  lemma RunExtends(env: Env, kept: set<Reg>, exception: Word, key: Word, stages: seq<Stage>, next: Stage)
    requires IsRun(env, kept, exception, key, stages)
    requires ResumedFrom(env, kept, exception, key, stages[|stages| - 1], next)
    ensures IsRun(env, kept, exception, key, stages + [next])
  {
    hide ResumedFrom, IsRaise;
  }

  lemma PrefixExtends(env: Env, kept: set<Reg>, exception: Word, key: Word, stages: nat -> Stage, n: nat)
    requires IsRun(env, kept, exception, key, Prefix(stages, n + 1))
    requires ResumedFrom(env, kept, exception, key, stages(n), stages(n + 1))
    ensures IsRun(env, kept, exception, key, Prefix(stages, n + 2))
  {
    hide ResumedFrom, IsRun;
    RunExtends(env, kept, exception, key, Prefix(stages, n + 1), stages(n + 1));
    assert Prefix(stages, n + 2) == Prefix(stages, n + 1) + [stages(n + 1)];
  }

  lemma {:induction false} ReachesFrom(env: Env, kept: set<Reg>, exception: Word, key: Word, stages: nat -> Stage,
                                       h: nat, n: nat) returns (last: nat)
    requires Preserves(env, kept) && IsRun(env, kept, exception, key, Prefix(stages, n + 1))
    requires Finds(env, exception, stages(0), h)
    requires forall t: nat :: InCleanup(env, exception, key, stages(t)) ==>
               ResumedFrom(env, kept, exception, key, stages(t), stages(t + 1))
    ensures n <= last && IsRun(env, kept, exception, key, Prefix(stages, last + 1))
    ensures Landed(env, exception, key, Prefix(stages, last + 1), last) == h
    decreases h + 1 - n
  {
    hide *;
    var run := Prefix(stages, n + 1);
    RunLength(env, kept, exception, key, run, h);
    last := n;
    if Landed(env, exception, key, run, n) != h {
      StageLands(env, kept, exception, key, run, h, n);
      LandsInTurnIs(env, kept, exception, key, run[0], h, run[n], From(env, exception, key, run, n),
                    Landed(env, exception, key, run, n));
      PrefixExtends(env, kept, exception, key, stages, n);
      RunLength(env, kept, exception, key, Prefix(stages, n + 2), h);
      last := ReachesFrom(env, kept, exception, key, stages, h, n + 1);
    }
  }

  /**
   Every exception whose search found a handler comes to it: whenever each stage that lands in a
   cleanup is followed by a resume, however that depends on what happened before, one of the first
   `h + 1` stages lands at the handler, and those before it are the run of cleanups that leads there.
   */
  lemma RunReachesHandler(env: Env, kept: set<Reg>, exception: Word, key: Word, stages: nat -> Stage, h: nat)
    returns (last: nat)
    requires Preserves(env, kept) && IsRaise(env, stages(0)) && Finds(env, exception, stages(0), h)
    requires forall t: nat :: InCleanup(env, exception, key, stages(t)) ==>
               ResumedFrom(env, kept, exception, key, stages(t), stages(t + 1))
    ensures last <= h && IsRun(env, kept, exception, key, Prefix(stages, last + 1))
    ensures Landed(env, exception, key, Prefix(stages, last + 1), last) == h
  {
    hide Preserves, Finds, Landed, ResumedFrom, InCleanup, IsRaise;
    assert IsRun(env, kept, exception, key, Prefix(stages, 1));
    last := ReachesFrom(env, kept, exception, key, stages, h, 0);
    RunLength(env, kept, exception, key, Prefix(stages, last + 1), h);
  }

  // ----- The handler's flag -----

  /**
   In every stage, resumes included, the frame flagged as the handler frame is the handler's, and
   besides it only one that the key cannot tell from it.
   */
  lemma StageFlagsHandler(env: Env, kept: set<Reg>, exception: Word, key: Word, stages: seq<Stage>, h: nat,
                          t: nat, j: nat)
    requires Preserves(env, kept) && IsRun(env, kept, exception, key, stages) && t < |stages|
    requires Finds(env, exception, stages[0], h)
    requires h < |stages[0].walk.visits| && key == HandlerKey(stages[0].walk.visits[h].at)
    requires StepsOutward(stages[t].walk) && j < |stages[t].walk.visits|
    ensures var n := stages[t].entry + (h - From(env, exception, key, stages, t));
            && 0 <= n < |stages[t].walk.visits|
            && (HandlerFrame in CleanupActions(stages[t].walk.visits[j].at, key) <==>
                  j == n || SharesKey(stages[t].walk, n, j))
  {
    hide *;
    KeepsPointers(env, kept);
    StageLands(env, kept, exception, key, stages, h, t);
    LandsInTurnIs(env, kept, exception, key, stages[0], h, stages[t], From(env, exception, key, stages, t),
                  Landed(env, exception, key, stages, t));
    SameFromLength(env, kept, stages[t], stages[t].entry, stages[0], From(env, exception, key, stages, t));
    RunStep(env, kept, exception, key, stages, t);
    WalkStart(In(env, stages[t]), stages[t].start, stages[t].walk);
    var n := stages[t].entry + (h - From(env, exception, key, stages, t));
    SameFromAt(env, kept, stages[t], stages[t].entry, stages[0], From(env, exception, key, stages, t), n, h);
    SameKey(kept, stages[t].walk.visits[n], stages[0].walk.visits[h]);
    OutgoingIs(stages[t].walk);
    FlagsHandler(stages[t].walk, n, j);
  }

  lemma OutgoingIs(w: Walk)
    requires StepsOutward(w) && w.visits != [] && !w.visits[0].at.signal
    ensures Outgoing(w)
  {
    hide StepsOutward;
  }

  lemma SameFromAt(env: Env, kept: set<Reg>, s: Stage, i: int, s': Stage, j: int, n: int, m: int)
    requires SameFrom(env, kept, s, i, s', j) && i <= n < |s.walk.visits| && m - j == n - i
    ensures 0 <= n && 0 <= m < |s'.walk.visits| && SameVisit(kept, s.walk.visits[n], s'.walk.visits[m])
  {
    hide SameVisit, VisitAction;
  }

  lemma SameKey(kept: set<Reg>, v: Visit, v': Visit)
    requires SP in kept && SameVisit(kept, v, v')
    ensures HandlerKey(v.at) == HandlerKey(v'.at)
  {
  }
}
