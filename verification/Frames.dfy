/** Finding a frame and unwinding it (src/unwinder/frame.rs). */
module Frames {
  import opened Words
  import opened Wrappers
  import opened Contexts
  import opened Slices

  /** An unwinding expression; what it evaluates to is a parameter of the model. */
  type Expr = nat

  datatype CfaRule = RegisterAndOffset(register: Reg, offset: Signed) | CfaExpression(expr: Expr)

  datatype RegisterRule =
    | Undefined
    | SameValue
    | Offset(offset: Signed)
    | ValOffset(offset: Signed)
    | Register(register: Reg)
    | Expression(expr: Expr)
    | ValExpression(expr: Expr)
    | Constant(value: Word)

  ghost predicate DistinctRegisters(rules: seq<(Reg, RegisterRule)>) {
    forall i, j | 0 <= i < j < |rules| :: rules[i].0 != rules[j].0
  }

  datatype RawRow = Row(cfa: CfaRule, rules: seq<(Reg, RegisterRule)>, savedArgsSize: Word)

  /** gimli keeps at most one rule for a register. */
  type Row = r: RawRow | DistinctRegisters(r.rules) ghost witness Row(RegisterAndOffset(SP, 0), [], 0)

  /** One frame description entry; `rows` says which row applies at each address it has one for. */
  datatype Fde = Fde(
    start: Word,
    length: nat,
    rows: map<Word, Row>,
    trampoline: bool,
    personality: Option<Word>,
    lsda: Option<Slice>,
    textBase: Option<Word>,
    dataBase: Option<Word>
  )

  datatype Frame = Frame(fde: Fde, row: Row)

  /** Everything a walk reads besides the registers; none of it changes during a walk. */
  datatype Env = Env(fdes: seq<Fde>, memory: Memory, evaluate: (Expr, Memory, Context) -> Option<Word>)

  /** What an expression evaluates to; it may read memory. */
  function Evaluate(env: Env, expr: Expr, ctx: Context): Option<Word> {
    env.evaluate(expr, env.memory, ctx)
  }

  predicate Contains(fde: Fde, pc: Word) { fde.start <= pc < fde.start + fde.length }

  /** The lookup of `find_fde`: the first entry whose range holds the address. */
  function FindFde(fdes: seq<Fde>, pc: Word): (r: Option<Fde>)
    ensures r.Some? ==> r.value in fdes && Contains(r.value, pc)
    ensures r.None? ==> forall i | 0 <= i < |fdes| :: !Contains(fdes[i], pc)
  {
    if fdes == [] then None
    else if Contains(fdes[0], pc) then Some(fdes[0])
    else FindFde(fdes[1..], pc)
  }

  /** Where a walk stands: the registers, and whether a signal interrupted at their RA. */
  datatype Point = Point(ctx: Context, signal: bool)

  /** The address whose frame is looked up: a return address points past its call. */
  function LookupPc(p: Point): Word {
    if p.signal then Get(p.ctx, RA) else WrappingSub(Get(p.ctx, RA), 1)
  }

  /** `Frame::from_context`: no frame at the end of the stack or outside every entry. */
  function FromContext(env: Env, p: Point): Result<Option<Frame>> {
    if Get(p.ctx, RA) == 0 then Success(None)
    else
      match FindFde(env.fdes, LookupPc(p))
      case None => Success(None)
      case Some(fde) =>
        if LookupPc(p) in fde.rows then Success(Some(Frame(fde, fde.rows[LookupPc(p)]))) else Failure
  }

  // ----- What the caller's registers are -----

  function Cfa(env: Env, row: Row, ctx: Context): Option<Word> {
    match row.cfa
    case RegisterAndOffset(register, offset) => Some(WrappingAdd(Get(ctx, register), AsWord(offset)))
    case CfaExpression(expr) => Evaluate(env, expr, ctx)
  }

  /** What a rule recovers for register `r`, from the callee's registers and the CFA alone. */
  function RuleValue(env: Env, ctx: Context, cfa: Word, r: Reg, rule: RegisterRule): Option<Word> {
    match rule
    case Undefined => Some(0)
    case SameValue => Some(Get(ctx, r))
    case Offset(offset) => Some(Load(env.memory, WrappingAdd(cfa, AsWord(offset))))
    case ValOffset(offset) => Some(WrappingAdd(cfa, AsWord(offset)))
    case Register(q) => Some(Get(ctx, q))
    case Expression(expr) =>
      (match Evaluate(env, expr, ctx)
       case None => None
       case Some(address) => Some(Load(env.memory, address)))
    case ValExpression(expr) => Evaluate(env, expr, ctx)
    case Constant(value) => Some(value)
  }

  /** The rule a row gives for a register. */
  function RuleFor(rules: seq<(Reg, RegisterRule)>, r: Reg): (rule: Option<RegisterRule>)
    ensures rule.None? <==> forall i | 0 <= i < |rules| :: rules[i].0 != r
    ensures rule.Some? ==> exists i | 0 <= i < |rules| :: rules[i] == (r, rule.value)
  {
    if rules == [] then None
    else if rules[0].0 == r then Some(rules[0].1)
    else
      var rule := RuleFor(rules[1..], r);
      assert rule.Some? ==>
               exists i | 0 <= i < |rules[1..]| :: rules[1..][i] == (r, rule.value) && rules[i + 1] == rules[1..][i];
      assert forall i | 1 <= i < |rules| :: rules[i] == rules[1..][i - 1];
      rule
  }

  /** A register without a rule: the CFA becomes the stack pointer, RA ends the walk, the rest stay. */
  function Unlisted(ctx: Context, cfa: Word, r: Reg): Word {
    if r == SP then cfa else if r == RA then 0 else Get(ctx, r)
  }

  function CallerRegister(env: Env, rules: seq<(Reg, RegisterRule)>, ctx: Context, cfa: Word, r: Reg): Word {
    match RuleFor(rules, r)
    case None => Unlisted(ctx, cfa, r)
    case Some(rule) =>
      match RuleValue(env, ctx, cfa, r, rule)
      case None => 0
      case Some(v) => v
  }

  ghost predicate AllEvaluate(env: Env, rules: seq<(Reg, RegisterRule)>, ctx: Context, cfa: Word) {
    forall i | 0 <= i < |rules| :: RuleValue(env, ctx, cfa, rules[i].0, rules[i].1).Some?
  }

  /** The context whose registers are given by `f`. */
  function Tabulate(f: Reg -> Word): (c: Context)
    ensures forall r: Reg :: Get(c, r) == f(r)
  {
    Context(seq(16, i requires 0 <= i < 16 => f(i)), f(RA), f(MXCSR), f(FCW))
  }

  /** Every register of the caller at once, read off the callee: the meaning of a row. */
  ghost function Caller(env: Env, row: Row, ctx: Context): Result<Context> {
    match Cfa(env, row, ctx)
    case None => Failure
    case Some(cfa) =>
      if AllEvaluate(env, row.rules, ctx, cfa)
      then Success(Tabulate(r => CallerRegister(env, row.rules, ctx, cfa, r)))
      else Failure
  }

  lemma CallerSucceeds(env: Env, row: Row, ctx: Context, cfa: Word, newCtx: Context)
    requires Cfa(env, row, ctx) == Some(cfa) && AllEvaluate(env, row.rules, ctx, cfa)
    requires forall q: Reg :: Get(newCtx, q) == CallerRegister(env, row.rules, ctx, cfa, q)
    ensures Caller(env, row, ctx) == Success(newCtx)
  {
    hide CallerRegister, RuleValue, Cfa, Get;
    SameRegisters(newCtx, Caller(env, row, ctx).value);
  }

  lemma CallerFails(env: Env, row: Row, ctx: Context, cfa: Word, i: nat)
    requires Cfa(env, row, ctx) == Some(cfa) && i < |row.rules|
    requires RuleValue(env, ctx, cfa, row.rules[i].0, row.rules[i].1) == None
    ensures Caller(env, row, ctx) == Failure
  {
    hide RuleValue, Cfa;
    assert !AllEvaluate(env, row.rules, ctx, cfa);
  }

  lemma NoRulesYet(env: Env, ctx: Context, cfa: Word)
    ensures forall q: Reg :: CallerRegister(env, [], ctx, cfa, q) == Get(Set(Set(ctx, SP, cfa), RA, 0), q)
    ensures AllEvaluate(env, [], ctx, cfa)
  {
  }

  lemma EvaluateOneMore(env: Env, rules: seq<(Reg, RegisterRule)>, ctx: Context, cfa: Word, i: nat)
    requires i < |rules| && AllEvaluate(env, rules[..i], ctx, cfa)
    requires RuleValue(env, ctx, cfa, rules[i].0, rules[i].1).Some?
    ensures AllEvaluate(env, rules[..i + 1], ctx, cfa)
  {
    hide RuleValue;
    var longer := rules[..i + 1];
    forall j | 0 <= j < |longer| ensures RuleValue(env, ctx, cfa, longer[j].0, longer[j].1).Some? {
      if j < i { assert longer[j] == rules[..i][j]; }
    }
  }

  lemma OneMoreRule(env: Env, rules: seq<(Reg, RegisterRule)>, ctx: Context, cfa: Word, i: nat, v: Word, q: Reg)
    requires i < |rules| && DistinctRegisters(rules)
    requires RuleValue(env, ctx, cfa, rules[i].0, rules[i].1) == Some(v)
    ensures CallerRegister(env, rules[..i + 1], ctx, cfa, q) ==
            if q == rules[i].0 then v else CallerRegister(env, rules[..i], ctx, cfa, q)
  {
    hide RuleValue, RuleFor;
    Extend(rules, i, q);
  }

  /** The loop of `Frame::unwind` assigns in turn, and yet computes the parallel assignment `Caller`. */
  method Unwind(env: Env, row: Row, ctx: Context) returns (r: Result<Context>)
    ensures r == Caller(env, row, ctx)
  {
    hide CallerRegister, AllEvaluate, RuleValue, Get, Set;
    var cfa: Word;
    match row.cfa {
      case RegisterAndOffset(register, offset) =>
        cfa := WrappingAdd(Get(ctx, register), AsWord(offset));
      case CfaExpression(expr) =>
        var value := Evaluate(env, expr, ctx);
        if value == None { return Failure; }
        cfa := value.value;
    }

    var newCtx := Set(ctx, SP, cfa);
    newCtx := Set(newCtx, RA, 0);
    NoRulesYet(env, ctx, cfa);
    assert row.rules[..0] == [];

    for i := 0 to |row.rules|
      invariant AllEvaluate(env, row.rules[..i], ctx, cfa)
      invariant forall q: Reg :: Get(newCtx, q) == CallerRegister(env, row.rules[..i], ctx, cfa, q)
    {
      var (reg, rule) := row.rules[i];
      var value := RuleValue(env, ctx, cfa, reg, rule);
      if value == None {
        CallerFails(env, row, ctx, cfa, i);
        return Failure;
      }
      EvaluateOneMore(env, row.rules, ctx, cfa, i);
      newCtx := Set(newCtx, reg, value.value);
      forall q: Reg ensures Get(newCtx, q) == CallerRegister(env, row.rules[..i + 1], ctx, cfa, q) {
        OneMoreRule(env, row.rules, ctx, cfa, i, value.value, q);
      }
    }
    assert row.rules[..|row.rules|] == row.rules;
    CallerSucceeds(env, row, ctx, cfa, newCtx);
    return Success(newCtx);
  }

  /** Taking one more rule gives that register its rule and no other register another. */
  lemma Extend(rules: seq<(Reg, RegisterRule)>, i: nat, q: Reg)
    requires i < |rules| && DistinctRegisters(rules)
    ensures RuleFor(rules[..i + 1], q) == if q == rules[i].0 then Some(rules[i].1) else RuleFor(rules[..i], q)
  {
    RuleForUnique(rules[..i + 1], q);
    RuleForUnique(rules[..i], q);
    assert rules[..i + 1][i] == rules[i];
    if j :| 0 <= j < i && rules[j].0 == q {
      assert rules[..i + 1][j] == rules[..i][j] == rules[j];
    }
  }

  /** With distinct registers, a listed rule is the rule. */
  lemma RuleForUnique(rules: seq<(Reg, RegisterRule)>, r: Reg)
    requires DistinctRegisters(rules)
    ensures forall i | 0 <= i < |rules| && rules[i].0 == r :: RuleFor(rules, r) == Some(rules[i].1)
  {
  }

  /**
   What one unwinding step does to each register: a listed register gets what its rule reads off
   the old registers; an unlisted SP becomes the CFA, an unlisted RA zero, and the rest are kept.
   */
  lemma CallerReads(env: Env, row: Row, ctx: Context, caller: Context)
    requires Caller(env, row, ctx) == Success(caller)
    ensures Cfa(env, row, ctx).Some?
    ensures forall i | 0 <= i < |row.rules| ::
              RuleValue(env, ctx, Cfa(env, row, ctx).value, row.rules[i].0, row.rules[i].1)
              == Some(Get(caller, row.rules[i].0))
    ensures forall r: Reg :: (forall i | 0 <= i < |row.rules| :: row.rules[i].0 != r) ==>
              Get(caller, r) == if r == SP then Cfa(env, row, ctx).value else if r == RA then 0 else Get(ctx, r)
  {
    forall i | 0 <= i < |row.rules| ensures RuleFor(row.rules, row.rules[i].0) == Some(row.rules[i].1) {
      RuleForUnique(row.rules, row.rules[i].0);
    }
  }

  /** The CFA, from the old registers: a register plus an offset, wrapping, or what an expression evaluates to. */
  lemma CfaReads(env: Env, row: Row, ctx: Context)
    ensures match row.cfa
            case RegisterAndOffset(q, offset) => Cfa(env, row, ctx) == Some((Get(ctx, q) + offset) % WORD)
            case CfaExpression(expr) => Cfa(env, row, ctx) == env.evaluate(expr, env.memory, ctx)
  {
  }

  /** What each kind of rule recovers for its register, from the callee's registers, the CFA and memory. */
  lemma RulesRead(env: Env, row: Row, ctx: Context, caller: Context, cfa: Word, i: nat)
    requires Caller(env, row, ctx) == Success(caller) && Cfa(env, row, ctx) == Some(cfa) && i < |row.rules|
    ensures var value := Get(caller, row.rules[i].0);
            match row.rules[i].1
            case Undefined => value == 0
            case SameValue => value == Get(ctx, row.rules[i].0)
            case Offset(offset) => value == Load(env.memory, (cfa + offset) % WORD)
            case ValOffset(offset) => value == (cfa + offset) % WORD
            case Register(q) => value == Get(ctx, q)
            case Expression(expr) =>
              exists address :: env.evaluate(expr, env.memory, ctx) == Some(address)
                && value == Load(env.memory, address)
            case ValExpression(expr) => env.evaluate(expr, env.memory, ctx) == Some(value)
            case Constant(constant) => value == constant
  {
    hide Caller, RuleValue, Cfa, Get, CallerRegister;
    CallerReads(env, row, ctx, caller);
    RuleReads(env, ctx, cfa, row.rules[i].0, row.rules[i].1, Get(caller, row.rules[i].0));
  }

  lemma RuleReads(env: Env, ctx: Context, cfa: Word, r: Reg, rule: RegisterRule, value: Word)
    requires RuleValue(env, ctx, cfa, r, rule) == Some(value)
    ensures match rule
            case Undefined => value == 0
            case SameValue => value == Get(ctx, r)
            case Offset(offset) => value == Load(env.memory, (cfa + offset) % WORD)
            case ValOffset(offset) => value == (cfa + offset) % WORD
            case Register(q) => value == Get(ctx, q)
            case Expression(expr) =>
              exists address :: env.evaluate(expr, env.memory, ctx) == Some(address)
                && value == Load(env.memory, address)
            case ValExpression(expr) => env.evaluate(expr, env.memory, ctx) == Some(value)
            case Constant(constant) => value == constant
  {
    hide Get;
  }

  /** A step fails exactly when an expression that it needs does: the CFA's, or that of a listed rule. */
  lemma CallerFailsWhen(env: Env, row: Row, ctx: Context)
    ensures Caller(env, row, ctx) == Failure <==>
            || (row.cfa.CfaExpression? && env.evaluate(row.cfa.expr, env.memory, ctx) == None)
            || exists i :: 0 <= i < |row.rules| && FailingRule(env, row.rules[i].1, ctx)
  {
    var cfa := Cfa(env, row, ctx);
    if cfa.Some? {
      forall i | 0 <= i < |row.rules|
        ensures RuleValue(env, ctx, cfa.value, row.rules[i].0, row.rules[i].1) == None <==>
                FailingRule(env, row.rules[i].1, ctx)
      {
      }
    }
  }

  predicate FailingRule(env: Env, rule: RegisterRule, ctx: Context) {
    (rule.Expression? || rule.ValExpression?) && env.evaluate(rule.expr, env.memory, ctx) == None
  }

  /** Where RA (register 16) is undefined, or has no rule, the walk has come to its end: there is no further frame. */
  lemma UndefinedRaEnds(env: Env, row: Row, ctx: Context, caller: Context, signal: bool)
    requires Caller(env, row, ctx) == Success(caller)
    requires (16, Undefined) in row.rules || forall i | 0 <= i < |row.rules| :: row.rules[i].0 != 16
    ensures FromContext(env, Point(caller, signal)) == Success(None)
  {
    CallerReads(env, row, ctx, caller);
    if (16, Undefined) in row.rules {
      var i :| 0 <= i < |row.rules| && row.rules[i] == (16, Undefined);
      RulesRead(env, row, ctx, caller, Cfa(env, row, ctx).value, i);
    }
  }

  /**
   Which frame is found: none for a zero return address or an address in no entry; otherwise that of the
   first entry with the address, and its row there, or an error if it has none. The address is the
   return address itself after a signal, and the byte before it otherwise.
   */
  lemma FrameFound(env: Env, p: Point, pc: Word)
    requires Get(p.ctx, 16) != 0 ==> pc == if p.signal then Get(p.ctx, 16) else Get(p.ctx, 16) - 1
    ensures Get(p.ctx, 16) == 0 ==> FromContext(env, p) == Success(None)
    ensures Get(p.ctx, 16) != 0 && (forall j | 0 <= j < |env.fdes| :: !Covered(env.fdes[j], pc)) ==>
              FromContext(env, p) == Success(None)
    ensures forall i | 0 <= i < |env.fdes| && Get(p.ctx, 16) != 0 && Covered(env.fdes[i], pc)
              && (forall j | 0 <= j < i :: !Covered(env.fdes[j], pc)) ::
              FromContext(env, p) ==
              if pc in env.fdes[i].rows then Success(Some(Frame(env.fdes[i], env.fdes[i].rows[pc])))
              else Failure
  {
    if Get(p.ctx, 16) != 0 {
      forall i | 0 <= i < |env.fdes| && Covered(env.fdes[i], pc) && (forall j | 0 <= j < i :: !Covered(env.fdes[j], pc))
        ensures FindFde(env.fdes, pc) == Some(env.fdes[i])
      {
        FirstFde(env.fdes, pc, i);
      }
    }
  }

  /** The entry's range holds the address. */
  predicate Covered(fde: Fde, pc: Word) { fde.start <= pc && pc - fde.start < fde.length }

  lemma {:induction false} FirstFde(fdes: seq<Fde>, pc: Word, i: nat)
    requires i < |fdes| && Covered(fdes[i], pc) && forall j | 0 <= j < i :: !Covered(fdes[j], pc)
    ensures FindFde(fdes, pc) == Some(fdes[i])
  {
    if i > 0 {
      assert !Covered(fdes[0], pc);
      forall j | 0 <= j < i - 1 ensures !Covered(fdes[1..][j], pc) { assert fdes[1..][j] == fdes[j + 1]; }
      FirstFde(fdes[1..], pc, i - 1);
    }
  }

  /** The order in which a row lists its rules does not matter. */
  lemma OrderIrrelevant(env: Env, row: Row, row': Row, ctx: Context)
    requires row.cfa == row'.cfa
    requires forall rule :: rule in row.rules <==> rule in row'.rules
    ensures Caller(env, row, ctx) == Caller(env, row', ctx)
  {
    var cfa := Cfa(env, row, ctx);
    if cfa.Some? {
      SameEvaluate(env, row.rules, row'.rules, ctx, cfa.value);
      SameEvaluate(env, row'.rules, row.rules, ctx, cfa.value);
      if AllEvaluate(env, row.rules, ctx, cfa.value) {
        forall r: Reg ensures RuleFor(row.rules, r) == RuleFor(row'.rules, r) {
          SameRule(row.rules, row'.rules, r);
        }
        SameRegisters(Caller(env, row, ctx).value, Caller(env, row', ctx).value);
      }
    }
  }

  lemma SameEvaluate(env: Env, rules: seq<(Reg, RegisterRule)>, rules': seq<(Reg, RegisterRule)>, ctx: Context,
                     cfa: Word)
    requires forall rule :: rule in rules' ==> rule in rules
    ensures AllEvaluate(env, rules, ctx, cfa) ==> AllEvaluate(env, rules', ctx, cfa)
  {
    if AllEvaluate(env, rules, ctx, cfa) {
      forall i | 0 <= i < |rules'| ensures RuleValue(env, ctx, cfa, rules'[i].0, rules'[i].1).Some? {
        assert rules'[i] in rules;
        var j :| 0 <= j < |rules| && rules[j] == rules'[i];
        assert RuleValue(env, ctx, cfa, rules[j].0, rules[j].1).Some?;
      }
    }
  }

  lemma SameRule(rules: seq<(Reg, RegisterRule)>, rules': seq<(Reg, RegisterRule)>, r: Reg)
    requires DistinctRegisters(rules) && DistinctRegisters(rules')
    requires forall rule :: rule in rules <==> rule in rules'
    ensures RuleFor(rules, r) == RuleFor(rules', r)
  {
    RuleForUnique(rules, r);
    RuleForUnique(rules', r);
    if i :| 0 <= i < |rules| && rules[i].0 == r {
      assert rules[i] in rules';
    } else {
      forall j | 0 <= j < |rules'| ensures rules'[j].0 != r {
        assert rules'[j] in rules;
      }
    }
  }

  /** The wrapping CFA is the integer sum whenever that sum is an address. */
  lemma CfaIsSum(env: Env, row: Row, ctx: Context)
    requires row.cfa.RegisterAndOffset?
    requires 0 <= Get(ctx, row.cfa.register) + row.cfa.offset < WORD
    ensures Cfa(env, row, ctx) == Some(Get(ctx, row.cfa.register) + row.cfa.offset)
  {
  }

  /** `Frame::adjust_stack_for_args`. */
  function AdjustStackForArgs(frame: Frame, ctx: Context): Context {
    Set(ctx, SP, WrappingAdd(Get(ctx, SP), frame.row.savedArgsSize))
  }
}
