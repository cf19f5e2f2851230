/** The Rust personality routine (src/personality.rs:156-205). */
module Personality {
  import opened Words
  import opened Wrappers
  import opened Contexts
  import opened Slices
  import opened Pointers
  import opened Lsda
  import LsdaEncoding
  import opened Frames
  import opened Walks
  import opened Abi

  datatype Answer = Answer(code: ReasonCode, ctx: Context)

  /** What the accessors of `UnwindContext` say about a function at an instruction. */
  function ViewAt(memory: Memory, fde: Fde, ip: Word, signal: bool): View {
    View(memory, fde.textBase, fde.dataBase, fde.start, ip, signal)
  }

  function ViewOf(env: Env, v: Visit): View {
    ViewAt(env.memory, v.frame.fde, Get(v.at.ctx, RA), v.at.signal)
  }

  /** What the LSDA of a function says about an instruction. */
  function SiteAction(memory: Memory, fde: Fde, ip: Word, signal: bool): Outcome<EHAction> {
    match fde.lsda
    case None => Done(NoAction)
    case Some(s) => if s.ptr == 0 then Done(NoAction) else FindAction(ViewAt(memory, fde, ip, signal), s)
  }

  /** What the LSDA of the visited frame says about the instruction the frame stands at. */
  function VisitAction(env: Env, v: Visit): Outcome<EHAction> {
    SiteAction(env.memory, v.frame.fde, Get(v.at.ctx, RA), v.at.signal)
  }

  /** The words of memory that this depends on. */
  function SiteReads(memory: Memory, fde: Fde, ip: Word, signal: bool): set<Word> {
    match fde.lsda
    case None => {}
    case Some(s) => if s.ptr == 0 then {} else ActionReads(ViewAt(memory, fde, ip, signal), s)
  }

  lemma SameSite(memory: Memory, memory': Memory, fde: Fde, ip: Word, signal: bool)
    requires SameWords(memory, memory', SiteReads(memory, fde, ip, signal))
    ensures SiteAction(memory', fde, ip, signal) == SiteAction(memory, fde, ip, signal)
    ensures SiteReads(memory', fde, ip, signal) == SiteReads(memory, fde, ip, signal)
  {
    hide FindAction, ActionReads;
    if fde.lsda.Some? && fde.lsda.value.ptr != 0 {
      SameAction(ViewAt(memory, fde, ip, signal), memory', fde.lsda.value);
    }
  }

  /** Entering a landing pad: the exception in the first data register, zero in the second. */
  function EnterPad(ctx: Context, exception: Word, lpad: Word): Context {
    Set(Set(Set(ctx, RAX, exception), RDX, 0), RA, lpad)
  }

  function RustAnswer(env: Env, version: int, actions: set<Action>, exception: Word, v: Visit): Answer {
    if version != 1 then Answer(FatalPhase1Error, v.at.ctx)
    else
      match VisitAction(env, v)
      case Error => Answer(FatalPhase1Error, v.at.ctx)
      case Panic => Answer(Aborted, v.at.ctx)
      case Done(action) =>
        if SearchPhase in actions then
          Answer(if action.Catch? || action.Filter? then HandlerFound
                 else if action.Terminate? then FatalPhase1Error else ContinueUnwind, v.at.ctx)
        else if action.NoAction? || (action.Filter? && ForceUnwind in actions) then
          Answer(ContinueUnwind, v.at.ctx)
        else if action.Terminate? then
          Answer(FatalPhase2Error, v.at.ctx)
        else
          Answer(InstallContext, EnterPad(v.at.ctx, exception, action.lpad))
  }

  /**
   The routine writes registers only to have a landing pad entered, and then only the two data
   registers and the IP; a walk that goes on is never disturbed.
   */
  lemma OnlyInstallingWrites(env: Env, version: int, actions: set<Action>, exception: Word, v: Visit)
    ensures var answer := RustAnswer(env, version, actions, exception, v);
            && (answer.code != InstallContext ==> answer.ctx == v.at.ctx)
            && (answer.code == InstallContext ==>
                  && Get(answer.ctx, RAX) == exception && Get(answer.ctx, RDX) == 0
                  && forall r: Reg | r != RAX && r != RDX && r != RA :: Get(answer.ctx, r) == Get(v.at.ctx, r))
  {
    hide FindAction, Get, Set;
  }

  /**
   The routine's answer to every action, in every phase. A function without an LSDA has nothing to do;
   a broken table is an error of the first phase in both; under forced unwinding only filters are let pass.
   */
  lemma RustTable(env: Env, actions: set<Action>, exception: Word, v: Visit)
    ensures var answer := RustAnswer(env, 1, actions, exception, v);
            match VisitAction(env, v)
            case Error => answer == Answer(FatalPhase1Error, v.at.ctx)
            case Panic => answer.code == Aborted
            case Done(action) =>
              if SearchPhase in actions then
                answer == Answer(match action
                                 case NoAction => ContinueUnwind
                                 case Cleanup(_) => ContinueUnwind
                                 case Catch(_) => HandlerFound
                                 case Filter(_) => HandlerFound
                                 case Terminate => FatalPhase1Error, v.at.ctx)
              else
                match action
                case NoAction => answer == Answer(ContinueUnwind, v.at.ctx)
                case Terminate => answer == Answer(FatalPhase2Error, v.at.ctx)
                case Cleanup(lpad) => AnswersPad(answer, exception, v, lpad)
                case Catch(lpad) => AnswersPad(answer, exception, v, lpad)
                case Filter(lpad) =>
                  if ForceUnwind in actions then answer == Answer(ContinueUnwind, v.at.ctx)
                  else AnswersPad(answer, exception, v, lpad)
    ensures v.frame.fde.lsda == None || v.frame.fde.lsda.value.ptr == 0 ==> VisitAction(env, v) == Done(NoAction)
  {
    hide FindAction, Get, Set;
    EnterPadRegisters(v.at.ctx, exception, 0);
    forall lpad { EnterPadRegisters(v.at.ctx, exception, lpad); }
  }

  /** The answer installs the landing pad: rax, rdx and the return address (registers 0, 1 and 16) are written. */
  ghost predicate AnswersPad(answer: Answer, exception: Word, v: Visit, lpad: Word) {
    && answer.code == InstallContext
    && forall r: Reg :: Get(answer.ctx, r) ==
         if r == 0 then exception else if r == 1 then 0 else if r == 16 then lpad else Get(v.at.ctx, r)
  }

  lemma EnterPadRegisters(ctx: Context, exception: Word, lpad: Word)
    ensures forall r: Reg :: Get(EnterPad(ctx, exception, lpad), r) ==
              if r == 0 then exception else if r == 1 then 0 else if r == 16 then lpad else Get(ctx, r)
  {
    hide Get, Set;
  }

  /** A version other than 1 is an error of the first phase, whatever the LSDA says. */
  lemma OtherVersions(env: Env, version: int, actions: set<Action>, exception: Word, v: Visit)
    requires version != 1
    ensures RustAnswer(env, version, actions, exception, v) == Answer(FatalPhase1Error, v.at.ctx)
  {
  }

  /**
   For a function whose LSDA encodes a table, the action is what the table says of the frame's
   instruction, with the bases and the start of the function's own entry.
   */
  lemma TableDecides(env: Env, v: Visit, t: LsdaEncoding.Table, n: Word, p: Word, bytes: seq<Byte>, junk: seq<Byte>)
    requires p != 0 && p + |bytes| + |junk| < WORD && v.frame.fde.lsda == Some(Slice(p, bytes + junk))
    requires var fde := v.frame.fde;
             var view := View(env.memory, fde.textBase, fde.dataBase, fde.start, Get(v.at.ctx, 16), v.at.signal);
             LsdaEncoding.Encode(t, view, p, n) == Some(bytes) && LsdaEncoding.WellFormed(t, view, t.sites)
    ensures var fde := v.frame.fde;
            var view := View(env.memory, fde.textBase, fde.dataBase, fde.start, Get(v.at.ctx, 16), v.at.signal);
            VisitAction(env, v) == Done(LsdaEncoding.Lookup(t, view, t.sites))
  {
    hide FindAction, LsdaEncoding.Encode, LsdaEncoding.Lookup, LsdaEncoding.WellFormed, Get;
    var fde := v.frame.fde;
    var view := View(env.memory, fde.textBase, fde.dataBase, fde.start, Get(v.at.ctx, 16), v.at.signal);
    LsdaEncoding.ParserAnswers(t, view, p, n, bytes, junk);
  }

  /** The context a personality routine is handed, with its registers open to change. */
  class UnwindContext {
    const frame: Frame
    var ctx: Context
    const signal: bool

    constructor (frame: Frame, ctx: Context, signal: bool)
      ensures this.frame == frame && this.ctx == ctx && this.signal == signal
    {
      this.frame, this.ctx, this.signal := frame, ctx, signal;
    }

    function ToVisit(): Visit
      reads this
    {
      Visit(Point(ctx, signal), frame)
    }
  }

  method RustEhPersonality(env: Env, version: int, actions: set<Action>, exception: Word, context: UnwindContext)
    returns (code: ReasonCode)
    modifies context
    ensures Answer(code, context.ctx) == RustAnswer(env, version, actions, exception, old(context.ToVisit()))
  {
    if version != 1 {
      return FatalPhase1Error;
    }
    var lsda := context.frame.fde.lsda;
    var ehAction: Outcome<EHAction>;
    if lsda == None || lsda.value.ptr == 0 {
      return ContinueUnwind;
    }
    var reader := new Reader(lsda.value);
    ehAction := FindEhAction(reader, ViewOf(env, context.ToVisit()));
    if ehAction == Panic { return Aborted; }
    if ehAction == Error { return FatalPhase1Error; }

    if SearchPhase in actions {
      match ehAction.value {
        case NoAction | Cleanup(_) => return ContinueUnwind;
        case Catch(_) | Filter(_) => return HandlerFound;
        case Terminate => return FatalPhase1Error;
      }
    } else {
      if ehAction.value == NoAction || (ehAction.value.Filter? && ForceUnwind in actions) {
        return ContinueUnwind;
      }
      if ehAction.value == Terminate {
        return FatalPhase2Error;
      }
      context.ctx := Set(context.ctx, RAX, exception);
      context.ctx := Set(context.ctx, RDX, 0);
      context.ctx := Set(context.ctx, RA, ehAction.value.lpad);
      return InstallContext;
    }
  }
}
