# A verified model of a stack unwinder

The repository recovers a caller's registers from its callee's (frame descriptions say how), and builds
on that the entry points of the C++ ABI's unwinding interface: raising an exception in two phases,
resuming it after a cleanup, forced unwinding, and backtraces. This project models those parts, the
Rust personality routine with its table parser, the registry of frame tables, the set-once finder and
the assembly that saves and restores a register context, and proves what they promise together.

| module | subject |
|---|---|
| `Words`, `Wrappers`, `Contexts`, `Abi` | 64-bit words, outcomes, the x86_64 register context, reason codes and actions |
| `Frames`, `Walks` | one unwinding step; the walk of all frames from a context outwards, and when it ends |
| `Raise`, `TwoPhase`, `Resumption` | raising; agreement of the two phases; whole runs of a raise and its resumes |
| `Forced`, `ForcedRuns`, `Backtrace`, `Scripts` | forced unwinding, resume and rethrow, and whole runs of them; backtraces; sequences of calls cut short by a refusal |
| `CallStack` | a machine that saves, spills, calls and returns, and the proof that unwinding inverts its call stack |
| `Exceptions`, `ThrowExample` | exceptions thrown through that machine: landings, cleanups that run on and resume, and a run in which this happens |
| `Slices`, `Leb128`, `Pointers` | the byte cursor, LEB128 integers and encoded pointers, each with its encoder |
| `Lsda`, `LsdaEncoding`, `Personality` | the table parser, its independent meaning and encoder, and the personality routine |
| `Registry` | the linked list of frame tables |
| `SetOnce` | the set-once finder, any number of threads, any interleaving |
| `Assembly`, `SaveRestore` | straight-line code over byte memory; `save_context` and `restore_context` on x86_64 and x86 |

## How to read it

- **Methods and what they are proved against.** Code that changes things step by step is a method with
  the source's loop. Its contract equates the outcome with a function or predicate over the *whole
  input* (a walk, a byte string, a list), and lemmas say what that function or predicate means.
- **Walks.** `Walks.IsWalk` defines the walk from a point, and `IsPath` the walk as far as it is followed. The
  drivers take a path as a ghost argument that reaches at least to where they stop, so that their contracts cover
  every call that ends, on endless stacks too; `PathExists` gives paths of any length. `OutwardWalkEnds` and
  `CfaAboveWalkEnds` construct the whole walk, with a bound on its length known at the start, whenever each step
  moves outwards.
- **Memory between a raise and its resumes** changes: each stage of a run in `Resumption` has its own. What is asked
  of it is only that the words from which the frames still to be unwound are recovered, and the words their LSDAs are
  read through, are as they were. `Exceptions` shows that the machine's call stack guarantees just that, whatever
  a cleanup and the unwinder itself write: there the cleanup runs on as code, and its call of the unwinder
  overwrites its own frame's last return address. Read-only data is never written, since that would fault.
- **Arithmetic** is that of the release profile: `usize` additions wrap modulo 2^64. A panic is an
  outcome of its own (`Panic`, `Aborted`, `Panicked`), never a precondition. Bytes are little-endian.
- **Parameters.** DWARF expression evaluation, gimli's search of one section, the personality routine and
  the stop and trace callbacks are arbitrary functions. The stop and trace callbacks may have state: they
  answer from the history of all calls. Theorems of `TwoPhase` and `Resumption` are about the Rust personality.
- **`CallStack` memory** is keyed by word address. All words that frames read lie at a distance from each
  other that is a multiple of eight, and so does every word that the machine writes, so no two of them
  overlap in part. `SaveRestore` is where overlap matters, and there memory is made of bytes.
- **Registry series** (`Apply`, `Run`) speak of the list as a value; the contracts of the class's methods say
  that each method does to the heap list what `Apply` does to that value.

Two promises do not hold without a condition; the model keeps the code and states the condition:

- `SP - signal`, the key that tells the handler's frame, flags a second frame in exactly one situation: a normal frame
  and a signal frame follow each other, the signal frame is the outer one and its SP is one higher. `FlagsHandler`
  states this for every outward walk, `OddStackConfuses` gives a walk on which it happens, and on even
  stacks it cannot (`OnlyHandlerFlagged`).
- `restore_context` pushes onto the target stack before it has finished reading the context. `PushClear64` and
  `PushClear86` say for which stack pointers the push misses what is still to be read, `AboveRecordedIsClear` that
  this includes all at or above the recorded one, and `OverlapBreaks` that for every other one some context is
  restored wrongly.

The comment at src/personality.rs:188 speaks of a terminate action where the code lets *filters* pass under forced
unwinding; the model follows the code.

## Model

| member | source | states |
|---|---|---|
| Contexts.Set | src/unwinder/arch/x86_64.rs:49-59 | assigning one register changes how that register reads and no other, MXCSR and FCW included |
| Frames.FindFde | src/unwinder/frame.rs:60-63 | the lookup finds an entry whose range holds the address, and finds none only if no entry's range does |
| Frames.FrameFound | src/unwinder/frame.rs:47-76 | no frame for a zero return address or an address in no entry; otherwise the first entry with the address and its row there, or an error without one; the address is the return address after a signal and the byte before it otherwise |
| Frames.Unwind | src/unwinder/frame.rs:134-172 | the loop of assignments computes the parallel assignment `Caller`: all registers of the caller read off the callee's old registers and the CFA; it fails exactly when the CFA or one listed rule cannot be evaluated |
| Frames.CallerReads | src/unwinder/frame.rs:145-171 | each listed register gets what its rule reads from the old context, so explicit SP and RA rules override the defaults; unlisted SP becomes the CFA, unlisted RA zero, every other register keeps its value |
| Frames.RulesRead | src/unwinder/frame.rs:148-169 | kind by kind, in numbers: undefined gives 0, same value the register's own old value, a register another's, a value offset the CFA plus it modulo 2^64, an offset the word there, an expression the word at its value, a value expression its value, a constant itself |
| Frames.UndefinedRaEnds | src/unwinder/frame.rs:145-153 | where RA is undefined or has no rule, the next point has no frame and the walk ends |
| Frames.CfaReads | src/unwinder/frame.rs:138-143 | the CFA is a register of the old context plus an offset modulo 2^64, or what its expression evaluates to |
| Frames.CallerFailsWhen | src/unwinder/frame.rs:138-171 | a step fails if and only if the CFA's expression or that of a listed rule fails |
| Frames.OrderIrrelevant | src/unwinder/frame.rs:148-169 | two rows with the same CFA rule and the same register rules in any order recover the same caller, or both fail |
| Frames.CfaIsSum | src/unwinder/frame.rs:138-143 | the wrapping CFA is the integer sum of register and offset whenever that sum is an address |
| Walks.SuffixIsWalk | src/unwinder/mod.rs:159-190 | from each visit on, the rest of a path is the path from there, with that visit's frame and the next visit's registers found by `from_context` and `unwind` |
| Walks.PathExists | src/unwinder/mod.rs:159-190 | from every start the walk can be followed for any number of frames or else to its end |
| Walks.WalkUnique | src/unwinder/mod.rs:159-190 | a starting point has at most one whole walk |
| Walks.OutwardWalkEnds | src/unwinder/mod.rs:213-251 | if SP grows at each step, or stays equal only from a signal-interrupted frame to a normal one, the walk from `p` exists, is finite and has at most twice (2^64 - SP) visits, plus one |
| Walks.CfaAboveWalkEnds | src/unwinder/mod.rs:401-428 | if each reached frame's CFA lies strictly above SP and is the caller's SP, the walk has at most 2^64 - SP visits |
| Walks.OutwardVisits | src/unwinder/mod.rs:213-251 | neighbouring visits of an outward walk have growing stack pointers, but for a signal-interrupted frame and its caller |
| Raise.RaiseException | src/unwinder/mod.rs:152-205 | the search calls each routine once per frame up to the first that does not continue; if it finds no handler the saved context and the exception are untouched and the right code is returned (END_OF_STACK only where the stack ended); otherwise the exception holds no stop function and the handler's key, and the second phase over the same walk decides between installing and failing; on endless stacks too, wherever both phases stop |
| Raise.RaisePhase2 | src/unwinder/mod.rs:207-252 | the second phase calls the routines of the frames up to the first that does not continue, flags exactly the frames whose key is the handler's, and either leaves the installed registers with the argument adjustment in the saved context or fails |
| Raise.SearchAsks | src/unwinder/mod.rs:161-183 | every call of a search carries exactly {SEARCH_PHASE}, and there is exactly one for each visited frame with a routine, in order |
| Raise.CleanupAsks | src/unwinder/mod.rs:215-234 | every call of a second phase carries exactly {CLEANUP_PHASE}, or {CLEANUP_PHASE, HANDLER_FRAME} where SP less the signal is the key, and there is exactly one for each visited frame with a routine, in order |
| Raise.OutcomeAt | src/unwinder/mod.rs:236-250 | the second phase is decided by the one frame before which every routine continues, or fails if all do |
| TwoPhase.SearchFindsHandler | src/personality.rs:179-184 | with the Rust personality the search ends at frame `h` if and only if `h` catches or filters and every frame inside it has nothing to do or only a cleanup |
| TwoPhase.RustSearches | src/personality.rs:179-184 | a frame lets the search pass, or ends it, exactly by what its table says there |
| TwoPhase.RustCleans | src/personality.rs:185-204 | outside forced unwinding a context is installed exactly where the frame has a landing pad, and with the exception, zero and the pad in place |
| TwoPhase.CleanupLands | src/unwinder/mod.rs:213-251 | if only quiet frames precede visit `k` and it has a pad, the second phase installs `k`, with each register the walk's own apart from the two data registers, the IP and the argument adjustment |
| TwoPhase.InstallsEnters | src/unwinder/mod.rs:236-241 | conversely, whatever the second phase installs is the landing pad of the visit where it stops, with those registers |
| TwoPhase.PhasesAgree | src/unwinder/mod.rs:152-252 | once the search found a handler at `h`, the second phase never fails and installs the innermost frame at or inside `h` that has a landing pad |
| TwoPhase.KeyStep | src/unwinder/mod.rs:192-215 | along an outward step the key never falls, and two neighbours share a key if and only if a normal frame is followed by a signal frame with SP one higher |
| TwoPhase.KeysGrow | src/unwinder/mod.rs:192-215 | along every outward walk from a normal frame the keys never fall, and two frames share one if and only if they follow each other, the inner normal, the outer a signal frame with SP one higher |
| TwoPhase.KeysIncrease | src/unwinder/mod.rs:192-215 | with even stack pointers the keys strictly increase |
| TwoPhase.FlagsHandler | src/unwinder/mod.rs:220-225 | on every outward walk from a normal frame, HANDLER_FRAME is raised at a frame if and only if it is the handler's or shares its key in that one way |
| TwoPhase.OnlyHandlerFlagged | src/unwinder/mod.rs:220-225 | on even stacks it is raised at the handler's frame and at no other |
| TwoPhase.OddStackConfuses | src/unwinder/mod.rs:192-225 | on odd stacks another frame can be flagged: a walk of two frames whose search finds its handler in the outer one, and whose inner one is flagged as well |
| Resumption.CallersAgree | src/unwinder/frame.rs:134-172 | contexts that agree on the kept registers, under memories that agree on the words the row reads, have callers that agree on them, or both fail |
| Resumption.WalksAgree | src/unwinder/mod.rs:213-251 | walks from points that agree on the kept registers visit the same frames, keep agreeing and read the same LSDA actions, whatever changed in memory besides the words they read |
| Resumption.ResumeRejoins | src/unwinder/mod.rs:346-362 | a resume called from the cleanup of frame `g` passes the unwinder's frame and the cleanup's and then walks the raise's own frames from `g + 1` on |
| Resumption.StageLandsAt | src/unwinder/mod.rs:213-251 | a stage that has rejoined the raise's walk at `from` lands in the next frame of that walk with a landing pad, which is the handler exactly when it catches |
| Resumption.StageLands | src/unwinder/mod.rs:346-362 | by induction over any number of resumes, each with its own memory, each stage rejoins the raise's walk just outside the frame last landed in |
| Resumption.NextInTurnComplete | src/unwinder/mod.rs:346-362 | landing each time in the next frame with a pad leaves none out |
| Resumption.RunLandsInOrder | src/unwinder/mod.rs:346-362 | whole runs of a raise and its resumes: no stage fails, so the assertion of resume holds; the frames entered are exactly those with a landing pad from the thrower on, each once, strictly outwards, none beyond the handler, with the registers of the raise's own walk; a stage is at the handler exactly when its frame catches |
| Resumption.RunLength | src/unwinder/mod.rs:346-362 | a run has at most one stage per frame from the thrower to the handler |
| Resumption.RunReachesHandler | src/unwinder/mod.rs:346-362 | however resumes follow cleanups, as long as each cleanup ends in one, the exception comes to its handler within `h + 1` stages |
| Resumption.StageFlagsHandler | src/unwinder/mod.rs:348-352 | in every stage, resumes included, HANDLER_FRAME is raised at the handler's frame and besides it only at one that shares its key |
| Forced.ForceUnwindPhase2 | src/unwinder/mod.rs:275-342 | the calls made are the script of the walk up to the first refusal; a refused routine alone may install, every other refusal is a phase 2 error, and a script played to its end returns END_OF_STACK or the error the walk ended in |
| Forced.EndOfStackAccepted | src/unwinder/mod.rs:285-340 | END_OF_STACK is returned if and only if the walk reached the end and the stop function accepted its last call, flagged with the end |
| Forced.StopsOncePerFrame | src/unwinder/mod.rs:285-308 | the stop calls of a script are one for each visited frame in order, and one more for the end of the stack |
| Forced.ScriptOrder | src/unwinder/mod.rs:285-324 | each stop call carries the one argument and exactly {FORCE_UNWIND, CLEANUP_PHASE}, with END_OF_STACK added in the last call if the stack ends there and in no other; it is followed by a call of the frame's routine with the same two flags if and only if the frame has one, and no routine is called otherwise |
| Forced.RoutinesOncePerFrame | src/unwinder/mod.rs:310-333 | the routine calls are exactly one for each visited frame that has a routine, in order |
| Forced.LastCallDecides | src/unwinder/mod.rs:305-342 | every call but the last let unwinding go on; if the last did not, a routine that answered INSTALL_CONTEXT has its registers installed with SP past the arguments, and anything else fails; if it did, the end of the walk decides |
| Forced.ForcedUnwind | src/unwinder/mod.rs:256-273 | the exception keeps the stop function and its argument, and the forced walk decides the ending |
| Forced.Resume | src/unwinder/mod.rs:346-362 | an exception without a stop function goes on with its second phase under the key it holds, one with a stop function is forced on with the function and argument it holds; the exception is not changed, and anything but an installed context is a panic |
| Forced.ResumeOrRethrow | src/unwinder/mod.rs:366-381 | a raised exception is raised afresh with a new search and key; a forced one goes on with what it holds, unchanged, and panics unless a context is installed |
| ForcedRuns.InstallsSomewhere | src/unwinder/mod.rs:326-331 | forced unwinding that installs a context does so at one visit, with the calls of all frames up to it made |
| ForcedRuns.ForcedRunKeepsStop | src/unwinder/mod.rs:262-365 | over a forced unwinding and any number of resumes, every stop call is of the first stop function with the first argument |
| ForcedRuns.ForcedRejoins | src/unwinder/mod.rs:346-362 | each resume rejoins the first walk just outside the frame last landed in |
| ForcedRuns.ForcedRunStopsEveryFrame | src/unwinder/mod.rs:281-308 | no frame of the first walk is skipped: up to the frame last landed in, each was stopped for in some stage |
| ForcedRuns.ForcedRunStopsAll | src/unwinder/mod.rs:281-341 | and if the last stage goes on to the end, every frame was |
| Scripts.PlaysUnique | src/unwinder/mod.rs:305-342 | a script and the answers to its calls determine the calls made |
| Backtrace.Backtrace | src/unwinder/mod.rs:392-430 | the trace function gets exactly the reported calls up to the first refusal, on endless stacks too; a refusal or bad unwind information is a phase 1 error, otherwise END_OF_STACK; the saved context is a value that the walk only copies |
| Backtrace.HidingCuts | src/unwinder/mod.rs:399-422 | hiding reports exactly the suffix of the full report after the first frame that starts at `_Unwind_Backtrace`, and nothing at all when there is none |
| Backtrace.ReportsAll | src/unwinder/mod.rs:401-427 | without hiding every visit is reported in order, and then the end of the stack, without a frame |
| Backtrace.LastCallDecides | src/unwinder/mod.rs:412-427 | every call but the last was answered NO_REASON; any other answer to the last is a phase 1 error; otherwise the report is complete and the end of the walk decides |
| CallStack.StepKeepsInv | src/unwinder/frame.rs:134-172 | every instruction of the machine, calls, returns and pushes included, keeps each frame on the stack leading back to its caller: no step disturbs a slot that a live row refers to |
| CallStack.ReachableInv | src/unwinder/frame.rs:134-172 | so does every reachable state |
| CallStack.SlotRulesAre | src/unwinder/frame.rs:148-157 | the row of a layout has the return address's rule and one for each saved slot, with distinct registers |
| CallStack.FindsFrame | src/unwinder/frame.rs:47-76 | from an activation's registers `from_context` finds its own function and the row of the instruction it stands at, or of the call it is suspended in |
| CallStack.UnwindsFrame | src/unwinder/frame.rs:134-172 | unwinding a good frame from any context that agrees on the kept registers recovers the caller's kept registers, SP and RA |
| CallStack.WalkFrom | src/unwinder/frame.rs:47-172 | from any activation the walk visits the activations outwards, and ends outside the outermost |
| CallStack.InvertingWalkOutward | src/unwinder/mod.rs:192-193 | such walks move outwards at every step, by multiples of eight |
| CallStack.UnwindingInvertsCallStack | src/unwinder/frame.rs:47-172 | in every reachable state the walk from any activation visits exactly it and its callers, innermost first, with their frames and preserved registers, and ends where RA is zero; with an even SP it is one whose frames the handler key tells apart |
| CallStack.NestedCallRuns | src/unwinder/frame.rs:134-172 | the hypotheses can be met: there is a described program with a run to a state with a suspended activation |
| CallStack.NeverStuck | src/unwinder/frame.rs:134-172 | in every state that keeps the invariant each instruction has its step, so that the theorems are about machines that run |
| Exceptions.MoveKeepsInv | src/unwinder/arch/x86_64.rs:99-142 | no step of the machine and no landing disturbs a frame that is still on the stack, though `restore_context` writes below the frame it lands in |
| Exceptions.LandingWrites | src/unwinder/arch/x86_64.rs:104-112 | a landing writes the return address below the new stack pointer and no other word |
| Exceptions.ReachableInv | src/unwinder/mod.rs:200-203 | every state reached by steps and landings has good frames |
| Exceptions.UnwindingInvertsReached | src/unwinder/frame.rs:47-172 | and in it the walk from any activation is the call stack from there outwards |
| Exceptions.ResumeFollows | src/unwinder/mod.rs:346-362 | a resume called from within a cleanup's frame, after the cleanup ran on and wrote what it liked, has rejoined the raise's walk and reads the same words |
| Exceptions.ThrowIsRun | src/unwinder/mod.rs:152-362 | an exception thrown and resumed in the machine is a run of stages |
| Exceptions.ThrowLandsInOrder | src/unwinder/mod.rs:152-362 | the landings of an exception are in the frames that were on the stack when it was thrown: exactly those whose call has a landing pad, outwards, each once, the handler's alone catching; after each the stack is the throw's own from that frame on, with the frame at its pad and its preserved registers |
| Exceptions.ThrowFlagsHandler | src/unwinder/mod.rs:220-225 | in every stage HANDLER_FRAME is raised at the handler's frame and at no other |
| ThrowExample.ResumedThrowExists | src/unwinder/mod.rs:152-362 | the hypotheses can be met: a raise, a landing in a cleanup, and a resume from it that overwrites the word the raise read the cleanup's return address from |
| Slices.FromToLE | src/personality.rs:61-69 | reading a fixed-size little-endian integer gives back the value written |
| Slices.LittleEndian | src/personality.rs:61-69 | each byte weighs 256 times the one before it |
| Leb128.UlebExact | src/personality.rs:62 | reading accepts exactly the encodings of at most ten bytes whose value fits in 64 bits, padded or not, returns that value and stops right after it |
| Leb128.SlebExact | src/personality.rs:66 | the same for signed values |
| Leb128.UlebTotal | src/personality.rs:62 | any bytes: the integer they start with, if it ends within ten bytes and fits in 64 bits, and an error otherwise, unterminated bytes included |
| Leb128.SlebTotal | src/personality.rs:66 | the same for signed values |
| Leb128.DwarfExamples | src/personality.rs:62-66 | the examples that the DWARF standard gives for both kinds are read as it says |
| Leb128.UlebRoundTrip | src/personality.rs:99-103 | every 64-bit value is read back from its shortest encoding, whatever follows |
| Leb128.SlebRoundTrip | src/personality.rs:142 | every signed 64-bit value is read back from its shortest encoding |
| Pointers.ParsePointerEncoding | src/personality.rs:23-32 | one byte is consumed, and accepted exactly when it is a valid encoding |
| Pointers.ParseEncodedPointer | src/personality.rs:34-79 | the cursor is left where, and the pointer is what, the functional reading says; errors and panics included |
| Pointers.PointerEncodingMeans | src/personality.rs:23-32 | the valid encoding bytes, by number |
| Pointers.OffsetMeans | src/personality.rs:60-71 | what each format number reads: its bytes as an unsigned or a signed little-endian integer modulo 2^64, or a LEB128 |
| Pointers.BaseMeans | src/personality.rs:43-58 | what each application number is relative to, and that alignment skips to the next multiple of eight |
| Pointers.PointerMeans | src/personality.rs:73-78 | the pointer is base plus offset modulo 2^64, and with the high bit of the encoding set the word stored there |
| Pointers.PointerFails | src/personality.rs:39-71 | an omitted pointer is an error, and otherwise reading fails as its base or its offset does |
| Pointers.ValidatedNeverUnreachable | src/personality.rs:43-71 | after a validated encoding neither `unreachable!` is hit: it panics if and only if the base it is relative to is not known |
| Pointers.OffsetRoundTrip | src/personality.rs:60-71 | each format reads back every offset it can hold, sign extension included |
| Pointers.OffsetReadFits | src/personality.rs:60-71 | what a format reads is something it can hold |
| Pointers.PointerRoundTrip | src/personality.rs:34-79 | for every valid format and application and every address representable there, decoding the encoded pointer gives the address modulo 2^64, with the base taken before the offset is read and the alignment skipped |
| Lsda.FindEhAction | src/personality.rs:81-104 | the parser answers what the functional reading of the bytes at the cursor answers |
| Lsda.ScanTable | src/personality.rs:106-153 | the loop over the shrinking table, with its early exits, computes the recursive scan |
| Lsda.ScanDecides | src/personality.rs:106-153 | any bytes: what decides a scan is the place where it stops, past readable entries before the instruction; an unreadable entry there is an error, a later one or the table's end terminates, and the one with the instruction gives its action |
| Lsda.EntryMeans | src/personality.rs:107-128 | an entry is three values and a ULEB128, and fails as the first of them that does |
| Lsda.EntryActionMeans | src/personality.rs:132-151 | the covering entry's action in every case: no pad, no record, a record past the input or unreadable, and each sign of its type index |
| Lsda.HeaderMeans | src/personality.rs:90-103 | the header's parts in order, each of which may fail |
| Lsda.ActionMeans | src/personality.rs:102-106 | the table is what the header says, the action table what follows, and a longer table panics |
| Lsda.ScanPanics | src/personality.rs:106-153 | on any bytes under a validated encoding, the scan panics if and only if there are call sites and their encoding lacks its base |
| Lsda.SameAction | src/personality.rs:90-142 | the action found depends on memory only through the words loaded by the indirect pointers that are read |
| Lsda.PanicsExactly | src/personality.rs:90-153 | on any bytes and for any frame, the parser panics if and only if the landing-pad base lacks its base, the stated table length runs past the input, or there are call sites and they lack theirs |
| LsdaEncoding.SiteRoundTrip | src/personality.rs:107-128 | the encoding of a call site is read back as that site, and the cursor stops after it |
| LsdaEncoding.RecordRoundTrip | src/personality.rs:141-142 | skipping to the offset of the k-th action record reads that record's type index |
| LsdaEncoding.HeaderRoundTrip | src/personality.rs:90-104 | the encoded header is read back as landing-pad base, call-site encoding and table length, whatever the type table |
| LsdaEncoding.ScanAnswers | src/personality.rs:106-153 | on sorted disjoint sites the scan with its early exit answers an unrestricted search for the covering site |
| LsdaEncoding.Lookup | src/personality.rs:106-153 | the abstract lookup is the action of whichever site covers the instruction, and Terminate if none does |
| LsdaEncoding.ParserAnswers | src/personality.rs:81-154 | for every well-formed table and every instruction, the parser run on the table's encoding, placed anywhere and followed by anything, answers the abstract lookup |
| LsdaEncoding.CallSelectsItsSite | src/personality.rs:86-88 | a return address selects the site that holds its call, even where the next site starts at that address |
| LsdaEncoding.InterruptedSelectsItsSite | src/personality.rs:86-88 | an instruction interrupted by a signal selects its own site |
| LsdaEncoding.GapTerminates | src/personality.rs:106-153 | where no site has the call or the interrupted instruction, the answer is Terminate |
| LsdaEncoding.LayoutExists | src/personality.rs:102-104 | tables whose sites do not depend on their position have an encoding at every address |
| LsdaEncoding.UlebTableEncodes | src/personality.rs:90-128 | every table in the form that Rust emits has an encoding |
| LsdaEncoding.DirectTableReadsNothing | src/personality.rs:90-142 | and such a table is read without loading any word through an indirect pointer |
| Personality.RustEhPersonality | src/personality.rs:157-205 | code and registers after the call are the answer that the table at the visited frame gives |
| Personality.OnlyInstallingWrites | src/personality.rs:179-204 | registers are changed only when a context is installed, and then only the two data registers and the IP |
| Personality.RustTable | src/personality.rs:168-204 | the routine's code and registers for every action in every phase, forced unwinding included: there only filters are let pass; no LSDA means nothing to do, a broken one is a phase 1 error |
| Personality.OtherVersions | src/personality.rs:164-166 | another version is a phase 1 error |
| Personality.TableDecides | src/personality.rs:168-177 | for a function whose LSDA encodes a table, the action is the table's, read with the function's own start and bases |
| Registry.GlobalState.constructor | src/unwinder/find_fde/registry.rs:37-39 | the registry starts empty |
| Registry.GlobalState.RegisterFrameInfoBases | src/unwinder/find_fde/registry.rs:135-157 | null registers nothing; otherwise the object is prepended with its bases and address, and the list stays acyclic and null-terminated |
| Registry.GlobalState.RegisterFrameInfoTableBases | src/unwinder/find_fde/registry.rs:175-193 | the object is prepended with its table, whatever the address |
| Registry.GlobalState.Unlink | src/unwinder/find_fde/registry.rs:229 | rewriting the one cell that points to an object removes that object and keeps the order and contents of the rest |
| Registry.GlobalState.DeregisterFrameInfoBases | src/unwinder/find_fde/registry.rs:213-238 | the first single entry with that address, never a table, is unlinked and returned; without one, or for null, nothing changes and null is returned |
| Registry.FirstSingle | src/unwinder/find_fde/registry.rs:223-234 | the entry chosen is the first single one with that address, and none is chosen only if there is none |
| Registry.GlobalState.FindFde | src/unwinder/find_fde/registry.rs:81-131 | the nested loops over the heap list answer the first hit among all sections |
| Registry.SearchTable | src/unwinder/find_fde/registry.rs:104-122 | a table is searched in order up to its null and not beyond |
| Registry.FirstHit | src/unwinder/find_fde/registry.rs:86-130 | the answer comes from the first section that has the address, with that section's bases; there is none exactly when no section has it |
| Registry.NewestHit | src/unwinder/find_fde/registry.rs:81-131 | the newest object that names a section with the address answers, with the first such section it names and its own bases; none does if and only if no object names one |
| Registry.BalancedUndoes | src/unwinder/find_fde/registry.rs:135-238 | a series that registers addresses while they are not open and closes each it opened, in any order, leaves the list as it found it |
| Registry.SeriesRestoresLookups | src/unwinder/find_fde/registry.rs:81-238 | after such a series every address looks up as before |
| SetOnce.StepKeepsInv | src/unwinder/find_fde/custom.rs:55-90 | every atomic step of any thread keeps the protocol's invariant, never turns the state back and never changes a written cell |
| SetOnce.ReachableInv | src/unwinder/find_fde/custom.rs:55-90 | the invariant holds in every reachable state |
| SetOnce.NoPanicNoRace | src/unwinder/find_fde/custom.rs:64-86 | no `unwrap` and no `unreachable!` fires, and while one thread writes the cell no other reads or writes it |
| SetOnce.WrittenOnce | src/unwinder/find_fde/custom.rs:64-67 | the cell is written at most once in a run |
| SetOnce.OneWinner | src/unwinder/find_fde/custom.rs:68-69 | at most one step of a run returns Ok from a set |
| SetOnce.WinnerExists | src/unwinder/find_fde/custom.rs:63-70 | once the state is INITIALIZED, a step has returned Ok, and what that call set is in the cell |
| SetOnce.ErrAfterWinner | src/unwinder/find_fde/custom.rs:71-77 | a set returns Err only if its own exchange found the state taken, and an earlier step, the exchange of another call, had taken it |
| SetOnce.NothingStuck | src/unwinder/find_fde/custom.rs:55-90 | a call can always take its next step, and each brings it nearer to its return, unless it spins while another call, which can step, initializes |
| SetOnce.SoloSetReturnsOk | src/unwinder/find_fde/custom.rs:58-70 | one set that runs alone returns Ok with its finder installed |
| SetOnce.GetsWinner | src/unwinder/find_fde/custom.rs:71-90 | once any set has returned, Ok or Err, every get called later returns one and the same finder, that of the set which returns Ok |
| Assembly.LoadAllLoads | src/unwinder/arch/x86_64.rs:118-131 | a run of loads leaves each listed register with its slot and every other one alone |
| Assembly.StoreAllStores | src/unwinder/arch/x86_64.rs:69-79 | a run of stores fills the listed slots and leaves every byte outside them alone |
| SaveRestore.SaveStores64 | src/unwinder/arch/x86_64.rs:66-86 | up to the call the context holds rbx, rbp and r12 to r15 at eight times their numbers, the stack pointer as it is after the return, the return address and the control words, and memory outside the frame is untouched |
| SaveRestore.SaveStores86 | src/unwinder/arch/x86.rs:64-84 | the same on x86 with ecx, edx, ebx, ebp, esi and edi at four times their numbers |
| SaveRestore.SaveStores | src/unwinder/arch/x86_64.rs:66-86 | what both are instances of: whatever a layout lists is stored in its slot |
| SaveRestore.Save64Calls | src/unwinder/arch/x86_64.rs:88-90 | the closure is entered with the context's address in rdi and its argument in rsi |
| SaveRestore.Save86Calls | src/unwinder/arch/x86.rs:86-94 | the closure, found above the return address, is entered with the context's address and the second argument on the stack |
| SaveRestore.Returns64 | src/unwinder/arch/x86_64.rs:91-94 | once the closure has returned, control and stack pointer go back to the caller, and memory and the other registers are kept |
| SaveRestore.Returns86 | src/unwinder/arch/x86.rs:96-99 | the same on x86, the two arguments dropped |
| SaveRestore.RestoreRuns | src/unwinder/arch/x86_64.rs:99-142 | without any condition on overlap: every register is read from memory as the push left it |
| SaveRestore.RestoreInstalls | src/unwinder/arch/x86_64.rs:99-142 | when the push misses the slots still to be read, every register, the stack pointer and the pc end as the context says, and only the word below the new stack pointer is written |
| SaveRestore.RestoreInstalls64 | src/unwinder/arch/x86_64.rs:99-142 | the same with the condition and all sixteen registers written out |
| SaveRestore.RestoreInstalls86 | src/unwinder/arch/x86.rs:104-139 | and with all eight on x86 |
| SaveRestore.RestoreAboveRecorded | src/unwinder/arch/x86.rs:104-139 | on both targets this holds for every context whose stack pointer is at or above the recorded one |
| SaveRestore.PushClear64 | src/unwinder/arch/x86_64.rs:104-134 | the exact stack pointers for which the push misses what is still to be read |
| SaveRestore.PushClear86 | src/unwinder/arch/x86.rs:109-131 | the same on x86 |
| SaveRestore.AboveRecordedIsClear | src/unwinder/arch/x86_64.rs:73-74 | stack pointers at or above the recorded one are among them, on both targets |
| SaveRestore.RestoreIsReturn | src/unwinder/arch/x86_64.rs:62-142 | restoring an unedited context is returning from `save_context`: same pc, stack pointer, saved registers and control words, and no byte of memory reads differently |
| SaveRestore.CalleeSaved64 | src/unwinder/arch/x86_64.rs:62-142 | rbx, rbp and r12 to r15 survive a save and a restore |
| SaveRestore.CalleeSaved86 | src/unwinder/arch/x86.rs:60-139 | ebx, ebp, esi and edi do on x86 |
| SaveRestore.OverlapBreaks | src/unwinder/arch/x86_64.rs:111-134 | for every stack pointer where the push does hit an unread slot there is a context that is not installed as it stands |

## Left out

- gimli's own code: parsing entries, the header's binary search, row programs and DWARF expressions. Rows, lookups and evaluation are data and parameters, and a row that gimli would fail to compute is an address without a row.
- Rules the context cannot hold: register numbers that `Context` does not index and the architectural rule panic in the source, and are excluded by the types of `Reg` and `RegisterRule`.
- More registers and words: the walk is modelled for x86_64 alone; RISC-V, AArch64, LoongArch and the 32-bit walk repeat its argument with other register numbers.
- Forced.ForceUnwindPhase2: does not model a stop function, or a routine that lets the walk go on, that changes the registers it is shown; the Rust personality does not (`OnlyInstallingWrites`).
- Raise.RaisePhase2: does not model a personality routine that has state, or that changes registers while letting the walk go on.
- Raise.RaiseException: like the second phase, does not model a personality routine that has state or changes registers while letting the walk go on.
- Exceptions: the frames of the unwinder's own functions are frames like others, known by having nothing to clean up; a machine run contains the landings of Rust exceptions, not those of forced unwinding.
- ForcedRuns.ForcedRunStopsEveryFrame: takes from its caller that a resumed unwinding does not land again in the frames that led back into the unwinder, since the callbacks are arbitrary.
- Signal frames in `CallStack` and `Exceptions`: the machine is not interrupted; signal frames appear in `Walks`, `TwoPhase` and `Resumption`.
- Debug-profile overflow checks: `ip - 1`, the sums of table addresses and `next_multiple_of` panic on overflow there and wrap here.
- Registry.GlobalState.Unlink: a null `prev` stands for the address of the head cell.
- Registry.GlobalState.RegisterFrameInfoTableBases: does not model tables in memory that change after registration; a table is a value that holds a null.
- `__register_frame` and `__deregister_frame`, which allocate and free the object around the modelled functions, and deregistering an address that was never registered.
- The registry's mutex: each locked section is one step.
- The order in which the finders are asked, and the program-header, linker-symbol and fixed finders: library calls on ELF structures.
- Weaker memory orders and the end of the spin loop: all accesses of the finder's state are sequentially consistent in the source; that a spinning set returns depends on scheduling.
- What MXCSR and FCW mean: they are words that are copied. Stack pointers that wrap below zero while saving.
- `with_context`: the closure is run once on the saved context.
- The accessors of the unwinding context, `_Unwind_FindEnclosingFunction` and `_Unwind_DeleteException`: one-line reads, writes and a call.
- Panics, their count and printing, the allocator and the C entry library.
