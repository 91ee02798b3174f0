# RoboC++ C backend: a verified model

RoboC++ compiles IEC 61131-3 programs to C. This project models the parts of the
backend whose correctness is hardest to see, and the C that they emit, in Dafny,
and proves what they promise. `dafny verify dfyconfig.toml` checks all of it.

What is modelled, by module:

- **Structured Text to C.** `StructuredText` gives BOOL and integer programs with
  nested function blocks a meaning; `CCode` does the same for the emitted C, with
  the widths of `int` and `int64_t` and with undefined behaviour as having no
  result. `Lowering` is the tree that the backend means to emit.
  `ExpressionMeaning`, `StoreFrames`, `InlinedCalls`, `Untouched`, `ForControl`
  and `StatementMeaning` prove that this tree does what the program does, for
  every supported program, state and number of loop rounds, with function blocks
  inlined on flattened field names to any depth; `FaultFree` says when no run
  faults. `FieldNames` and `ByReference` are about flattened names and VAR_IN_OUT,
  `EdgeInputs` about R_EDGE and F_EDGE.
- **The emitted text.** `Printer` is the text of an expression, as tokens, and
  `CParser` C's grammar for it; `CLines` the lines of a block and what C reads
  from them. `StatementText` is the text of statements, and the theorem about all
  of it: what C reads from the emitted text of a supported program does what the
  program does (`StatementText.ProgramMeans`). `StatementEmitter` is the emitter
  that appends the lines.
- **Sequential Function Charts.** `SfcScan` is the evolution of the active steps
  in one scan and over whole runs, `SfcActions` the action controller,
  `SfcInterpreter` the interpreter's, and `SfcParity` when the two run an action in
  the same scans.
- **Emitted runtime and storage.** `Timers` (TON, TOF, TP and CTU), `Bcd`,
  `Calendar`, `Utf8` (conversions and string functions), `ArrayLayout`,
  `TypeAliases` (alias resolution).
- **Tools beside the backend.** `FbdCycles` (feedback detection in the language
  service), `Lexer` (the lossless lexer), `XmlNamespaces` (the prefix registry of
  the PLCopen writer).

Where a promise holds only under a condition, the condition is a predicate that
can be checked before the call: `Lowering.SupportedProgram` for programs (types,
32-bit literals, texts that C groups as meant, stable FOR bounds, EXIT inside
loops), `FieldNames.FieldsDistinct` for names, `SfcScan.Independent` for fire
flags, and so on.

The timers and the counter stand twice in the source, for calls from programs and
from bodies, with the same text; one method models both. So does one function the
day count of the backend and the one in the C it emits.

## Where the code and its documents differ

The conformance notes (`CONFORMANCE.md`, `docs/iec61131-2003-checklist.md`) speak
of parity between the interpreter and the generated C. The model follows the code
of the C backend. The differences that came up, each with the lemma that shows it
and the lemma that says exactly when there is none:

- Integer literals are C `int`s: 100000 * 100000 overflows although the variables
  are 64 bits wide (`ExpressionMeaning.LiteralProductOverflows`; exactly:
  `ExpressionMeaning.ArithmeticMeansIffSupported`).
- NOT of a BOOL output of a function block is emitted as `~`
  (`ExpressionMeaning.NotOfInstanceField`; exactly:
  `ExpressionMeaning.NotMeansIffClassified`).
- MUX with an index out of range answers with its last input
  (`ExpressionMeaning.MuxAtAnyIndex`).
- A comparison call of three or more arguments is printed without parentheses and
  regrouped as an operand (`Printer.ChainOperandMisread`,
  `StatementText.ChainOperandDiffers`; exactly: `Printer.TextIsTree`).
- In a function-block body the negation of a negative typed literal is printed as
  `--` (`Printer.GluedShows`, `CParser.MinusMinusFails`; exactly:
  `Printer.TextIsTree`).
- Flattened names can collide when identifiers contain underscores
  (`FieldNames.UnderscoreCollides`; exactly: `FieldNames.DistinctIsDecided`).
- EXIT outside the loops of a program is emitted as a `break` with nothing to
  leave (`StatementText.BreaksStay`).
- The C leaves the first value past the bound in a FOR control variable, the
  interpreter the last value used (`ForControl.FinalControl`; exactly:
  `ForControl.SameFrameAfterLoop`).
- The C evaluates a FOR bound in every round (`ForControl.ChangingBound`). It makes
  no difference where the bound reads neither the control variable nor anything the
  body writes, which can be checked beforehand (`StatementMeaning.CountedMeans`);
  what `ForControl.SameWhenTestsAgree` says exactly is about the rounds themselves.
- A zero step is reported by the interpreter and loops in the C
  (`FaultFree.ZeroStepRunsOn`; exactly: `ForControl.ZeroStepIsSkipped`).
- The time of L, D, SD, DS and SL comes from the first association with the
  qualifier in C and from the active one in the interpreter, which also forgets an
  SL action whose step is inactive (exactly, over whole runs:
  `SfcParity.ParityOverRuns`; for one step: `SfcInterpreter.LimitedParity`). The runs
  have at most one active timed association in a scan: with more the interpreter
  reports an error and leaves the action alone.
- The SL guard is printed as `a || b && !stored`, so that several SL associations
  can keep an action running (`SfcActions.EarlierFlagRestarts`; exactly:
  `SfcActions.LimitedBound`).
- A function-block call from a body ignores the R_EDGE and F_EDGE of its inputs, a
  call from a program does not (exactly: `EdgeInputs.EdgeInput.BindFromBody`, and
  over a sequence of calls `EdgeInputs.BodyCallsAgree`).

## Model

| member | source | states |
|---|---|---|
| `StatementText.ProgramMeans` | crates/iec_c/src/functions.rs:166-348 | a whole supported program whose variables have fields of their own: what C reads from the emitted text, by its own grammar, does in one scan what the program does, for any state and number of loop rounds; and no `break` stands outside a loop |
| `StatementText.BlockTextMeans` | crates/iec_c/src/functions.rs:166-348 | the same for any supported block, in a program or in a body, with its outcome (normal, EXIT as break, RETURN as return or goto); where the source runs on, so does the C |
| `StatementText.TextIsBlock` | crates/iec_c/src/fb.rs:524-760 | C reads from the text of a supported block, calls included, exactly the lowered block |
| `StatementText.ExpressionTextMeans` | crates/iec_c/src/expressions.rs:61-133 | what C reads from the text of a supported expression has the value of the expression |
| `StatementText.BreaksStay` | crates/iec_c/src/functions.rs:321-323 | every emitted `break` has a loop to leave exactly when no EXIT is outside the loops of the source |
| `StatementText.ChainOperandDiffers` | crates/iec_c/src/expressions.rs:626-631 | what C reads from the text of GT(a, b, c) = d has the right value exactly when a > b or d |
| `CLines.LinesAreRead` | crates/iec_c/src/functions.rs:235-314 | the lines of a block determine it: a parser of lines gives back the statements, `else if` chains and both kinds of `do` included |
| `StatementMeaning.BlockMeans` | crates/iec_c/src/functions.rs:166-348 | every supported block, as lowered tree: for any state and any number of loop rounds the C ends in the store that holds the Structured Text result, with the same outcome, other fields untouched; where the source runs on, the C does |
| `StatementMeaning.StatementMeans` | crates/iec_c/src/fb.rs:524-760 | the same for the lowered tree of each kind of statement, also in an inlined body, where RETURN is a goto and CASE keeps its selector in a local |
| `StatementMeaning.IfMeans` | crates/iec_c/src/functions.rs:235-265 | the if / else if chain takes the first branch whose condition holds, from any branch on |
| `StatementMeaning.CaseMeans` | crates/iec_c/src/functions.rs:443-478 | the chain of joined label tests takes the first matching case, for any selector text with the selector's value |
| `StatementMeaning.LabelsMean` | crates/iec_c/src/functions.rs:461-498 | the labels joined by `&#124;&#124;`, ranges as two tests under `&&`, hold exactly when a label matches, tried from the left |
| `StatementMeaning.SelectionMeans` | crates/iec_c/src/fb.rs:762-844 | CASE means the same with the selector repeated in every label (program) and with it kept in a local (body) |
| `StatementMeaning.WhileMeans` | crates/iec_c/src/functions.rs:293-303 | WHILE, round by round, with EXIT leaving the loop |
| `StatementMeaning.RepeatMeans` | crates/iec_c/src/functions.rs:304-314 | REPEAT as do-while on the negated condition |
| `StatementMeaning.ForMeans` | crates/iec_c/src/functions.rs:266-292 | the rounds of the emitted loop, which evaluates its bound in every round, whatever the body does to the bound |
| `StatementMeaning.EmittedForMeans` | crates/iec_c/src/functions.rs:266-292 | the whole emitted statement: step once, first value, then those rounds, a step of zero included |
| `StatementMeaning.CountedMeans` | crates/iec_c/src/functions.rs:266-292 | with a bound that reads neither the control variable nor anything the body writes, that is FOR with the bound taken once |
| `StatementMeaning.ZeroStepLoops` | crates/iec_c/src/functions.rs:266-292 | with a step of zero and no round that faults, the C runs on for ever exactly when the first value is not past the bound |
| `FaultFree.BlockRuns` | crates/iec_c/src/functions.rs:166-348 | no run of a supported block faults whose text, and that of the blocks it calls, has no arithmetic, MUX or FOR |
| `FaultFree.ZeroStepRunsOn` | crates/iec_c/src/functions.rs:266-292 | over such a body, which neither writes the control variable nor leaves the loop, the C of a FOR with a step of zero runs on, however many rounds it is given, exactly when the first value is not past the bound |
| `ForControl.BoundKept` | crates/iec_c/src/functions.rs:281-287 | such a bound keeps its value over a round |
| `ForControl.SameWhenTestsAgree` | crates/iec_c/src/functions.rs:281-287 | for any bound, over a body that keeps the control variable and runs to its end: the two loops end in the same frame exactly when their tests agree in every round |
| `ForControl.ChangingBound` | crates/iec_c/src/functions.rs:281-287 | FOR i := 1 TO n DO n := n - 1 from n = 2 leaves 0 with the bound taken once and 1 as emitted |
| `ForControl.ZeroStepIsSkipped` | crates/iec_runtime/src/runtime.rs:898-906 | with a step of zero the emitted loop ends exactly when the first value is past the bound, and leaves the frame as the interpreter does exactly when the control variable held the first value as well |
| `StatementMeaning.FbCallMeans` | crates/iec_c/src/fb.rs:304-522 | a call to any acyclic depth: inputs in order, the body on the instance's own frame, copies out of VAR_IN_OUT and outputs |
| `StatementMeaning.BodyMeans` | crates/iec_c/src/fb.rs:389-407 | the body between `do {` and the return label ends normally however the block ends, and leaves the unit's frame with the instance's new frame in it |
| `Untouched.BlockKeeps` | crates/iec_c/src/functions.rs:166-348 | no run changes a variable that its statements do not write, calls included |
| `Untouched.OutcomesLeave` | crates/iec_c/src/functions.rs:321-326 | a run ends with EXIT or RETURN only where one can leave the statements |
| `InlinedCalls.InputsMean` | crates/iec_c/src/fb.rs:319-387 | the emitted input assignments bind named and positional arguments in order, each seeing the earlier ones |
| `InlinedCalls.InOutsMean` | crates/iec_c/src/fb.rs:409-465 | the copies back to the VAR_IN_OUT actuals |
| `InlinedCalls.OutputsMean` | crates/iec_c/src/fb.rs:467-521 | the copies of outputs to their targets |
| `StoreFrames.InstanceIsRepresented` | crates/iec_c/src/fb.rs:981-1120 | an instance's frame is what the store holds under its flattened names |
| `StoreFrames.MergedIsRepresented` | crates/iec_c/src/fb.rs:981-1120 | after an inlined body the store holds the caller's frame with the instance's new frame put back |
| `ExpressionMeaning.ExpressionMeans` | crates/iec_c/src/expressions.rs:61-133 | the lowered expression has the source expression's value wherever that has one, short circuits included |
| `ExpressionMeaning.WidthIsPredicted` | crates/iec_c/src/expressions.rs:61-133 | C computes in 64 bits exactly where the source expression has a variable or a large literal in it |
| `ExpressionMeaning.ArithmeticMeansIffSupported` | crates/iec_c/src/expressions.rs:1278-1300 | integer arithmetic over literals and variables means the same in C exactly when every operation on small literals only has a 32-bit result |
| `ExpressionMeaning.ValueIsPossible` | crates/iec_c/src/expressions.rs:1278-1300 | an expression that C computes in 32 bits has one of finitely many values, MUX over literals included |
| `ExpressionMeaning.LiteralProductOverflows` | crates/iec_c/src/expressions.rs:1278-1280 | 100000 * 100000 has no value in C |
| `ExpressionMeaning.ClassifiedIsBool` | crates/iec_c/src/addressing.rs:90-143 | what the classifier calls BOOL is BOOL |
| `ExpressionMeaning.NotMeansIffClassified` | crates/iec_c/src/addressing.rs:54-73 | NOT of a BOOL expression is right in C exactly when the classifier sees that it is BOOL |
| `ExpressionMeaning.NotOfInstanceField` | crates/iec_c/src/addressing.rs:90-143 | which it does not for a field of an instance: NOT of TRUE is emitted as `~` and gives -2 |
| `ExpressionMeaning.ChainMeans` | crates/iec_c/src/expressions.rs:808-818 | a chain of comparisons holds exactly when each neighbouring pair does |
| `ExpressionMeaning.MuxAtAnyIndex` | crates/iec_c/src/expressions.rs:820-828 | the nested conditionals choose the input at the index, and the last input for every index out of range, where the source has no value |
| `Values.BitwiseOnBits` | crates/iec_c/src/addressing.rs:18-33 | on 0 and 1 the bit operators are the logical ones |
| `ForControl.LoopsAgree` | crates/iec_runtime/src/runtime.rs:882-925 | the interpreter's FOR, with a counter of its own, and the emitted one run a body that leaves the control variable alone in the same rounds on the same frames, and differ in that variable only |
| `ForControl.FinalControl` | crates/iec_runtime/src/runtime.rs:882-925 | after a finished loop the C and the interpreter have the same control value if EXIT or RETURN ended it; without a round the C has the first value; otherwise the C is one step ahead |
| `ForControl.SameFrameAfterLoop` | crates/iec_c/src/functions.rs:266-292 | so their frames are equal exactly when EXIT or RETURN ended the loop, or it had no round and the control variable held the first value; without EXIT and RETURN in the body only the latter is possible |
| `FieldNames.NestedFieldHasOneName` | crates/iec_c/src/fb.rs:1481-1520 | a nested instance's field has one C name, whether the program, the outer block or the inner block is being emitted |
| `FieldNames.DistinctIsDecided` | crates/iec_c/src/addressing.rs:683-689 | whether the flattened names keep all variables apart, at any depth, is decided by a finite test |
| `FieldNames.SeparateIsDistinct` | crates/iec_c/src/addressing.rs:683-689 | they do when on each level variables differ once sanitised, no variable has the flattened name of an instance's field, and no instance name with an underscore after it starts another |
| `FieldNames.PlainIsSeparate` | crates/iec_c/src/addressing.rs:683-689 | in particular when no name has an underscore |
| `FieldNames.DistinctIffEveryFrameFits` | crates/iec_c/src/addressing.rs:782-796 | every state of the program has a C state that holds it exactly when no two variables share a field |
| `FieldNames.UnderscoreCollides` | crates/iec_c/src/addressing.rs:782-796 | A_B and the B of instance A share a field, and some state has no C state |
| `ByReference.CallIsByReference` | crates/iec_c/src/fb.rs:319-521 | copying VAR_IN_OUT in and out has the effect of passing by reference, on every field but the parameters' own, when the actuals are distinct variables outside the instance and no output argument names a VAR_IN_OUT parameter |
| `ByReference.OutputsAgree` | crates/iec_c/src/fb.rs:467-521 | copies of outputs keep two stores alike that differ only in fields the outputs do not read |
| `ByReference.CopyingIsByReference` | crates/iec_c/src/fb.rs:389-465 | the same for the body and the copies out, from any state where the parameters are copies of the actuals |
| `ByReference.BindCopiesIn` | crates/iec_c/src/fb.rs:319-387 | after the inputs are bound every VAR_IN_OUT parameter is a copy of its actual |
| `ByReference.CopiedOut` | crates/iec_c/src/fb.rs:409-465 | the copies out put each parameter's value in its actual and change nothing else |
| `StatementEmitter.CEmitter.EmitStatement` | crates/iec_c/src/functions.rs:166-348 | appends exactly the text of the statement |
| `StatementEmitter.CEmitter.EmitBlock` | crates/iec_c/src/fb.rs:395-405 | appends the text of the block, statement by statement |
| `StatementEmitter.CEmitter.EmitBranches` | crates/iec_c/src/functions.rs:239-257 | appends the if / else if lines of all branches |
| `StatementEmitter.CEmitter.EmitCase` | crates/iec_c/src/functions.rs:443-478 | appends the text of CASE, in a body after its local |
| `StatementEmitter.CEmitter.EmitFor` | crates/iec_c/src/functions.rs:266-292 | appends the text of FOR |
| `StatementEmitter.CEmitter.EmitFbCall` | crates/iec_c/src/fb.rs:380-465 | appends the text of a call with scalar arguments: inputs, the inlined body, copies out |
| `StatementEmitter.CEmitter.EmitInputs` | crates/iec_c/src/fb.rs:196-214 | appends the input assignments, counting positional arguments |
| `StatementEmitter.JoinLabels` | crates/iec_c/src/functions.rs:455-459 | joins the texts of the labels by ` &#124;&#124; ` |
| `Printer.TextIsTree` | crates/iec_c/src/expressions.rs:61-133 | the printed expression parses, by the C grammar, to the lowered tree exactly when no chain of three or more comparisons is an operand that `&&` regroups and no negation meets a minus sign |
| `Printer.TextIsRead` | crates/iec_c/src/fb.rs:1334-1400 | whatever the expression, the tree that C reads from its text, in programs and in bodies |
| `Printer.TreeSettled` | crates/iec_c/src/expressions.rs:808-818 | the tree read is the lowered one if and only if chains stand alone, under `&#124;&#124;` or to the left of `&&`; it always has as many nodes |
| `Printer.ChainOperandMisread` | crates/iec_c/src/expressions.rs:626-631 | GT(a, b, c) = d reads as (a > b) && ((b > c) == d) |
| `Printer.CaseTextIsTree` | crates/iec_c/src/functions.rs:455-498 | the labels joined by ` &#124;&#124; ` parse to the lowered condition, `&&` of ranges binding tighter |
| `Printer.LabelReads` | crates/iec_c/src/fb.rs:824-843 | a label is read as meant in both printed forms: with parentheses around the ends of a range only (program) and around every label (body) |
| `Printer.NumbersAreUnary` | crates/iec_c/src/functions.rs:453-459 | an integer expression or the local of a body needs no parentheses in front of `==` |
| `Printer.ForTestIsExpr` | crates/iec_c/src/functions.rs:281-287 | the text of the FOR test is read as the conditional on the sign of the step |
| `Printer.UntilIsExpr` | crates/iec_c/src/functions.rs:308-313 | the text of the UNTIL test is read as the negation |
| `Printer.GluedShows` | crates/iec_c/src/fb.rs:1364-1369 | a negated negative literal in a body is printed with `--` |
| `Printer.MuxToC` | crates/iec_c/src/expressions.rs:820-828 | builds the conditional from the last input back |
| `Printer.CompareChainToC` | crates/iec_c/src/expressions.rs:808-818 | joins the windows of two |
| `CParser.JoinedAnd` | crates/iec_c/src/expressions.rs:813-816 | operands joined by `&&` group to the left |
| `CParser.GroupedIsExpr` | crates/iec_c/src/expressions.rs:95-109 | what C reads when a binary operator stands between two unparenthesised conjunctions |
| `CParser.MinusMinusFails` | crates/iec_c/src/fb.rs:1364-1369 | no expression text with `--` in it parses |
| `SfcScan.SfcState.Scan` | crates/iec_c/src/functions.rs:525-590 | one emitted scan is the specified evolution of the active set |
| `SfcScan.SfcState.constructor` | crates/iec_c/src/functions.rs:501-523 | the initial steps are active |
| `SfcScan.SortedIndicesOrder` | crates/iec_c/src/addressing.rs:186-207 | application order: each transition once, by priority then index, a missing priority last |
| `SfcScan.ConflictResolution` | crates/iec_c/src/functions.rs:535-589 | applied transitions have disjoint sources, and an enabled one is left out exactly when an applied one before it shares a source |
| `SfcScan.AnyOrderIsSimultaneous` | crates/iec_c/src/functions.rs:564-589 | in whatever order transitions are applied one at a time, the result equals the simultaneous update exactly when no entered step is left by a later applied transition |
| `SfcScan.SequentialIsSimultaneous` | crates/iec_c/src/functions.rs:564-589 | so it is for the emitted order, in particular when the fire flags are independent |
| `SfcScan.IndependentIsSimultaneous` | crates/iec_c/src/functions.rs:564-589 | for any order without repeats it holds when no transition that fires enters a source of another that fires |
| `SfcScan.OrderCanLoseAnEntry` | crates/iec_c/src/functions.rs:564-589 | a chart where the order of application loses an entered step |
| `SfcScan.PlaceInvariant` | crates/iec_c/src/functions.rs:535-589 | over all runs: with weights that no transition raises, the active weight never rises and a non-empty active set stays non-empty |
| `SfcScan.OneActiveStep` | crates/iec_c/src/functions.rs:535-589 | one initial step and one-to-one transitions: exactly one active step after every scan |
| `SfcScan.EvolutionParity` | crates/iec_runtime/src/runtime.rs:611-683 | the interpreter's evolution, which drops transitions that do not fire before it sorts, is the same |
| `SfcActions.ActionControl.Execute` | crates/iec_c/src/functions.rs:592-748 | one emitted action scan is the specified step of the latch |
| `SfcActions.ActionControl.ExecuteUntimed` | crates/iec_c/src/functions.rs:666-680 | the N, P and P0 part |
| `SfcActions.ActionControl.ExecuteTimers` | crates/iec_c/src/functions.rs:682-701 | the L and D timers |
| `SfcActions.ActionControl.ExecuteStored` | crates/iec_c/src/functions.rs:702-748 | the stored part: S, SD, DS and SL |
| `SfcActions.TraceIsTheController` | crates/iec_c/src/functions.rs:592-748 | the traces used below are the controller of an action with one association |
| `SfcActions.NonStoredRuns` | crates/iec_c/src/functions.rs:666-669 | N runs exactly in active scans |
| `SfcActions.PulseRuns` | crates/iec_c/src/functions.rs:670-680 | P runs once for each activation |
| `SfcActions.PulseFallingRuns` | crates/iec_c/src/functions.rs:674-680 | P0 runs once for each deactivation |
| `SfcActions.LimitedRuns` | crates/iec_c/src/functions.rs:682-691 | L runs exactly in the first floor(T/c) scans of each activation |
| `SfcActions.DelayedRuns` | crates/iec_c/src/functions.rs:692-701 | D runs exactly from the first scan k with k*c >= T |
| `SfcActions.StoredDelayedRuns` | crates/iec_c/src/functions.rs:702-717 | SD and DS, which the code treats alike: run while and after an activation has been held long enough |
| `SfcActions.StoredLimitedRuns` | crates/iec_c/src/functions.rs:718-748 | SL, once started, runs for exactly floor(T/c) scans and rests for one |
| `SfcActions.StoredLimitedBound` | crates/iec_c/src/functions.rs:718-748 | a lone SL association never runs more than floor(T/c) scans in a row |
| `SfcActions.LimitedBound` | crates/iec_c/src/functions.rs:718-748 | for any list of SL associations: no run exceeds floor(T/c) scans in a row exactly when there is one association or T is below the cycle time |
| `SfcActions.EarlierFlagRestarts` | crates/iec_c/src/functions.rs:718-724 | whatever else the action has: while an SL flag other than the last is set, no stop is possible |
| `SfcActions.SetResetRuns` | crates/iec_c/src/functions.rs:661-665 | S and R on one action: it runs exactly since the last S after the last R |
| `SfcParity.ParityOverRuns` | crates/iec_runtime/src/runtime.rs:685-806 | the interpreter runs an action in the same scans as the C, in every run from the start with at most one active timed association per scan, exactly when its associations are alike in whole cycles: without SL, one duration for each of L, D, SD and DS; with SL, its time is below a cycle, or a lone one of one cycle without S, there is no N, P or P0, and no L or D can tell the two times apart |
| `SfcParity.AlikeInCycles` | crates/iec_runtime/src/runtime.rs:837-841 | so only whole cycles count: replacing each duration by floor(T/c) for L and SL, and by the first k >= 1 with k*c >= T for D, SD and DS, changes no comparison of the two |
| `SfcParity.AlikeRuns` | crates/iec_runtime/src/runtime.rs:752-803 | where they are alike, the invariant that keeps them so: equal latches without SL; with SL, nothing stored but a time of one cycle, or times that are equal or past every L and D |
| `SfcInterpreter.ActionParity` | crates/iec_runtime/src/runtime.rs:685-806 | one step: without SL and with equal durations the two take the same step from any latch |
| `SfcInterpreter.LimitedParity` | crates/iec_runtime/src/runtime.rs:752-803 | one step: with SL and equal durations, the scans and latches for which the two steps agree: none stored or due, no restart of a running time, nothing else running the action when the time ends |
| `Timers.TimerInstance.Ton` | crates/iec_c/src/fb.rs:1561-1599 | the emitted TON is the specified step |
| `Timers.TimerInstance.Tof` | crates/iec_c/src/fb.rs:1601-1644 | the emitted TOF |
| `Timers.TimerInstance.Tp` | crates/iec_c/src/fb.rs:1646-1711 | the emitted TP |
| `Timers.TonClosedForm` | crates/iec_c/src/fb.rs:2102-2133 | after n true scans ET = min(n*c, PT) and Q iff n*c >= PT |
| `Timers.TofClosedForm` | crates/iec_c/src/fb.rs:2134-2170 | Q holds for exactly the off-scans j with j*c < PT |
| `Timers.TpPulse` | crates/iec_c/src/fb.rs:2171-2230 | Q exactly in scans j from the edge with j*c < PT, whatever the input does |
| `Timers.ElapsedTimeFits` | crates/iec_c/src/fb.rs:1561-1711 | ET stays between 0 and PT over all runs |
| `Timers.CounterInstance.Ctu` | crates/iec_c/src/fb.rs:1713-1750 | the emitted CTU |
| `Timers.CtuCountsEdges` | crates/iec_c/src/fb.rs:1974-2004 | CV is the number of rising edges over the reset-free scans since the last reset |
| `EdgeInputs.EdgeInput.BindFromProgram` | crates/iec_c/src/fb.rs:328-344 | an edge-qualified input receives, over any sequence of calls from a program, exactly the rising or falling edges of its signal |
| `EdgeInputs.EdgeInput.BindFromBody` | crates/iec_c/src/fb.rs:1081-1130 | a call from a body gives the block the edge of its signal, over the calls so far, exactly when a rising input was not set twice running, or a falling one neither now nor before |
| `EdgeInputs.BodyCallsAgree` | crates/iec_c/src/fb.rs:1081-1130 | that is so in every call exactly when a rising input is never set twice running and a falling one never at all |
| `FbdCycles.GraphEdges` | crates/iec_language_service/src/graph.rs:478-504 | the edges read from the nodes' attributes are the declared connections |
| `FbdCycles.CycleSearch.ReachesCycle` | crates/iec_language_service/src/graph.rs:641-663 | terminates, and answers true exactly when a cycle is reachable, keeping its sets |
| `FbdCycles.ValidateFbdNetwork` | crates/iec_language_service/src/graph.rs:579-604 | reports an error exactly when the network has feedback, at the first node that leads into it |
| `FbdCycles.FeedbackIsDeclared` | crates/iec_language_service/src/graph.rs:579-663 | there is feedback exactly when some declared node leads into a cycle |
| `ArrayLayout.ArrayElementCount` | crates/iec_c/src/expressions.rs:1251-1255 | the number of elements, saturating |
| `ArrayLayout.ZeroBasedIndices` | crates/iec_c/src/expressions.rs:1233-1249 | the row-major digits of an offset |
| `ArrayLayout.DigitsAddress` | crates/iec_c/src/expressions.rs:1233-1249 | the digits of an offset address the cell at that offset |
| `ArrayLayout.CellsAreDistinct` | crates/iec_c/src/expressions.rs:1233-1249 | distinct index tuples have distinct cells |
| `ArrayLayout.PeelArrayDimensions` | crates/iec_c/src/expressions.rs:1197-1223 | the declared dimensions of nested and aliased arrays |
| `ArrayLayout.CEmitter.EmitInitializer` | crates/iec_c/src/state.rs:1403-1455 | the writes of the initialiser of an array of scalars |
| `ArrayLayout.InitializerCoversStorage` | crates/iec_c/src/state.rs:450-475 | the initialiser writes every cell of the declared storage exactly once, in order |
| `ArrayLayout.AppendIndices` | crates/iec_c/src/addressing.rs:376-420 | the subscripts of a reference |
| `ArrayLayout.ReferenceReadsItsLiteral` | crates/iec_c/src/addressing.rs:376-420 | a full in-range reference is in bounds and reads the literal element at its row-major position |
| `ArrayLayout.ReferencesAreDistinct` | crates/iec_c/src/addressing.rs:376-420 | distinct in-range references have distinct cells |
| `TypeAliases.ResolveDecides` | crates/iec_c/src/expressions.rs:1028-1050 | resolution ends, on cyclic tables too, at the end of the chain or inside its cycle |
| `TypeAliases.NamedResults` | crates/iec_c/src/expressions.rs:1028-1050 | the result is a name exactly when the chain ends in an undeclared name or enters a cycle |
| `TypeAliases.ResolveIsIdempotent` | crates/iec_c/src/expressions.rs:1028-1050 | resolving twice is resolving once |
| `Bcd.BcdToInt` | crates/iec_c/src/state.rs:176-192 | reads the decimal nibbles, zero for anything else, without overflow |
| `Bcd.IntToBcd` | crates/iec_c/src/state.rs:193-206 | packs the decimal digits, dropping a seventeenth |
| `Bcd.BcdOfIntRoundTrip` | crates/iec_c/src/state.rs:175-208 | int to BCD to int is the identity exactly for 0 <= n < 8*10^15 |
| `Bcd.IntOfBcdRoundTrip` | crates/iec_c/src/state.rs:175-208 | BCD to int to BCD is the identity exactly for non-negative words of decimal nibbles |
| `Calendar.DaysRoundTrip` | crates/iec_c/src/state.rs:214-215 | every day number is a valid date and comes back |
| `Calendar.CivilRoundTrip` | crates/iec_c/src/expressions.rs:1613-1625 | every valid date comes back from its day number, negative years included |
| `Calendar.DaysCountUp` | crates/iec_c/src/expressions.rs:1599-1625 | the next calendar day, by the month lengths, is the next day number |
| `Calendar.EpochIsDayZero` | crates/iec_c/src/expressions.rs:1613-1625 | 1970-01-01 is day 0 |
| `Calendar.DateTimeRoundTrip` | crates/iec_c/src/state.rs:216-221 | splitting a combined date and time gives its parts |
| `Calendar.TimeStampRoundTrip` | crates/iec_c/src/state.rs:216-221 | combining the parts of any time stamp gives it back |
| `Calendar.DayOfWeekCycles` | crates/iec_c/src/state.rs:222 | weekdays follow each other, before 1970 too |
| `Utf8.WstrAssignUtf8` | crates/iec_c/src/state.rs:234-255 | decodes as many characters as the target holds |
| `Utf8.WstrToUtf8` | crates/iec_c/src/state.rs:259-278 | encodes the longest fitting prefix |
| `Utf8.WideRoundTrip` | crates/iec_c/src/state.rs:234-278 | a wide string written as UTF-8 and read back is itself exactly when it fits both buffers |
| `Utf8.EncodedChar` | crates/iec_c/src/state.rs:244-251 | an encoded character is read back wherever it stands |
| `Utf8.MasksAreRanges` | crates/iec_c/src/state.rs:244-251 | the bit masks on lead and continuation bytes are the ranges used here |
| `Utf8.Utf8Len` | crates/iec_c/src/state.rs:281 | the loop of LEN |
| `Utf8.Utf8Offset` | crates/iec_c/src/state.rs:280 | the offset loop |
| `Utf8.LenCountsCodePoints` | crates/iec_c/src/state.rs:281 | LEN counts code points |
| `Utf8.OffsetSplits` | crates/iec_c/src/state.rs:280 | the byte offset splits a string between code points |
| `Utf8.LeftIsLeft` | crates/iec_c/src/state.rs:283-286 | LEFT on bytes is LEFT on code points |
| `Utf8.RightIsRight` | crates/iec_c/src/state.rs:287-290 | RIGHT likewise |
| `Utf8.MidIsMid` | crates/iec_c/src/state.rs:291-294 | MID likewise |
| `Utf8.ConcatIsConcat` | crates/iec_c/src/state.rs:295-298 | CONCAT likewise |
| `Utf8.DeleteIsDelete` | crates/iec_c/src/state.rs:299-302 | DELETE likewise |
| `Utf8.InsertIsInsert` | crates/iec_c/src/state.rs:303-306 | INSERT likewise |
| `Utf8.ReplaceIsReplace` | crates/iec_c/src/state.rs:307-310 | REPLACE likewise |
| `Utf8.Synchronises` | crates/iec_c/src/state.rs:279 | a byte that is no continuation byte starts a code point |
| `Utf8.FindPosition` | crates/iec_c/src/state.rs:311-314 | counts the characters before the bytes that strstr finds |
| `Utf8.FindIsFind` | crates/iec_c/src/state.rs:311-314 | FIND by strstr on bytes is FIND on code points |
| `Lexer.LexPreservingTokens` | crates/iec_language_service/src/source.rs:411-543 | for every text: non-empty adjoining tokens from offset 0 to the end whose lexemes spell it |
| `Lexer.NextToken` | crates/iec_language_service/src/source.rs:411-543 | one token: its end and the shape of its kind |
| `Lexer.NextDelimited` | crates/iec_language_service/src/source.rs:430-492 | comments, strings, pragmas and tags, unterminated ones included |
| `Lexer.PushKeepsLossless` | crates/iec_language_service/src/source.rs:545-558 | pushing a token keeps the list lossless |
| `XmlNamespaces.XmlNamespaceRegistry.constructor` | crates/iec_plcopen/src/dom.rs:10-48 | over any document the two maps are inverse, and every URI mentioned has a prefix |
| `XmlNamespaces.UniqueNamespacePrefix` | crates/iec_plcopen/src/dom.rs:72-95 | finds an unused prefix, in at most one try more than there are prefixes |
| `XmlNamespaces.Pigeonhole` | crates/iec_plcopen/src/dom.rs:86-94 | among n + 1 numbered candidates one is not taken |
| `XmlNamespaces.XmlNamespaceRegistry.QualifiedNamesAgree` | crates/iec_plcopen/src/dom.rs:161-186 | two qualified names are written alike exactly when the local names are equal and the namespaces are equal or both go without a prefix |

## Left out

- StatementMeaning.BlockMeans: where the source faults (overflow, division by zero, a MUX index out of range, a zero FOR step) it says nothing, because the C has undefined behaviour or a value of its own there; MUX and the zero step have lemmas of their own.
- StatementText.BlockTextMeans: like StatementMeaning.BlockMeans it says nothing where the source faults; a FOR bound that the body changes is outside the supported language.
- StatementEmitter.CEmitter.EmitFbCall: arguments that are strings, arrays or structures (copied by helpers and memcpy), EN and ENO around the call, and the edge-qualified inputs that `EdgeInputs` has on their own.
- ArrayLayout.CEmitter.EmitInitializer: string elements and structure fields in initialisers.
- Bcd.BitOrIsSum: shifts and `|` are stated on natural numbers below 2^64, where the loops keep them.
- Printer.TextIsRead: tokens, not characters; that adjacent texts other than two minus signs do not merge is taken from the spaces and parentheses around them.
- CLines.LinesAreRead: the lines are given one by one, each with its kind and its expressions; keywords, braces and semicolons are not split into tokens of their own.
- REAL values, bit strings (`uint64_t`), strings and times in expressions; integer types narrower than 64 bits, which the backend does not narrow either.
- Standard functions in expressions other than the comparisons and MUX, user functions, and named arguments of standard functions.
- Standard function blocks called as statements (their steps are in `Timers`), CTD, CTUD, SR, RS and the edge detectors.
- Instruction List, arrays and structures as statement operands, memcpy assignment and its storage compatibility test.
- The scan epilogue, which RETURN in a program skips (crates/iec_c/src/functions.rs:324-326): only body outcomes are compared.
- The loop limit of the interpreter, and the reports it makes.
- Return labels and CASE locals carry the buffer length in their names so that they are unique in a C function; the model keeps the instance name only and relies on C's scoping.
- Partial indexing of arrays and references with too few indices.
- SFC transition conditions and action bodies (`Scan` takes the conditions' values); coils and variables as Boolean actions.
- Overflow of 64-bit integers in the calendar and string helpers for arguments near the ends of the range, and null pointers in the string helpers.
- The eight rotating buffers that the string helpers return: results are values here.
- Truncated string results are cut at a byte, which may split a character; the string laws are for results that fit.
- Communication and target hooks, retained data, access paths, debug metadata and the text layout of the emitted file.
- The parser, semantic checks, workspace cache, editor features, web front end and command-line tools.
