# CAVL backend core, modelled in Dafny

CAVL visualises MIPS programs: its Python backend runs them on the MARS
simulator and on assembly programs of its own (a five-stage pipeline
simulator, an instruction analyser, a heap allocator), then decodes what
those programs print or dump and serves it to the front end. This project
models the backend's self-contained logic around that orchestration and
proves what it promises:

- the two replay state machines over a recorded trace (`StateManager` and
  the navigation of `StepExecutor`), as Dafny classes whose methods state
  their whole new state and keep the index invariant `0 <= index <= len-1`;
- the MIPS R/I/J encoder of the assembler-style decoder and the small
  disassembler of the step executor, with field round trips and bounds;
- the decoders of the flat 32-bit data images MARS dumps for the pipeline
  simulator and the analyser, and the heap-block walk of the output parser;
- the text formats: register and memory dumps written and read back, the
  `.word` value injection into the heap template, the MARS error scan and
  command line, the program-output filter, binary field separators;
- the API records and request constraints, and the response building and
  guards of the decoder, pipeline, step and execution endpoints.

Each Python module is one Dafny module under `src/`; `Text`, `Bits`, `Dict`
and `Wrappers` hold the Python primitives the modules share (string
methods, integer printing and parsing, bit operations, insertion-ordered
dictionaries as association lists, `None` and raised errors as
`Option`/`Result`). Every regular expression is a hand-written predicate
over one line: `\s` is Python's Unicode whitespace, as `str.isspace` is,
while `\w` and `\d` are taken as their ASCII sets. The decoder's
`REGISTERS` dictionary is the 32 symbolic register names in number order
plus the alias `$0`, and its mnemonic tables are association lists.
Everything MARS or an assembly program computes (standard output, dumps,
per-step run results) is a parameter.

## Model

| member | source | states |
|---|---|---|
| Schemas.RegisterIndex | backend/app/models/schemas.py:84-119 | a name found in the register table is found at its own position; a name not found is not in the table |
| Schemas.MipsRegistersDistinct | backend/app/models/schemas.py:84-119 | the register table has 32 distinct names, `$zero` first and `$ra` last |
| Schemas.CreateInitialRegisters | backend/app/models/schemas.py:129-132 | one entry per register, in table order, with no name twice, every value 0 |
| Schemas.DifferingMembers | backend/app/services/trace_parser.py:196-219 | `Differing`: a name is reported as changed exactly when it is in the table, is not the skipped register and its value (missing = 0) differs |
| Schemas.DifferingSelf | backend/app/services/trace_parser.py:196-219 | comparing a register file with itself reports no change |
| Schemas.CollectChanged | backend/app/services/trace_parser.py:212-219 | the loop collects exactly the changed names, in table order |
| Schemas.NewExecuteRequest | backend/app/models/schemas.py:197-205 | a request is accepted exactly when the code has at least one character and the mode is `full` or `step` |
| Schemas.NewAllocateRequest | backend/app/models/schemas.py:230-233 | an allocation size is accepted exactly when it is positive |
| Schemas.NewFreeRequest | backend/app/models/schemas.py:247-250 | an address to free is accepted exactly when it is non-negative |
| StateManagement.Advance | backend/app/services/state_manager.py:75-77 | the index moves one further unless already at the last state, and stays inside the trace |
| StateManagement.AdvanceFromLoad | backend/app/services/state_manager.py:75-77 | after `k` steps from a fresh load the index is `min(k, len-1)` |
| StateManagement.StepView | backend/app/services/state_manager.py:86-96 | the state `step` returns carries pc, instruction, registers, memory, heap and completion of the new current state, the fresh change list, and the default output and analysis |
| StateManagement.DetectChangedRegisters | backend/app/services/state_manager.py:100-123 | a register is listed exactly when it is in the register table, is not `$zero` and its value (missing = 0) differs; table order |
| StateManagement.StateManager.constructor | backend/app/services/state_manager.py:27-31 | a new manager holds no trace, index 0 and no snapshot |
| StateManagement.StateManager.LoadTrace | backend/app/services/state_manager.py:33-46 | an empty trace is refused and changes nothing; otherwise the trace is stored, the index is 0 and the snapshot is the first state |
| StateManagement.StateManager.CurrentState | backend/app/services/state_manager.py:48-57 | None exactly when no trace is loaded; otherwise the state at the current index |
| StateManagement.StateManager.Step | backend/app/services/state_manager.py:59-98 | the trace and snapshot are untouched; the index advances by one unless at the end; the result is the new current state with the registers that differ from the state left behind |
| StateManagement.StateManager.Reset | backend/app/services/state_manager.py:125-138 | with a trace, the index is 0 and the first state is restored from the snapshot; without one, nothing changes and None is returned |
| StateManagement.StateManager.StepIndex | backend/app/services/state_manager.py:140-147 | the index lies inside the trace, and is 0 without one |
| StateManagement.StateManager.IsComplete | backend/app/services/state_manager.py:158-167 | true exactly when no trace is loaded or the last state is on show |
| StateManagement.StateManager.Clear | backend/app/services/state_manager.py:178-182 | afterwards there is no trace, no current state, index 0 and no snapshot |
| StepExecution.RegName | backend/app/services/step_executor.py:447-451 | registers 0..31 get their table names, any other number `$n` |
| StepExecution.RegNameNumber | backend/app/services/step_executor.py:447-451 | the name printed for 0..31 is read back by the assembler's register lookup as the same number |
| StepExecution.InitialRegistersKeys | backend/app/services/step_executor.py:334-339 | the initial register file names every register once, in table order |
| StepExecution.InitialRegisterValues | backend/app/services/step_executor.py:334-339 | every register reads 0 except `$sp` (0x7FFFEFFC) and `$gp` (0x10008000) |
| StepExecution.FindChangedRegisters | backend/app/services/step_executor.py:341-351 | a register is listed exactly when it is in the table and its value (missing = 0) differs, `$zero` included; table order |
| StepExecution.SignExtend16 | backend/app/services/step_executor.py:408-410 | a 16-bit field becomes a value in [-32768, 32768) congruent to it mod 65536 |
| StepExecution.SignExtendLow | backend/app/services/step_executor.py:408-410 | masking a signed 16-bit value to 16 bits and sign-extending it gives it back |
| StepExecution.DisassembleSimple | backend/app/services/step_executor.py:353-356 | the zero word is `nop` |
| StepExecution.DisassembleRTypeWord | backend/app/services/step_executor.py:358-396 | `DisassembleRType`: an assembled R-type word prints the text of the very fields it was built from (only the all-zero word prints `nop`) |
| StepExecution.DisassembleITypeWord | backend/app/services/step_executor.py:404-445 | `DisassembleIType`: an I-type word built from a signed 16-bit immediate prints its own fields, the immediate with its sign |
| StepExecution.DisassembleJumpForm | backend/app/services/step_executor.py:398-402 | `JumpTarget`: a `j`/`jal` word prints four times its 26-bit target as eight upper-case hex digits |
| StepExecution.DescribeShape | backend/app/services/step_executor.py:453-465 | with no changes the description is `Executed: <instr>`; otherwise it starts with the instruction and the arrow |
| StepExecution.InitialStep | backend/app/services/step_executor.py:139-153 | step 0 is at 0x00400000 with the initial registers, no changes, not complete |
| StepExecution.StepBound | backend/app/services/step_executor.py:159 | the loop makes at most `min(len(instructions), max_steps)` runs |
| StepExecution.StepExecutionState.constructor | backend/app/services/step_executor.py:37-46 | a new state holds the code, no steps, index 0, not loaded, no error |
| StepExecution.StepExecutor.constructor | backend/app/services/step_executor.py:95-106 | a new executor holds no state |
| StepExecution.StepExecutor.GetCurrentStep | backend/app/services/step_executor.py:469-475 | None exactly when there are no steps; otherwise the step at the index |
| StepExecution.StepExecutor.StepForward | backend/app/services/step_executor.py:477-483 | the index moves one on unless at the last step; the trace and other fields are unchanged; without steps nothing changes |
| StepExecution.StepExecutor.StepBackward | backend/app/services/step_executor.py:485-491 | the index moves one back unless at step 0; the trace and other fields are unchanged; without steps nothing changes |
| StepExecution.StepExecutor.Reset | backend/app/services/step_executor.py:493-498 | the index is 0 and step 0 is returned; without steps nothing changes |
| StepExecution.StepExecutor.GotoStep | backend/app/services/step_executor.py:500-505 | the index is the requested step clamped into the trace; without steps nothing changes |
| StepExecution.StepExecutor.IsComplete | backend/app/services/step_executor.py:511-515 | true exactly when there are no steps or the index is at the last step |
| StepExecution.StepExecutor.AllSteps | backend/app/services/step_executor.py:517-521 | the recorded steps, or none without a state |
| StepExecution.StepExecutor.LoadProgram | backend/app/services/step_executor.py:108-220 | no instructions: the error "No executable instructions found" and not loaded; otherwise loaded at step 0 with the recorded trace and its length |
| StepExecution.RecordSteps | backend/app/services/step_executor.py:139-203 | the loop records exactly `LoadedSteps`: the initial step, one step per counted run, the last one marked complete |
| StepExecution.RecordRun | backend/app/services/step_executor.py:160-199 | one pass: a failed run ends the recording; a successful one appends its step against the previous registers and ends the recording when it was the exit `syscall` |
| StepExecution.Runs | backend/app/services/step_executor.py:155-194 | after `n` runs the trace holds `n + 1` steps |
| StepExecution.RunsAt | backend/app/services/step_executor.py:155-194 | step `k` of the trace is always the record of run `k` compared with step `k - 1`: later runs never rewrite it |
| StepExecution.RunCount | backend/app/services/step_executor.py:159-199 | the number of runs lies between those already made and the bound |
| StepExecution.RunCountRule | backend/app/services/step_executor.py:159-199 | the runs recorded stop at the bound, before the first failed run, or right after the exit `syscall` |
| StepExecution.StopsAtUnique | backend/app/services/step_executor.py:159-199 | the stopping rule picks at most one count |
| StepExecution.RunCountIff | backend/app/services/step_executor.py:159-199 | a count obeys the stopping rule exactly when it is the number of runs recorded |
| StepExecution.MarkLast | backend/app/services/step_executor.py:201-203 | only the last step changes, and only by being marked complete |
| StepExecution.LoadedStepsRecord | backend/app/services/step_executor.py:139-207 | the loaded trace has one step more than the runs counted; step `k` is the record of run `k`, complete exactly when it is the last |
| StepExecution.Clamp | backend/app/services/step_executor.py:504 | `max(0, min(n, count - 1))` lies in the trace and is `n` whenever `n` does |
| StepExecution.ChangeTexts | backend/app/services/step_executor.py:460-463 | one change text per changed register, text `k` being `reg=val (0x%08X)` for changed register `k`: its name, its new value in decimal and that value's low 32 bits as 8 upper-case hex digits |
| StepExecution.RunsNext | backend/app/services/step_executor.py:155-194 | one more run appends the record of that run, compared with the step before it |
| StepExecution.RunsKeep | backend/app/services/step_executor.py:155-194 | a further run never changes the steps already recorded |
| StepExecution.RunCountStops | backend/app/services/step_executor.py:159-165 | a failed run ends the recording before it |
| StepExecution.RunCountNext | backend/app/services/step_executor.py:159-199 | a successful run is counted, and ends the recording when it is the exit syscall |
| InstructionDecoder.RegisterTable | backend/app/services/instruction_decoder.py:49-83 | every name maps to a register number below 32 |
| InstructionDecoder.RTypeFunct | backend/app/services/instruction_decoder.py:86-113 | every R-type function code fits in 6 bits |
| InstructionDecoder.ITypeOpcode | backend/app/services/instruction_decoder.py:116-137 | every I-type opcode is a nonzero 6-bit value |
| InstructionDecoder.JTypeOpcode | backend/app/services/instruction_decoder.py:140-143 | every J-type opcode is a nonzero 6-bit value |
| InstructionDecoder.RegisterNumber | backend/app/services/instruction_decoder.py:349-352 | a register lookup always gives a number below 32 (unknown names give 0) |
| InstructionDecoder.RegisterNumberPlain | backend/app/services/instruction_decoder.py:349-352 | on a name without surrounding space or upper case the lookup is the table's |
| InstructionDecoder.RegisterTableNames | backend/app/services/instruction_decoder.py:49-83 | the table maps the `i`-th symbolic register name to `i` |
| InstructionDecoder.RegisterNamesPlain | backend/app/services/instruction_decoder.py:49-83 | the symbolic names are `$` and lower-case word characters |
| InstructionDecoder.RegisterNumbers | backend/app/services/instruction_decoder.py:349-352 | the lookup reads every symbolic register name back as its number |
| InstructionDecoder.ZeroAliases | backend/app/services/instruction_decoder.py:50-51 | `$0` and `$zero` both read as register 0 |
| InstructionDecoder.ToBinary | backend/app/services/instruction_decoder.py:365-367 | the text is made of binary digits only |
| InstructionDecoder.ToBinaryWidth | backend/app/services/instruction_decoder.py:365-367 | it has exactly `bits` digits and spells the value masked to `bits` bits |
| InstructionDecoder.DropSeparators | backend/app/services/instruction_decoder.py:165 | the result is the input after its leading run of commas and spaces: every character dropped is a separator and the result does not start with one |
| InstructionDecoder.SplitOperands | backend/app/services/instruction_decoder.py:165 | at least one piece and none holds a comma or space; only the first and last piece can be empty, the first only when the input starts with a separator |
| InstructionDecoder.SplitOperandsWeave | backend/app/services/instruction_decoder.py:165 | the pieces, interleaved with runs of separators, give back the input: `re.split` loses only the separator runs |
| InstructionDecoder.SplitOperandsOfWeave | backend/app/services/instruction_decoder.py:165 | conversely, separator-free pieces (inner ones non-empty) joined by separator runs split back into exactly those pieces |
| InstructionDecoder.MatchOffsetBase | backend/app/services/instruction_decoder.py:274 | a match yields a base register starting with `$` |
| InstructionDecoder.MatchOffsetBaseLayout | backend/app/services/instruction_decoder.py:274 | an optional `-`, a digit run, `($`, a run of word characters and `)` match, whatever follows, with the signed digit value as offset and `$word` as base |
| InstructionDecoder.MatchOffsetBaseParts | backend/app/services/instruction_decoder.py:274 | every match is such a layout at the start of the operand, and its offset and base are the layout's: the pattern matches exactly those operands |
| InstructionDecoder.RTypeWordSum | backend/app/services/instruction_decoder.py:237-239 | the shifted-and-or'ed R-type word is the sum of its fields times their place values |
| InstructionDecoder.RTypeWordFields | backend/app/services/instruction_decoder.py:237-239 | the R-type word is 32-bit with opcode 0, and each field can be read back by shifting and masking |
| InstructionDecoder.ITypeWordSum | backend/app/services/instruction_decoder.py:303 | the I-type word is the sum of its fields times their place values |
| InstructionDecoder.ITypeWordFields | backend/app/services/instruction_decoder.py:303 | the I-type word is 32-bit and its opcode, rs, rt and immediate read back |
| InstructionDecoder.JTypeWordFields | backend/app/services/instruction_decoder.py:333 | the J-type word is `opcode * 2^26 + address`, 32-bit, and both fields read back |
| InstructionDecoder.ParseImmediateDecimal | backend/app/services/instruction_decoder.py:354-363 | `ParseImmediate`: every integer written in decimal reads back as itself |
| InstructionDecoder.ParseImmediateHex | backend/app/services/instruction_decoder.py:354-363 | `ParseImmediate`: `0x` followed by hex digits of either case reads back as the number |
| InstructionDecoder.ParseImmediateLabel | backend/app/services/instruction_decoder.py:362-363 | every label (a letter or underscore, then word characters) is not an integer and reads as 0 |
| InstructionDecoder.RTypeOperands | backend/app/services/instruction_decoder.py:188-234 | the only error is a shift whose amount is not an integer; otherwise the fields are those `RTypeFields` gives from the operands' register numbers |
| InstructionDecoder.OperandRegisters | backend/app/services/instruction_decoder.py:349-352 | entry `i` is the register number of operand `i`, below 32 |
| InstructionDecoder.RTypeFields | backend/app/services/instruction_decoder.py:188-234 | for each of the eight R-type operand shapes, rs, rt, rd and shamt as the source assigns them (a one-operand `jalr` links `$ra`, the shift amount masked to 5 bits), all in range; fewer operands than the shape needs leave every field 0 |
| InstructionDecoder.ITypeOperands | backend/app/services/instruction_decoder.py:264-300 | for each of the five I-type operand shapes, rs, rt and the immediate masked to 16 bits as the source assigns them; a load or store without `offset($base)` keeps rs and the immediate 0; fewer operands than the shape needs leave every field 0 |
| InstructionDecoder.JTypeAddress | backend/app/services/instruction_decoder.py:326-330 | the target is the first operand masked to 26 bits, or 0 without one |
| InstructionDecoder.RTypeRecord | backend/app/services/instruction_decoder.py:236-257 | an R-type record with opcode 0 whose 32-bit word holds each field; the hex and binary texts are the word's |
| InstructionDecoder.ITypeRecord | backend/app/services/instruction_decoder.py:302-319 | an I-type record whose word holds opcode, rs, rt and immediate |
| InstructionDecoder.JTypeRecord | backend/app/services/instruction_decoder.py:332-347 | a J-type record whose word holds opcode and address; the hex and binary texts are the word's |
| InstructionDecoder.CleanInstruction | backend/app/services/instruction_decoder.py:155-162 | the stripped, lower-cased instruction up to its first `#`, stripped again; it holds no `#` |
| InstructionDecoder.DecodeMnemonic | backend/app/services/instruction_decoder.py:171-179 | an unknown mnemonic decodes to nothing; an error exactly when an R-type operand list is refused; a known mnemonic without error always gives a record that keeps the text and a 32-bit word |
| InstructionDecoder.DecodeMnemonicWord | backend/app/services/instruction_decoder.py:171-179 | the record's word carries the table code of the mnemonic (R before I before J) and the fields its operands give: `RTypeRecord`, `ITypeRecord` or `JTypeRecord` of them |
| InstructionDecoder.Decode | backend/app/services/instruction_decoder.py:145-179 | blank lines and comments decode to nothing, so do unknown mnemonics; an error only from a shift; a decoded record carries the cleaned text and a 32-bit word |
| InstructionDecoder.DecodeWord | backend/app/services/instruction_decoder.py:145-179 | a non-blank instruction decodes as its first piece with the remaining pieces as operands, so its word is the table code and operand fields of that mnemonic |
| InstructionDecoder.DecodeLine | backend/app/services/instruction_decoder.py:381-388 | blank, comment and directive lines are skipped; a decoded line keeps its cleaned text |
| InstructionDecoder.Prepend | backend/app/services/instruction_decoder.py:386-388 | an error on a line ends the whole decode with that error |
| InstructionDecoder.DecodeLinesSound | backend/app/services/instruction_decoder.py:369-390 | `decode_program` keeps no more instructions than lines, and each one is the decoding of some line that is not skipped |
| InstructionDecoder.DecodeLinesAppend | backend/app/services/instruction_decoder.py:381-390 | decoding a concatenation is decoding the first part, then the second: the first error wins and otherwise the results are concatenated |
| InstructionDecoder.DecodeLinesAt | backend/app/services/instruction_decoder.py:381-390 | in a successful decoding every line contributes its record, if any, between those of the lines before it and those after it: complete and in source order |
| InstructionDecoder.DecodeLinesRaises | backend/app/services/instruction_decoder.py:381-390 | the program raises exactly when one of its lines does |
| InstructionDecoder.CollectAppend | backend/app/services/instruction_decoder.py:381-390 | collecting line outcomes distributes over concatenation |
| InstructionDecoder.CollectErr | backend/app/services/instruction_decoder.py:381-390 | collecting fails exactly when some outcome is an error |
| InstructionDecoder.CollectFirstErr | backend/app/services/instruction_decoder.py:381-386 | the error reported is that of the first failing line |
| InstructionDecoder.CollectAt | backend/app/services/instruction_decoder.py:381-390 | a successful collection is the records before outcome `i`, outcome `i`'s record if any, then those after |
| InstructionDecoder.CollectSound | backend/app/services/instruction_decoder.py:381-390 | every record collected is some outcome's, and there are no more records than outcomes |
| InstructionDecoder.DecodeProgram | backend/app/services/instruction_decoder.py:369-390 | the loop computes exactly the decoding of the program's lines |
| PipelineSimulator.HazardInfo.HazardTypeName | backend/app/services/pipeline_simulator.py:56-60 | `unknown` exactly when the type is outside 0..3; 1 is `RAW` and 2 is `load-use` |
| PipelineSimulator.PipelineMetrics.Efficiency | backend/app/services/pipeline_simulator.py:76-81 | 0 when the CPI is 0; otherwise efficiency times CPI is 100, so an ideal CPI of 1 gives 100% |
| PipelineSimulator.StageNamesDistinct | backend/app/services/pipeline_simulator.py:314 | the five stage names are distinct |
| PipelineSimulator.DefaultStateStages | backend/app/services/pipeline_simulator.py:99-117 | a fresh state has the five stages in order, each idle, no history and is not complete |
| PipelineSimulator.Signed | backend/app/services/pipeline_simulator.py:398-402 | an unsigned 32-bit word becomes a value in [-2^31, 2^31) congruent to it mod 2^32, unchanged up to 0x7FFFFFFF |
| PipelineSimulator.SignedRoundTrip | backend/app/services/pipeline_simulator.py:398-402 | taking the signed value back mod 2^32 gives the word |
| PipelineSimulator.MeasuredCpi | backend/app/services/pipeline_simulator.py:347-351 | the CPI is positive exactly when a positive ratio was stored, or no ratio was stored and both counts are positive |
| PipelineSimulator.ReportedCpi | backend/app/services/pipeline_simulator.py:361 | the reported CPI is always positive and, unless it is the fallback 1, is the measured one |
| PipelineSimulator.HistoryRequested | backend/app/services/pipeline_simulator.py:366-372 | at most 50 history entries are requested |
| PipelineSimulator.EntriesThatFit | backend/app/services/pipeline_simulator.py:373-374 | the entries counted lie wholly inside the image and the next one would not |
| PipelineSimulator.HistoryFrom | backend/app/services/pipeline_simulator.py:364-387 | never more than 50 history entries |
| PipelineSimulator.StagesOffset | backend/app/services/pipeline_simulator.py:300-311 | the stage block starts between word 4 and word 103 of the image |
| PipelineSimulator.StagesOffsetFollowsBuffer | backend/app/services/pipeline_simulator.py:230-236 | the stage block starts three words past the buffer the injector writes: after `.space 400` or after the listed words |
| PipelineSimulator.StagesOffsetAsWrittenAgrees | backend/app/services/pipeline_simulator.py:305-311 | the offset as written agrees with the layout exactly when there are at most 100 instructions |
| PipelineSimulator.StagesOffsetAsWrittenOverruns | backend/app/services/pipeline_simulator.py:305-311 | with 101 instructions the injected buffer holds 100 words but the written offset is one word too far on |
| PipelineSimulator.ParseSimulationOutput | backend/app/services/pipeline_simulator.py:260-396 | the state is the decoding of the words of the dump's lines |
| PipelineSimulator.DecodeValues | backend/app/services/pipeline_simulator.py:300-396 | the decoding of an image of at least 50 words |
| PipelineSimulator.ReadStages | backend/app/services/pipeline_simulator.py:313-325 | the loop reads each of the five stages, in order, from its six-word block |
| PipelineSimulator.ReadHistory | backend/app/services/pipeline_simulator.py:364-387 | the loop reads exactly the requested entries that fit |
| PipelineSimulator.FindMagic | backend/app/services/pipeline_simulator.py:389-394 | the state is complete exactly when the marker 0x50495045 is among the trailing words scanned |
| PipelineSimulator.ParsedStageLookup | backend/app/services/pipeline_simulator.py:313-325 | `StageAt`: the decoded state has the five stages in order, stage `i` read from block `i` |
| PipelineSimulator.HazardFrom | backend/app/services/pipeline_simulator.py:326-336 | the hazard record is read from its seven-word block (flag, type, stall flag, the two stage numbers, the signed register), or left at its default when the block does not fit |
| PipelineSimulator.HazardSkipsThirdWord | backend/app/services/pipeline_simulator.py:329-336 | the third word of the hazard block does not affect the record |
| PipelineSimulator.MetricsFrom | backend/app/services/pipeline_simulator.py:338-361 | the seven counters are read in order and the CPI is positive, the measured one unless it is the fallback 1; a block that does not fit leaves the default metrics |
| PipelineSimulator.ParsedRegistersInRange | backend/app/services/pipeline_simulator.py:322-324 | register fields decoded from 32-bit words are signed 32-bit values |
| PipelineSimulator.InjectWithoutDirectives | backend/app/services/pipeline_simulator.py:224-258 | `InjectInstructions`: a template without the three directives is returned unchanged |
| PipelineSimulator.CountLineRecordsCount | backend/app/services/pipeline_simulator.py:241-245 | the count line written reads back, through the same pattern, as the instruction count |
| PipelineSimulator.ForwardingLineRecordsFlag | backend/app/services/pipeline_simulator.py:251-256 | the forwarding line written reads back as 1 when forwarding is enabled and 0 otherwise |
| MipsAnalyzer.Counter | backend/app/services/mips_analyzer.py:287-303 | a counter word is kept when below 10000 and read as 0 otherwise |
| MipsAnalyzer.ResultsOffset | backend/app/services/mips_analyzer.py:281-283 | the counters start between word 2 and word 101 of the image |
| MipsAnalyzer.ResultsOffsetFollowsBuffer | backend/app/services/mips_analyzer.py:225-230 | the counters start right after the buffer the injector writes: after `.space 400` or after the listed words |
| MipsAnalyzer.ResultsOffsetAsWrittenAgrees | backend/app/services/mips_analyzer.py:283 | for a non-empty program the offset as written agrees with the layout exactly when there are at most 100 instructions |
| MipsAnalyzer.ResultsOffsetAsWrittenOverruns | backend/app/services/mips_analyzer.py:283 | with 101 instructions the injected buffer holds 100 words but the written offset is one word too far on |
| MipsAnalyzer.UsageWords | backend/app/services/mips_analyzer.py:310-317 | the 32 usage words are paired with the register names in table order |
| MipsAnalyzer.KeepUsage | backend/app/services/mips_analyzer.py:316-317 | filtering keeps no more entries than it is given |
| MipsAnalyzer.KeepUsageKeys | backend/app/services/mips_analyzer.py:316-317 | every register kept was among those read |
| MipsAnalyzer.GetKeepUsage | backend/app/services/mips_analyzer.py:316-317 | a register is kept, with its word, exactly when its word is between 1 and 9999 |
| MipsAnalyzer.UsageWordsDistinct | backend/app/services/mips_analyzer.py:312 | no register appears twice in the usage read |
| MipsAnalyzer.UsageLookup | backend/app/services/mips_analyzer.py:309-317 | register `i`'s usage is word `offset + i` when it lies in 1..9999, absent otherwise |
| MipsAnalyzer.UsageValuesBounded | backend/app/services/mips_analyzer.py:316 | every usage kept lies in 1..9999 |
| MipsAnalyzer.ParsedAnalysis | backend/app/services/mips_analyzer.py:268-319 | the analysis is valid exactly when the total is positive, and every counter is below 10000 |
| MipsAnalyzer.ParseAnalysisOutput | backend/app/services/mips_analyzer.py:247-319 | the analysis is the decoding of the words of the dump's lines |
| MipsAnalyzer.DecodeAnalysis | backend/app/services/mips_analyzer.py:281-317 | the branches compute exactly that decoding |
| MipsAnalyzer.ReadUsage | backend/app/services/mips_analyzer.py:309-317 | the loop collects exactly the kept usage, in register order |
| MipsAnalyzer.UsageStep | backend/app/services/mips_analyzer.py:313-317 | one more register with a usage in range adds exactly its entry |
| MipsAnalyzer.Analyze | backend/app/services/mips_analyzer.py:321-382 | an empty program gives the default, invalid analysis; otherwise the decoded analysis, whose total falls back to the number of instructions when invalid, so it is always positive; a valid analysis implies a non-empty program |
| MipsAnalyzer.InjectWithoutDirectives | backend/app/services/mips_analyzer.py:216-245 | `InjectInstructions`: a template without the two directives is returned unchanged |
| MipsAnalyzer.CountLineRecordsCount | backend/app/services/mips_analyzer.py:236-240 | the count line written reads back, through the same pattern, as the instruction count |
| DataImage.LineValue | backend/app/services/pipeline_simulator.py:290-295 | a dump line contributes at most one value: nothing when blank or not hexadecimal |
| DataImage.FlattenSingletons | backend/app/services/pipeline_simulator.py:288-295 | lines of one value each contribute exactly those values, in order |
| DataImage.EmptyDumpValues | backend/app/services/pipeline_simulator.py:288-295 | an empty dump yields no values |
| DataImage.ReadValues | backend/app/services/pipeline_simulator.py:288-295 | the loop collects exactly the values of the stripped dump's lines, bad lines skipped |
| DataImage.ReadLine | backend/app/services/pipeline_simulator.py:290-295 | the `try`/`except` on one line computes its contribution |
| DataImage.HexText | backend/app/services/pipeline_simulator.py:196-206 | a HexText dump has one line per word |
| DataImage.HexLineValue | backend/app/services/pipeline_simulator.py:293 | an eight-digit HexText line reads as its word |
| DataImage.HexTextValues | backend/app/services/pipeline_simulator.py:288-295 | the lines of a HexText dump read as exactly its words |
| DataImage.JoinedLines | backend/app/services/pipeline_simulator.py:289 | lines that keep no surrounding space and hold no newline are recovered by strip-and-split after joining |
| DataImage.JoinedIsStripped | backend/app/services/pipeline_simulator.py:289 | such a join is already stripped |
| DataImage.JoinedSplits | backend/app/services/pipeline_simulator.py:289 | such a join splits back into its lines |
| DataImage.HexTextLines | backend/app/services/pipeline_simulator.py:289-291 | a non-empty HexText dump strips and splits back into its own lines |
| DataImage.ReadHexText | backend/app/services/pipeline_simulator.py:288-295 | the dump MARS writes from a list of words reads back as exactly those words |
| DataImage.BufferWords | backend/app/services/pipeline_simulator.py:232-236 | the injected buffer occupies between 1 and 100 words |
| DataImage.ListedWords | backend/app/services/pipeline_simulator.py:233 | one item per comma-separated piece of the `.word` list |
| DataImage.JoinCommaSpace | backend/app/services/pipeline_simulator.py:233 | joining by `", "` is joining by `,` the pieces after the first prefixed with a space |
| DataImage.WordHexValue | backend/app/services/pipeline_simulator.py:233 | a listed `0x%08X` word holds no comma and reads back as that word, with or without a leading space |
| DataImage.BufferListing | backend/app/services/pipeline_simulator.py:230-236 | with no instructions the buffer is `.space 400`, 100 words; otherwise the `.word` list holds the first `min(n, 100)` words, each readable as itself |
| DataImage.MatchAt | backend/app/services/pipeline_simulator.py:241-256 | a match of `<label>:\s*\.<directive>\s+\d+` at a position ends after it and inside the text |
| DataImage.SubFromCopy | backend/app/services/pipeline_simulator.py:241-256 | the substitution copies any stretch where nothing matches |
| DataImage.NoMatchUnchanged | backend/app/services/pipeline_simulator.py:241-256 | a template in which the directive does not occur is left unchanged |
| DataImage.SubDirectiveOnce | backend/app/services/pipeline_simulator.py:241-256 | a directive that occurs once is replaced there and the rest of the template is kept |
| DataImage.LiteralAtSplit | backend/app/services/pipeline_simulator.py:242 | a concatenation occurs at a position exactly when its two parts occur one after the other |
| DataImage.NumberAt | backend/app/services/pipeline_simulator.py:242 | a space and a decimal number ending at a non-digit read as that number |
| DataImage.DirectiveLineAt | backend/app/services/pipeline_simulator.py:242 | a line `<label>:<spaces>.<directive> <n>` matches at its start, ends after `n` and reads `n` |
| OutputParser.RegisterMatchAt | backend/app/services/output_parser.py:55 | a match of the register pattern names a register `$` followed by at least one word character |
| OutputParser.RegisterSearch | backend/app/services/output_parser.py:83 | the leftmost match names a `$` register |
| OutputParser.RegisterMatchRuns | backend/app/services/output_parser.py:55 | a line laid out as `$`, word characters, spaces, an optional `-` and digits reads as that name and signed decimal value |
| OutputParser.SignedLineMatches | backend/app/services/output_parser.py:55 | `$name`, one space character and an optionally signed digit run match at the start with that name and value |
| OutputParser.RegisterLineReads | backend/app/services/output_parser.py:82-87 | a line `$name<space><decimal v>` reads back as `$name` and `v`, for every integer `v` |
| OutputParser.RegistersFromReadsLast | backend/app/services/output_parser.py:82-87 | the value recorded for a register is the one on the last line that names it |
| OutputParser.ParseRegisters | backend/app/services/output_parser.py:68-89 | the loop computes the dict of readings of the stripped output's lines, later readings overwriting earlier ones |
| OutputParser.LineKinds | backend/app/services/output_parser.py:113-126 | one classification per line |
| OutputParser.SlotAddressValue | backend/app/services/output_parser.py:135 | the `k`-th word of a dump sits at `start + k * word_size` |
| OutputParser.WordBlocks | backend/app/services/output_parser.py:128-135 | one block per word |
| OutputParser.ParseMemoryDump | backend/app/services/output_parser.py:91-137 | the blocks of the dump's words at consecutive slots, or the error of the first `0x` line `int` rejects |
| OutputParser.DumpBlocks | backend/app/services/output_parser.py:113-135 | the loop computes exactly those blocks or that error |
| OutputParser.ReadDumpLine | backend/app/services/output_parser.py:114-126 | the branches on one line compute its classification: skipped, a word, or malformed |
| OutputParser.KindWordsStep | backend/app/services/output_parser.py:113-135 | one more line skips, appends its word, or fails |
| OutputParser.WordBlocksAppend | backend/app/services/output_parser.py:128-135 | appending a word appends its block at the next slot |
| OutputParser.MalformedAborts | backend/app/services/output_parser.py:120 | once a malformed `0x` line has raised, the whole parse fails with that error |
| OutputParser.HexLineIsWord | backend/app/services/output_parser.py:122-124 | an eight-digit HexText line reads as its word |
| OutputParser.WordKinds | backend/app/services/output_parser.py:113-135 | lines that are all words give exactly those words |
| OutputParser.HexDumpWords | backend/app/services/output_parser.py:91-137 | a HexText dump written from words reads back as exactly those words |
| OutputParser.WordBlocksMap | backend/app/services/output_parser.py:165 | `MemMap`: in the address map of a dump's blocks, slot `k` holds word `k` |
| OutputParser.SlotsIncrease | backend/app/services/output_parser.py:135 | slot addresses strictly increase |
| OutputParser.HeapBoundsOfDump | backend/app/services/output_parser.py:267-298 | `extract_heap_bounds`: the heap bounds are the fourth and fifth words of the data dump |
| OutputParser.HeapBoundsMissing | backend/app/services/output_parser.py:295-296 | missing bound words read as 0 |
| OutputParser.HeapWalkShape | backend/app/services/output_parser.py:167-192 | `HeapWalk`: every parsed block has a positive size read from its header, lies in `[heap_start, heap_end)`, the first starts at heap_start and each next one starts where the previous ends |
| OutputParser.HeapWalkStep | backend/app/services/output_parser.py:170-190 | a missing or non-positive size ends the walk; otherwise the block is recorded and the walk continues `size` bytes on |
| OutputParser.HeapWalkIncreasing | backend/app/services/output_parser.py:190 | parsed block addresses strictly increase, so the walk terminates |
| OutputParser.HeapWalkFlags | backend/app/services/output_parser.py:184-185 | a block is allocated exactly when its flag word is present and nonzero; its next pointer is the next word or 0 |
| OutputParser.ParseHeapMetadata | backend/app/services/output_parser.py:139-192 | the walk over the blocks' address map, with no blocks for an empty dump |
| OutputParser.WalkHeap | backend/app/services/output_parser.py:167-192 | the `while` loop computes exactly the walk |
| OutputParser.FreeEntry | backend/app/services/output_parser.py:231-238 | a free entry starts after the 12-byte header and its size is the block size less the header, never negative |
| OutputParser.FreeListMembers | backend/app/services/output_parser.py:221-238 | the free list (`FreeList`) holds exactly the entries of the blocks not allocated |
| OutputParser.LargestSize | backend/app/services/output_parser.py:264 | the largest free size is at least every size and is one of them |
| OutputParser.SizeAtMostSum | backend/app/services/output_parser.py:260-264 | no free block is larger than the total |
| OutputParser.Fragmentation | backend/app/services/output_parser.py:249-265 | fragmentation is a percentage between 0 and 100 |
| OutputParser.Percentage | backend/app/services/output_parser.py:265 | `part / whole * 100` is between 0 and 100 and is 0 exactly when the part is |
| OutputParser.FragmentationZero | backend/app/services/output_parser.py:257-265 | fragmentation is 0 exactly when there are fewer than two free blocks, no free bytes, or all of them in the largest block |
| OutputParser.HeapBlocks | backend/app/services/output_parser.py:221-228 | one heap block per parsed block, in order, block `k` carrying the address, size and flag of parsed block `k` |
| OutputParser.HeapStateOf | backend/app/services/output_parser.py:240-247 | the assembled heap state is valid |
| OutputParser.BuildHeapState | backend/app/services/output_parser.py:194-247 | the heap state is built from the parsed blocks of the dump |
| OutputParser.AssembleHeapState | backend/app/services/output_parser.py:218-247 | the loop builds exactly that state |
| TraceParser.LineWord | backend/app/services/trace_parser.py:98-101 | a line yields a word only when, stripped, it starts with `0x` |
| TraceParser.ParseMemoryDump | backend/app/services/trace_parser.py:76-113 | the blocks are the words of the stripped lines that match, at consecutive addresses `word_size` apart from the start |
| TraceParser.ReadBlocks | backend/app/services/trace_parser.py:96-111 | the loop builds exactly the blocks of the matching lines, in order |
| TraceParser.ReadLineWord | backend/app/services/trace_parser.py:97-102 | the character scan of one line computes the word the pattern reads |
| TraceParser.SerializeMemoryBlocks | backend/app/services/trace_parser.py:279-293 | the text is the newline-joined `0x%08x` lines of the blocks that hold a value |
| TraceParser.ValuelessBlocksOmitted | backend/app/services/trace_parser.py:290-292 | blocks without a value write no line |
| TraceParser.HexWordShape | backend/app/services/trace_parser.py:292 | `HexWord`: a 32-bit word is written as `0x` and eight hex digits |
| TraceParser.HexWordReads | backend/app/services/trace_parser.py:292 | `HexWord`: a written word reads back as itself and is a single line |
| TraceParser.NegativeWordSkipped | backend/app/services/trace_parser.py:292 | a negative value is written `0x-…`, which the dump parser does not read back |
| TraceParser.ValueLinesOfWords | backend/app/services/trace_parser.py:279-293 | serializing the blocks of a list of words writes one line per word |
| TraceParser.SerializeParseRoundTrip | backend/app/services/trace_parser.py:76-113 | parsing the serialized blocks of a word list, from the same start and word size, gives the same blocks |
| TraceParser.HexWordsRead | backend/app/services/trace_parser.py:96-111 | lines written from words are plain lines and read back as those words |
| TraceParser.EmptyDumpNoWords | backend/app/services/trace_parser.py:96-111 | an empty dump has no blocks |
| TraceParser.CreateRegisterState | backend/app/services/trace_parser.py:115-134 | all 32 registers once, in table order; `$zero` is 0 and every other register is its given value or 0 |
| TraceParser.CreateRegisterStateGet | backend/app/services/trace_parser.py:115-134 | looking a name up gives None outside the table, 0 for `$zero`, the given value (missing = 0) otherwise |
| TraceParser.CreateRegisterStateIdempotent | backend/app/services/trace_parser.py:115-134 | completing a complete register state changes nothing |
| TraceParser.SerializeRegisters | backend/app/services/trace_parser.py:262-277 | the text is the newline-joined `name<TAB>value` lines, in the state's order |
| TraceParser.RegisterLineReads | backend/app/services/trace_parser.py:45 | `RegisterLine`: the line written for a register reads back through the register pattern as that name and value |
| TraceParser.RegisterLineShape | backend/app/services/trace_parser.py:275 | `RegisterLine`: a written register line is a single line that survives stripping |
| TraceParser.RegisterLinesRead | backend/app/services/trace_parser.py:262-277 | each written line reads back as its own register and value |
| TraceParser.SerializeRegistersRoundTrip | backend/app/services/trace_parser.py:55-74 | parsing the serialization of a register dict without repeated names gives the same dict, order included |
| TraceParser.EmptyDumpReadsNothing | backend/app/services/trace_parser.py:55-74 | an empty dump reads no register |
| TraceParser.RegisterStateRoundTrip | backend/app/services/trace_parser.py:55-74 | a complete register state survives serialization followed by parsing |
| TraceParser.BlocksEnd | backend/app/services/trace_parser.py:160-163 | the end of a non-empty block list is the largest `address + size` of its blocks |
| TraceParser.CreateMemoryState | backend/app/services/trace_parser.py:136-186 | each segment starts at its MARS address and holds its blocks (none when absent); text, data and heap end at their blocks' end or at their start when empty; the stack spans the 1024 bytes below 0x7FFFEFFC |
| TraceParser.TightSegmentUnique | backend/app/services/trace_parser.py:160-163 | the end of a segment is determined by its start and its blocks |
| TraceParser.DefaultMemoryState | backend/app/services/trace_parser.py:136-186 | without blocks every segment is empty at its start address, and the stack is 0x7FFFEBFC..0x7FFFEFFC |
| TraceParser.CreateInitialHeapState | backend/app/services/trace_parser.py:188-194 | no blocks, no free list, no fragmentation |
| TraceParser.CreateExecutionState | backend/app/services/trace_parser.py:221-260 | a state is built exactly when the pc is non-negative; its registers are completed, and absent changes, memory and heap take their defaults |
| TraceParser.ExecutionStateComplete | backend/app/services/trace_parser.py:221-260 | a state built from any registers has all 32 names, `$zero` = 0, a valid heap and no changes |
| AsmInjector.NumberStart | backend/app/services/asm_injector.py:84 | the number of a `<label>: .word` line starts inside the line |
| AsmInjector.NumberEnd | backend/app/services/asm_injector.py:84 | the number found is an optional `-` followed by a maximal run of digits |
| AsmInjector.MatchWord | backend/app/services/asm_injector.py:84 | a match of the line pattern locates a signed digit run |
| AsmInjector.LayoutMatches | backend/app/services/asm_injector.py:84 | a line laid out as spaces, label, `:`, spaces, `.word`, spaces and a number matches at that number |
| AsmInjector.MatchLayout | backend/app/services/asm_injector.py:84 | every match is such a layout: the pattern matches exactly those lines |
| AsmInjector.LayoutSubst | backend/app/services/asm_injector.py:84-86 | replacing the number by another signed digit run keeps the layout |
| AsmInjector.DecimalToken | backend/app/services/asm_injector.py:85 | every integer written in decimal reads back as itself |
| AsmInjector.SubLineReads | backend/app/services/asm_injector.py:84-86 | after the substitution the line matches again and holds the injected value |
| AsmInjector.SubLineMatches | backend/app/services/asm_injector.py:84-86 | a spliced signed digit run is matched where the old number was |
| AsmInjector.SubLineKeepsGroups | backend/app/services/asm_injector.py:85 | the substitution keeps the text before the number (group 1) and after it (group 2) and puts the value in between |
| AsmInjector.SubLineTwice | backend/app/services/asm_injector.py:84-86 | substituting twice on a line is substituting the second value once |
| AsmInjector.LabelsExclusive | backend/app/services/asm_injector.py:84 | a line cannot start with two different labels |
| AsmInjector.OneLabelPerLine | backend/app/services/asm_injector.py:84 | a line is the `.word` line of at most one label |
| AsmInjector.SubLineOther | backend/app/services/asm_injector.py:84-86 | substituting one label leaves every other label's match unchanged |
| AsmInjector.SubLines | backend/app/services/asm_injector.py:86 | the substitution keeps the number of lines |
| AsmInjector.SubLinesAt | backend/app/services/asm_injector.py:86 | with `re.MULTILINE` each line is rewritten on its own |
| AsmInjector.Repeat | backend/app/services/asm_injector.py:86 | `n` copies of a value |
| AsmInjector.SubLineNoNewline | backend/app/services/asm_injector.py:84-86 | a substituted line holds no newline, so the line structure is kept |
| AsmInjector.InjectValue | backend/app/services/asm_injector.py:66-86 | `inject_value`: the lines of the injected program are the original lines, each with the label's `.word` number replaced by the value |
| AsmInjector.WordAtMatch | backend/app/services/asm_injector.py:84 | a line holds a value for a label exactly when it matches the pattern |
| AsmInjector.InjectSets | backend/app/services/asm_injector.py:66-86 | after injection every `.word` line of the label holds the value, and there are as many as before |
| AsmInjector.InjectKeeps | backend/app/services/asm_injector.py:66-86 | injection leaves the values of every other label unchanged |
| AsmInjector.InjectAbsent | backend/app/services/asm_injector.py:66-86 | a program without the label is returned unchanged |
| AsmInjector.InjectOverrides | backend/app/services/asm_injector.py:66-86 | injecting twice into the same label is injecting the last value |
| AsmInjector.InjectCommutes | backend/app/services/asm_injector.py:66-86 | injections into different labels commute |
| AsmInjector.LabelsDistinct | backend/app/services/asm_injector.py:105-149 | the three heap labels are distinct and hold no colon |
| AsmInjector.InjectHeapAllocate | backend/app/services/asm_injector.py:88-110 | `inject_heap_allocate`: every operation line holds 0, every requested-size line holds `size`, and the free-address lines keep the template's values |
| AsmInjector.InjectHeapFree | backend/app/services/asm_injector.py:112-134 | `inject_heap_free`: every operation line holds 1, every free-address line holds `address`, and the requested-size lines keep the template's values |
| AsmInjector.InjectHeapInit | backend/app/services/asm_injector.py:136-151 | `inject_heap_init`: every operation line holds 2 and both parameters keep the template's values |
| AsmInjector.InjectHeapOperation | backend/app/services/asm_injector.py:153-187 | an error exactly when allocate lacks a size, free lacks an address, or the operation is unknown; otherwise the program of that operation |
| AsmInjector.SubLinesSet | backend/app/services/asm_injector.py:84-86 | after substituting, every `.word` line of the label holds the value, and there are as many such lines as before |
| AsmInjector.SubLinesKeep | backend/app/services/asm_injector.py:84-86 | substituting one label leaves the values of every other colon-free label unchanged |
| AsmInjector.SubLinesUnmatched | backend/app/services/asm_injector.py:84-86 | lines without a `.word` line for the label come back unchanged |
| AsmInjector.SubLinesTwice | backend/app/services/asm_injector.py:84-86 | substituting twice into the same label is substituting the second value |
| AsmInjector.SubLinesCommute | backend/app/services/asm_injector.py:84-86 | substitutions into different labels commute |
| MarsExecutor.CompletedRun | backend/app/services/mars_executor.py:180-189 | a run that finished keeps both streams, did not time out and carries the error the output scan found |
| MarsExecutor.TimedOut | backend/app/services/mars_executor.py:191-198 | a run over its limit has empty streams, is marked timed out and reports `Execution timeout (>Ns)` |
| MarsExecutor.Crashed | backend/app/services/mars_executor.py:199-206 | a run that raised has the exception text as its standard error and reports `Execution error: ` followed by it |
| MarsExecutor.RunsConsistent | backend/app/services/mars_executor.py:180-206 | every result succeeds exactly when it carries no error; a finished run succeeds exactly when its output reports no error; a timeout or crash never succeeds |
| MarsExecutor.ErrorLines | backend/app/services/mars_executor.py:488-492 | the filter keeps no more lines than it is given |
| MarsExecutor.ErrorLinesConcat | backend/app/services/mars_executor.py:488-492 | the filter keeps order: it distributes over concatenation |
| MarsExecutor.ErrorLinesMembers | backend/app/services/mars_executor.py:488-492 | a line is kept exactly when it says `Error` and does not say `Warning` |
| MarsExecutor.ErrorLinesEmpty | backend/app/services/mars_executor.py:488-494 | nothing is kept exactly when no line is an error line |
| MarsExecutor.LowerFindsError | backend/app/services/mars_executor.py:482 | the upper-case test on standard error is subsumed by the lower-cased one |
| MarsExecutor.JoinContains | backend/app/services/mars_executor.py:486-494 | whatever a piece of a join contains, the join contains |
| MarsExecutor.ErrorLineInOutput | backend/app/services/mars_executor.py:486-494 | an error line in the output puts `Error` in the output, so the outer test never hides one |
| MarsExecutor.CheckForErrors | backend/app/services/mars_executor.py:479-496 | `_check_for_errors` reports an error exactly when non-empty standard error says `error` in any case or some output line is an error line; the report is the stripped standard error first, else the error lines joined by newlines |
| MarsExecutor.RegisterArgsMatchTable | backend/app/services/mars_executor.py:439-474 | the 32 register arguments are the register table without `$`, in order |
| MarsExecutor.BuildCommand | backend/app/services/mars_executor.py:423-477 | `java -jar <jar> nc dec`, the 32 register names when registers are dumped, then the program file |
| MarsExecutor.TraceCommand | backend/app/services/mars_executor.py:240-289 | `java -jar <jar> nc dec <file>`, then the 32 register names in table order |
| DecoderRouter.Cuts | backend/app/routers/decoder.py:102-104 | the cut points of each format run from 0 to 32 and step by the field widths 6/5/5/5/5/6, 6/5/5/16 or 6/26 |
| DecoderRouter.Pieces | backend/app/routers/decoder.py:109-120 | one piece per field |
| DecoderRouter.SeparatedByFields | backend/app/routers/decoder.py:98-122 | a 32-digit word is shown as its field pieces, each of its field's width, joined by ` \| ` |
| DecoderRouter.SeparatedR | backend/app/routers/decoder.py:109-114 | the R-type layout is the pieces at the R-type cuts |
| DecoderRouter.SeparatedI | backend/app/routers/decoder.py:115-117 | the I-type layout is the pieces at the I-type cuts |
| DecoderRouter.SeparatedJ | backend/app/routers/decoder.py:118-120 | the J-type layout is the pieces at the J-type cuts |
| DecoderRouter.RemoveFromJoin | backend/app/routers/decoder.py:98-122 | deleting the separators from pieces without spaces gives the pieces run together |
| DecoderRouter.PiecesFlatten | backend/app/routers/decoder.py:109-120 | the pieces run together give back the text between the first and last cut |
| DecoderRouter.SeparatorsRemoved | backend/app/routers/decoder.py:98-122 | `SeparatedBinary`: the separated word without its separators is the word, whatever its length or format |
| DecoderRouter.RegisterDescribed | backend/app/routers/decoder.py:127-165 | `FieldDescription`: a register field in range is described by the register whose number it holds, which the decoder reads back as that number |
| DecoderRouter.DecimalReads | backend/app/routers/decoder.py:166-169 | the decimal text in a description reads back as the value |
| DecoderRouter.ImmediateDescribed | backend/app/routers/decoder.py:170-171 | `FieldDescription`: an immediate is described in decimal and as 4 upper-case hex digits, both reading back as the value |
| DecoderRouter.TargetDescribed | backend/app/routers/decoder.py:172-173 | `FieldDescription`: a jump target is described in decimal and as 7 upper-case hex digits, both reading back as the value |
| DecoderRouter.FieldResponses | backend/app/routers/decoder.py:183-193 | one response per field |
| DecoderRouter.FieldResponsesAt | backend/app/routers/decoder.py:183-193 | response `k` is that of field `k` |
| DecoderRouter.ConvertedFaithful | backend/app/routers/decoder.py:178-210 | `Converted`: one field response per decoded field, in order, with its name, value, binary and description; the formatted word without separators is the machine word |
| DecoderRouter.ConvertDecodedToResponse | backend/app/routers/decoder.py:178-210 | the loop and record compute the converted response |
| DecoderRouter.DecodeInstructionEndpoint | backend/app/routers/decoder.py:221-258 | success exactly when the instruction decodes, with its converted response; `Could not decode instruction: …` when it decodes to nothing; `Decoder error: …` when decoding raised |
| DecoderRouter.ConvertAll | backend/app/routers/decoder.py:284-286 | one converted response per decoded instruction, in order |
| DecoderRouter.DecodeProgramEndpoint | backend/app/routers/decoder.py:261-300 | success exactly when the program decodes to at least one instruction, then one converted response per instruction in order; on failure no instructions, a total of 0 and the error `Decoder error: <message>` when decoding raised, `No valid instructions found in program` when nothing decoded; the total always counts the instructions |
| PipelineRouter.RegisterName | backend/app/routers/pipeline.py:175-179 | a name exactly for register numbers 0..31 |
| PipelineRouter.RegisterNameReadsBack | backend/app/routers/pipeline.py:175-179 | the name given for a register number is read back by the decoder as that number |
| PipelineRouter.StageName | backend/app/routers/pipeline.py:182-184 | a name exactly for stage numbers 1..5 |
| PipelineRouter.StageNameInjective | backend/app/routers/pipeline.py:170 | different stage numbers have different names |
| PipelineRouter.HazardName | backend/app/routers/pipeline.py:187-189 | `get_hazard_name` agrees with the simulator's `hazard_type_name` for every hazard of that type, and is `unknown` exactly outside 0..3 |
| PipelineRouter.WordHexReads | backend/app/routers/pipeline.py:214-216 | a 32-bit word is shown as 10 characters that read back as the word |
| PipelineRouter.MetricsResponseOf | backend/app/routers/pipeline.py:244-261 | the reported CPI is positive, efficiency times CPI is 100 and speedup times CPI is 5; a positive CPI is kept, otherwise 1 with 100% and 5; all seven counters (cycles, instructions, stall cycles, forwards, branch stalls, load-use stalls, RAW hazards) pass through |
| PipelineRouter.StageDict | backend/app/routers/pipeline.py:269-282 | five entries |
| PipelineRouter.StageDictKeys | backend/app/routers/pipeline.py:269-282 | the stage dictionaries have the five stage names as keys, in pipeline order, each once |
| PipelineRouter.CycleResponseWords | backend/app/routers/pipeline.py:264-288 | a converted cycle keeps each stage's word under the stage's name with its hex text beside it, its cycle number and its hazard name |
| PipelineRouter.StageResponses | backend/app/routers/pipeline.py:206-225 | no more responses than stage names looked at |
| PipelineRouter.StageResponseAt | backend/app/routers/pipeline.py:208-225 | at most one response per stage name |
| PipelineRouter.StagesMatch | backend/app/routers/pipeline.py:206-225 | one response per present stage, each the response of that stage under its name |
| PipelineRouter.StagesIncrease | backend/app/routers/pipeline.py:207 | the responses follow pipeline order |
| PipelineRouter.StagesComplete | backend/app/routers/pipeline.py:208-209 | every stage the state has gets a response |
| PipelineRouter.AllStagesInOrder | backend/app/routers/pipeline.py:206-225 | a state with all five stages gives five responses IF, ID, EX, MEM, WB |
| PipelineRouter.AllPresent | backend/app/routers/pipeline.py:206-225 | the same for the first `m` stage names |
| PipelineRouter.ConvertStages | backend/app/routers/pipeline.py:206-225 | the loop computes the responses of the present stages in pipeline order |
| PipelineRouter.ConvertHistory | backend/app/routers/pipeline.py:264-288 | one response per cycle record, in order |
| PipelineRouter.ConvertStateToResponse | backend/app/routers/pipeline.py:202-298 | a success with the stages present in order, the hazard and metrics responses, one response per cycle and the completion flag |
| PipelineRouter.SimulatePipeline | backend/app/routers/pipeline.py:304-344 | blank code: `MIPS code cannot be empty`; a simulation error: its message; an incomplete run with no instructions: `Pipeline simulation produced no results. Check your MIPS code.`; success exactly otherwise, with the converted state: the stages present in pipeline order, the converted hazard and metrics, one converted record per history cycle in order, and the completion flag |
| StepRouter.RegisterOrderIsNumberOrder | backend/app/routers/step.py:114-147 | the display order is the executor's register table, register-number order |
| StepRouter.Unsigned | backend/app/routers/step.py:157 | `value & 0xFFFFFFFF` is a 32-bit word congruent to the value: a word reads as itself, a negative signed word as itself plus 2^32 |
| StepRouter.RegisterHexReads | backend/app/routers/step.py:154-164 | the hex text is 10 characters and reads back as the unsigned value; a register the step does not record shows 0 |
| StepRouter.ConvertRegisters | backend/app/routers/step.py:153-165 | 32 register responses, the `i`-th for the `i`-th register in display order |
| StepRouter.ConvertStep | backend/app/routers/step.py:150-177 | the response shows the step: its fields, pc and description as the step computes them, and its registers in display order |
| StepRouter.BuildResponse | backend/app/routers/step.py:180-194 | the given outcome, the current step shown when there is one, the counts from the state or 0 without one, and the executor's completion |
| StepRouter.Load | backend/app/routers/step.py:200-235 | blank code: `Code cannot be empty` and no executor; otherwise a fresh executor; no instructions: `No executable instructions found`; else success at step 0 with the recorded trace and its length |
| StepRouter.TargetInTrace | backend/app/services/step_executor.py:477-505 | every move lands inside the trace; forward never goes back and stays put at the end; backward never goes forward; goto an existing step lands on it |
| StepRouter.Navigate | backend/app/routers/step.py:238-335 | without a loaded program `No program loaded. Use /load first.` and nothing changes; otherwise the index moves to the move's target, the trace is untouched and the response shows the step landed on |
| StepRouter.CurrentState | backend/app/routers/step.py:338-357 | the same guard; then the position, the completion flag and exactly the executor's current step (`get_current_step`) shown, with no move |
| StepRouter.AllStepResponses | backend/app/routers/step.py:360-388 | the same guard; then every recorded step shown, in order, and their count |
| ExecutionRouter.ProgramLines | backend/app/routers/execution.py:178-188 | the loop keeps no more lines than it is given |
| ExecutionRouter.ExtractProgramOutput | backend/app/routers/execution.py:161-190 | `ProgramOutput`: the output is the program lines of the stripped standard output, unstripped and in order, joined by newlines |
| ExecutionRouter.ProgramLinesConcat | backend/app/routers/execution.py:178-188 | the filter keeps order: it distributes over concatenation |
| ExecutionRouter.ProgramLinesMembers | backend/app/routers/execution.py:178-188 | a line is kept exactly when it is in the output and is a program line |
| ExecutionRouter.TextWithoutDigitsKept | backend/app/routers/execution.py:176-188 | a line without digits is kept exactly when it is not blank and does not start with `MARS` or `Error` |
| ExecutionRouter.RegisterLineDropped | backend/app/routers/execution.py:176-184 | `ProgramOutput`: every `name<TAB>value` register dump line is filtered out |
| ExecutionRouter.DumpLineLayout | backend/app/routers/execution.py:176 | `IsRegisterDumpLine`: a line of `$`, word characters, a tab, an optional `-` and digits matches the register pattern |
| ExecutionRouter.RegisterLineStripped | backend/app/routers/execution.py:179 | a register dump line is unchanged by stripping |
| ExecutionRouter.ShownPc | backend/app/routers/execution.py:141-143 | the pc shown is the dumped `$pc` when present and nonzero, otherwise the start of `.text` |
| ExecutionRouter.BuildExecutionStates | backend/app/routers/execution.py:50-158 | no state for a failed run; otherwise exactly one complete state with the completed dumped registers, every dumped register marked changed, the shown pc, the program output, an empty heap and the analysis (an invalid one when the analyser failed); an error exactly when the pc is negative |
| ExecutionRouter.ExecuteCode | backend/app/routers/execution.py:193-247 | blank code, a missing simulator and a failed run (the timeout message, or the run's error, `Unknown execution error` when empty) leave the session unchanged; a successful run replaces the trace by its single state and shows it: pc from `$pc` (else the text start), the register file built from the dump, every dumped register as changed, the program output lines, the analysis (or an invalid one) and the final-instruction marker |
| ExecutionRouter.StepExecution | backend/app/routers/execution.py:250-282 | no trace: `No program loaded. Call /api/execute first.`; at the last state: that state with `Execution already complete` and no move; otherwise one state on, shown with its freshly computed changes |
| ExecutionRouter.ResetExecution | backend/app/routers/execution.py:285-310 | no trace: the same failure; otherwise back at the first state, which is shown |
| ExecutionRouter.GetState | backend/app/routers/execution.py:313-337 | no trace: the same failure; otherwise the state on show |

## Left out

- Running MARS, the pipeline simulator and the analyser: subprocesses, temporary files, time limits and the `.jar`/`.asm` existence checks are outside the model. Their captured output, dumps and per-step run results are parameters.
- `MarsExecutor.execute_with_trace` at `mars_executor.py:64` is shadowed by the second definition at line 214; only the second one's command (`TraceCommand`) is modelled. `dump_memory` is not modelled: it only runs MARS.
- `StepExecutor._get_instruction_list` and `_execute_with_step_limit` only run MARS; the list of instructions and the outcome of each limited run are inputs of `LoadProgram`.
- `load_program`'s exception handler (any exception becomes `Execution error: …`) is not modelled, because the modelled loop raises nothing.
- `simulate`, `analyze` and `_assemble_to_words` are orchestration around MARS; only the Python steps they chain (injection, dump reading, decoding, the analyser's fallback) are modelled.
- `AsmInjector.load_template` reads a file; the template is a string parameter.
- The hazard, forwarding and stall engine, the heap allocator's first-fit and splitting, and the instruction classification run inside assembly programs that are not part of this model.
- AsmInjector.InjectValue: works line by line. The pattern's `\s*` can also match line breaks, so a label on one line followed by `.word` on a later one is rewritten by Python but not by the model. The label is matched literally, whereas Python reads it as part of the pattern.
- Floating point: CPI, efficiency, speedup and fragmentation are exact `real` ratios. `round(…, 2)` and `round(…, 1)` are not modelled.
- PipelineRouter.MetricsResponseOf: the derived metrics are not rounded.
- PipelineSimulator.ReportedCpi: the CPI is not rounded to two decimals.
- Python's Unicode classes for `\w` and `\d`, `int()`'s digits and `str.lower` are reduced to ASCII, and `int()`'s underscores are not accepted. Whitespace (`\s`, `str.isspace`, `str.strip`) is Python's full Unicode set.
- The per-session executor table and the module-level singletons (`get_*`) are not modelled: each endpoint takes its executor or state manager as a parameter.
- HTTP plumbing is not modelled: FastAPI routing, Pydantic validation, JSON, CORS, and the whole of `routers/heap.py`. Only the guards and response builders of the four routers are modelled.
- Exception wrapping in the endpoints (`Step forward error: …`, `Unexpected error: …` and the like; the decoder endpoints' `Decoder error: …` is modelled) is not modelled. The modelled code raises only where a `Result` says so.
- `get_step_info` and `get_decoder_info` are not modelled: they return constant documentation dictionaries.
- Debug prints and the commented-out memory dumps of `_build_execution_states` are not modelled. The memory state built there has empty segments, as in the source.
- `trace_parser.parse_register_dump` is the same loop as `output_parser.parse_registers` and is modelled once, as `OutputParser.ParseRegisters`.
- PipelineSimulator.StagesOffset: the decoders read the stage block at the offset of the buffer actually injected, `1 + min(num_instructions, 100) + 2`, not at the uncapped `1 + num_instructions + 2` of pipeline_simulator.py:305-311; the two differ only above 100 instructions (see "## Findings").
- MipsAnalyzer.ResultsOffset: the decoders read the counters at `1 + min(num_instructions, 100)`, not at the uncapped `1 + num_instructions` of mips_analyzer.py:283; for a non-empty program the two differ only above 100 instructions (see "## Findings"). An empty program never reaches this offset, because `analyze` returns its default first.
- TraceParser.SerializeMemoryBlocks: negative values are written as Python does (`0x-…`). The round trip is stated for words in `[0, 2^32)` only, and the negative case is shown to be skipped by the parser.
- StateManagement.StateManager.LoadTrace: the trace is a value. In Python `self._states = states` keeps the caller's list, and `reset` later writes its deep copy into that shared list; the model does not capture this aliasing. No modelled caller uses the list after handing it over.
- Schemas.NewExecuteRequest: `mode` is a required argument here; in the request model it defaults to `"step"` when omitted.
- The `mode` of `/api/execute` picks `execute` or `execute_with_trace`. Both give a `MarsResult`, which `ExecuteCode` takes as a parameter.

## Findings

| source | as written | input that shows it | evidently intended | confidence | as-written member | corrected member |
|---|---|---|---|---|---|---|
| backend/app/services/pipeline_simulator.py:305-311 | the stage block is taken to start at `1 + num_instructions + 2` | a program of 101 instructions: the injector writes only the first 100 words, so every stage, hazard, metrics and history word is read one word too far on | the offset follows the buffer actually injected, `1 + min(num_instructions, 100) + 2` | not executed | PipelineSimulator.StagesOffsetAsWrittenOverruns | PipelineSimulator.StagesOffsetFollowsBuffer |
| backend/app/services/mips_analyzer.py:283 | the counters are taken to start at `1 + num_instructions` | a program of 101 instructions: the buffer holds 100 words, so every counter and usage entry is read one word too far on | the offset follows the buffer actually injected, `1 + min(num_instructions, 100)` | not executed | MipsAnalyzer.ResultsOffsetAsWrittenOverruns | MipsAnalyzer.ResultsOffsetFollowsBuffer |
