/**
 * The execution endpoints: a finished MARS run becomes a one-state trace
 * (the final registers, the program's own output with the register dump and
 * MARS messages filtered out, and the analysis the MIPS analyser reported),
 * which the replay session then serves. Running MARS and the analyser are
 * inputs: their results are parameters.
 */
module ExecutionRouter {
  import opened Wrappers
  import opened Text
  import opened Dict
  import opened Schemas
  import opened MarsExecutor
  import OutputParser
  import TraceParser
  import opened StateManagement

  // ---------------------------------------------------------------------
  // Program output: `^[\$]?\w+\s+-?\d+\s*$` and the MARS messages
  // ---------------------------------------------------------------------

  /**
   * A stripped line the register-dump pattern matches: an optional `$`, a
   * word, spaces, an optionally negative integer, and nothing after it but
   * spaces. Each run of the pattern can only end where the next part starts,
   * so matching needs no backtracking: every run takes its longest extent.
   */
  predicate IsRegisterDumpLine(s: string) {
    var p := if |s| > 0 && s[0] == '$' then 1 else 0;
    var a := WordsFrom(s, p);
    var b := SpacesFrom(s, a);
    var c := if b < |s| && s[b] == '-' then b + 1 else b;
    var d := DigitsFrom(s, c);
    a > p && b > a && d > c && SpacesFrom(s, d) == |s|
  }

  /** A line of standard output that belongs to the program: not blank, not a register line, not a MARS message. */
  predicate IsProgramLine(line: string) {
    var stripped := Strip(line);
    stripped != "" && !IsRegisterDumpLine(stripped)
    && !StartsWith(stripped, "MARS") && !StartsWith(stripped, "Error")
  }

  /** The program's lines, unstripped, in their order. */
  function ProgramLines(lines: seq<string>): (r: seq<string>)
    ensures |r| <= |lines|
  {
    if |lines| == 0 then []
    else ProgramLines(lines[..|lines| - 1]) + (if IsProgramLine(lines[|lines| - 1]) then [lines[|lines| - 1]] else [])
  }

  /** What `_extract_program_output` returns. */
  function ProgramOutput(stdout: string): string {
    Join(ProgramLines(StrippedLines(stdout)), "\n")
  }

  /** `_extract_program_output`. */
  method ExtractProgramOutput(stdout: string) returns (output: string)
    ensures output == ProgramOutput(stdout)
  {
    var lines := StrippedLines(stdout);
    var kept: seq<string> := [];
    for i := 0 to |lines|
      invariant kept == ProgramLines(lines[..i])
    {
      assert lines[..i + 1][..i] == lines[..i];
      if IsProgramLine(lines[i]) {
        kept := kept + [lines[i]];
      }
    }
    assert lines[..|lines|] == lines;
    output := Join(kept, "\n");
  }

  /** The filter keeps order: it distributes over concatenation. */
  lemma {:induction false} ProgramLinesConcat(a: seq<string>, b: seq<string>)
    ensures ProgramLines(a + b) == ProgramLines(a) + ProgramLines(b)
    decreases |b|
  {
    if |b| > 0 {
      var n := |b| - 1;
      var front, last := b[..n], b[n];
      assert (a + b)[..|a + b| - 1] == a + front;
      assert (a + b)[|a + b| - 1] == last;
      ProgramLinesConcat(a, front);
      if IsProgramLine(last) {
        assert ProgramLines(b) == ProgramLines(front) + [last];
        assert ProgramLines(a + b) == ProgramLines(a + front) + [last];
      } else {
        assert ProgramLines(b) == ProgramLines(front);
        assert ProgramLines(a + b) == ProgramLines(a + front);
      }
    } else {
      assert a + b == a;
    }
  }

  /** The kept lines are exactly the program's lines, as written. */
  lemma {:induction false} ProgramLinesMembers(lines: seq<string>, x: string)
    ensures x in ProgramLines(lines) <==> x in lines && IsProgramLine(x)
    decreases |lines|
  {
    if |lines| > 0 {
      var n := |lines| - 1;
      var front, last := lines[..n], lines[n];
      ProgramLinesMembers(front, x);
      assert lines == front + [last];
      if IsProgramLine(last) {
        assert ProgramLines(lines) == ProgramLines(front) + [last];
      } else {
        assert ProgramLines(lines) == ProgramLines(front);
      }
    }
  }

  /** No digit, no register line: output that prints no number is only filtered for being blank or a MARS message. */
  lemma TextWithoutDigitsKept(line: string)
    requires forall k :: 0 <= k < |line| ==> !IsDigit(line[k])
    ensures IsProgramLine(line) <==>
      Strip(line) != "" && !StartsWith(Strip(line), "MARS") && !StartsWith(Strip(line), "Error")
  {
    var l := LStrip(line);
    var s := RStrip(l);
    assert s == Strip(line);
    forall k | 0 <= k < |s|
      ensures !IsDigit(s[k])
    {
      assert s[k] == l[k] == line[|line| - |l| + k];
    }
    var p := if |s| > 0 && s[0] == '$' then 1 else 0;
    var a := WordsFrom(s, p);
    var b := SpacesFrom(s, a);
    var c := if b < |s| && s[b] == '-' then b + 1 else b;
    if c < |s| {
      assert !IsDigit(s[c]);
    }
    assert DigitsFrom(s, c) == c;
  }

  /** A line the register dump writes (`$name`, a tab, the value) is never taken for program output. */
  lemma RegisterLineDropped(name: string, value: int)
    requires TraceParser.RegisterName(name)
    ensures !IsProgramLine(TraceParser.RegisterLine(name, value))
  {
    var line := TraceParser.RegisterLine(name, value);
    var d := IntToDecimal(value);
    DecimalShape(value);
    assert line == name + "\t" + d;
    RegisterLineStripped(name, d);
    var a := |name|;
    var c := if d[0] == '-' then a + 2 else a + 1;
    forall k | 1 <= k < a
      ensures IsWordChar(line[k])
    {
      assert line[k] == name[k];
    }
    forall k | c <= k < |line|
      ensures IsDigit(line[k])
    {
      assert line[k] == d[k - a - 1];
    }
    DumpLineLayout(line, a, c);
  }

  /** `$`, a word up to `a`, a tab, an optional `-` and digits from `c` to the end: the register pattern matches. */
  lemma DumpLineLayout(s: string, a: nat, c: nat)
    requires 1 < a && c < |s| && (c == a + 1 || (c == a + 2 && s[a + 1] == '-'))
    requires s[0] == '$' && s[a] == '\t'
    requires forall k :: 1 <= k < a ==> IsWordChar(s[k])
    requires forall k :: c <= k < |s| ==> IsDigit(s[k])
    ensures IsRegisterDumpLine(s)
  {
    WordsFromExact(s, 1, a);
    SpacesFromExact(s, a, a + 1);
    DigitsFromExact(s, c, |s|);
  }

  /** A register line has no surrounding blanks, so stripping it changes nothing. */
  lemma RegisterLineStripped(name: string, d: string)
    requires TraceParser.RegisterName(name) && |d| >= 1 && IsDigit(d[|d| - 1])
    ensures Strip(name + "\t" + d) == name + "\t" + d
  {
    var line := name + "\t" + d;
    assert line[0] == '$' && line[|line| - 1] == d[|d| - 1];
    StripIdentity(line);
  }

  // ---------------------------------------------------------------------
  // The execution state of a finished run
  // ---------------------------------------------------------------------

  const FinalInstruction: string := "Program executed - showing final state"

  /** The program counter shown: `$pc` when the dump has a non-zero one, the start of `.text` otherwise. */
  function ShownPc(registers: Registers): (pc: int)
    ensures Get(registers, "$pc").Some? && Get(registers, "$pc").value != 0 ==> pc == Get(registers, "$pc").value
    ensures Get(registers, "$pc").None? || Get(registers, "$pc").value == 0 ==> pc == TraceParser.TextStart
  {
    var pc := GetOr(registers, "$pc", TraceParser.TextStart);
    if pc == 0 then TraceParser.TextStart else pc
  }

  /** `InstructionAnalysis(analysis_valid=False)`, shown when the analyser failed. */
  function AnalysisOrInvalid(analysis: Option<InstructionAnalysis>): InstructionAnalysis {
    if analysis.Some? then analysis.value else DefaultAnalysis
  }

  /**
   * `_build_execution_states`: nothing for a failed run; otherwise one
   * complete state with the dumped registers, every dumped register marked
   * changed, empty memory segments, an empty heap and the program output.
   * `analysis` is what the analyser returned, None when it raised. A
   * negative `$pc` fails the state's `pc >= 0` constraint.
   */
  method BuildExecutionStates(run: MarsResult, analysis: Option<InstructionAnalysis>) returns (r: Result<seq<ExecutionState>>)
    ensures !run.success ==> r == Ok([])
    ensures run.success ==> (r.Ok? <==> ShownPc(OutputParser.RegistersFrom(StrippedLines(run.stdout))) >= 0)
    ensures run.success && r.Ok? ==>
      var registers := OutputParser.RegistersFrom(StrippedLines(run.stdout));
      |r.value| == 1 && r.value[0].pc == ShownPc(registers) && r.value[0].isComplete
      && r.value[0].registers == TraceParser.CreateRegisterState(registers)
      && r.value[0].changedRegisters == Keys(registers)
      && r.value[0].currentInstruction == FinalInstruction
      && r.value[0].programOutput == ProgramOutput(run.stdout)
      && r.value[0].instructionAnalysis == Some(AnalysisOrInvalid(analysis))
      && r.value[0].heap == EmptyHeap
  {
    if !run.success {
      return Ok([]);
    }
    var registers := OutputParser.ParseRegisters(run.stdout);
    var output := ExtractProgramOutput(run.stdout);
    var memory := TraceParser.CreateMemoryState(Some([]), Some([]), Some([]), Some([]));
    var heap := TraceParser.CreateInitialHeapState();
    var pc := ShownPc(registers);
    var state := TraceParser.CreateExecutionState(
      registers, pc, FinalInstruction, Some(Keys(registers)), Some(memory), Some(heap),
      true, output, Some(AnalysisOrInvalid(analysis)));
    if state.Err? {
      return Err(state.message);
    }
    r := Ok([state.value]);
  }

  // ---------------------------------------------------------------------
  // Endpoints
  // ---------------------------------------------------------------------

  /** The body of `ExecuteResponse`, `StepResponse`, `ResetResponse` and `StateResponse`. */
  datatype ExecutionResponse = ExecutionResponse(success: bool, state: Option<ExecutionState>, error: Option<string>)

  function Failure(message: string): ExecutionResponse {
    ExecutionResponse(false, None, Some(message))
  }

  const NoTrace: string := "No program loaded. Call /api/execute first."
  const TimeoutMessage: string := "Execution timeout (>5s) - program may have infinite loop"

  /** `result.error or "Unknown execution error"`: an empty message counts as none. */
  function RunError(run: MarsResult): string {
    if run.error.Some? && run.error.value != "" then run.error.value else "Unknown execution error"
  }

  /**
   * `POST /api/execute`. `configured` says whether the MARS jar was found,
   * `run` is the result of running the code in the requested mode and
   * `analysis` what the analyser returned. A failed run is reported without
   * touching the session; a successful one replaces the session's trace and
   * shows its first state. Err is the validation error a negative `$pc` raises.
   */
  method ExecuteCode(manager: StateManager, code: string, configured: bool, run: MarsResult, analysis: Option<InstructionAnalysis>)
    returns (r: Result<ExecutionResponse>)
    requires manager.Valid()
    modifies manager
    ensures manager.Valid()
    ensures IsBlank(code) ==> r == Ok(Failure("MIPS code cannot be empty")) && unchanged(manager)
    ensures !IsBlank(code) && !configured ==> r == Ok(Failure("MARS simulator not configured")) && unchanged(manager)
    ensures !IsBlank(code) && configured && !run.success ==>
      unchanged(manager) && r == Ok(Failure(if run.timeout then TimeoutMessage else RunError(run)))
    ensures r.Ok? && r.value.success ==>
      !IsBlank(code) && configured && run.success && |manager.states| == 1 && manager.currentIndex == 0
      && r.value.state == Some(manager.states[0]) && r.value.state.value.programOutput == ProgramOutput(run.stdout)
    ensures r.Ok? && r.value.success ==>
      var registers := OutputParser.RegistersFrom(StrippedLines(run.stdout));
      manager.states[0].pc == ShownPc(registers) && manager.states[0].isComplete
      && manager.states[0].registers == TraceParser.CreateRegisterState(registers)
      && manager.states[0].changedRegisters == Keys(registers)
      && manager.states[0].currentInstruction == FinalInstruction
      && manager.states[0].instructionAnalysis == Some(AnalysisOrInvalid(analysis))
      && manager.states[0].heap == EmptyHeap
    ensures !IsBlank(code) && configured && run.success ==>
      (r.Ok? <==> ShownPc(OutputParser.RegistersFrom(StrippedLines(run.stdout))) >= 0)
      && (r.Ok? ==> r.value.success)
  {
    if IsBlank(code) {
      return Ok(Failure("MIPS code cannot be empty"));
    }
    if !configured {
      return Ok(Failure("MARS simulator not configured"));
    }
    if !run.success {
      if run.timeout {
        return Ok(Failure(TimeoutMessage));
      }
      return Ok(Failure(RunError(run)));
    }
    var states := BuildExecutionStates(run, analysis);
    if states.Err? {
      return Err(states.message);
    }
    if |states.value| == 0 {
      return Ok(Failure("Failed to parse execution results"));
    }
    var _ := manager.LoadTrace(states.value);
    var current := manager.CurrentState();
    r := Ok(ExecutionResponse(true, current, None));
  }

  /**
   * `POST /api/step`: with no trace, a failure; at the last state, that
   * state with "Execution already complete" and no move; otherwise one
   * state on.
   */
  method StepExecution(manager: StateManager) returns (r: ExecutionResponse)
    requires manager.Valid()
    modifies manager
    ensures manager.Valid() && manager.states == old(manager.states)
    ensures !manager.HasTrace() ==> r == Failure(NoTrace) && unchanged(manager)
    ensures old(manager.HasTrace() && manager.IsComplete()) ==>
      unchanged(manager) && r == ExecutionResponse(true, manager.CurrentState(), Some("Execution already complete"))
    ensures old(manager.HasTrace() && !manager.IsComplete()) ==>
      manager.currentIndex == old(manager.currentIndex) + 1
      && r == ExecutionResponse(true, Some(StepView(manager.states[manager.currentIndex],
           Differing(MipsRegisters, Some("$zero"), manager.states[old(manager.currentIndex)].registers,
                     manager.states[manager.currentIndex].registers))), None)
  {
    if !manager.HasTrace() {
      return Failure(NoTrace);
    }
    if manager.IsComplete() {
      return ExecutionResponse(true, manager.CurrentState(), Some("Execution already complete"));
    }
    var next := manager.Step();
    if next.None? {
      return Failure("Failed to advance execution state");
    }
    r := ExecutionResponse(true, next, None);
  }

  /** `POST /api/reset`: with no trace, a failure; otherwise back to the first state. */
  method ResetExecution(manager: StateManager) returns (r: ExecutionResponse)
    requires manager.Valid()
    modifies manager
    ensures manager.Valid() && manager.states == old(manager.states)
    ensures !manager.HasTrace() ==> r == Failure(NoTrace) && unchanged(manager)
    ensures manager.HasTrace() ==>
      manager.currentIndex == 0 && r == ExecutionResponse(true, Some(manager.states[0]), None)
  {
    if !manager.HasTrace() {
      return Failure(NoTrace);
    }
    var initial := manager.Reset();
    if initial.None? {
      return Failure("Failed to reset execution state");
    }
    r := ExecutionResponse(true, initial, None);
  }

  /** `GET /api/state`: with no trace, a failure; otherwise the state on show. */
  method GetState(manager: StateManager) returns (r: ExecutionResponse)
    requires manager.Valid()
    ensures !manager.HasTrace() ==> r == Failure(NoTrace)
    ensures manager.HasTrace() ==> r == ExecutionResponse(true, Some(manager.states[manager.currentIndex]), None)
  {
    if !manager.HasTrace() {
      return Failure(NoTrace);
    }
    var current := manager.CurrentState();
    if current.None? {
      return Failure("Failed to get execution state");
    }
    r := ExecutionResponse(true, current, None);
  }
}
