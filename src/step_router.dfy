/**
 * The step endpoints: a recorded step is turned into its response, with the
 * 32 registers in display order and each value also given as an unsigned
 * 32-bit word; the navigation endpoints refuse to act when nothing is loaded.
 * The executor a session uses is a parameter: the per-session table is not
 * modelled.
 */
module StepRouter {
  import opened Wrappers
  import opened Text
  import opened Dict
  import opened Schemas
  import opened StepExecution

  /** `REGISTER_ORDER`: the display order of the registers. */
  const RegisterOrder: seq<string> := [
    "$zero", "$at", "$v0", "$v1", "$a0", "$a1", "$a2", "$a3",
    "$t0", "$t1", "$t2", "$t3", "$t4", "$t5", "$t6", "$t7",
    "$s0", "$s1", "$s2", "$s3", "$s4", "$s5", "$s6", "$s7",
    "$t8", "$t9", "$k0", "$k1", "$gp", "$sp", "$fp", "$ra"
  ]

  /** The display order is register-number order: the executor's own table. */
  lemma RegisterOrderIsNumberOrder()
    ensures RegisterOrder == RegisterNames == MipsRegisters
  {
  }

  /** The `max_steps` a load may ask for, and the one it gets when it asks for none. */
  const MinSteps: int := 1
  const MaxSteps: int := 1000
  const DefaultMaxSteps: int := 200

  // ---------------------------------------------------------------------
  // Register values
  // ---------------------------------------------------------------------

  const WordModulus: int := 0x1_0000_0000

  /**
   * `value & 0xFFFFFFFF`: on Python's unbounded two's-complement integers
   * this is a 32-bit word congruent to the value. A non-negative word reads
   * as itself and a negative signed word as itself plus 2^32.
   */
  function Unsigned(value: int): (r: int)
    ensures 0 <= r < WordModulus
    ensures (r - value) % WordModulus == 0
    ensures 0 <= value < WordModulus ==> r == value
    ensures -0x8000_0000 <= value < 0 ==> r == value + WordModulus
  {
    value % WordModulus
  }

  datatype RegisterValueResponse = RegisterValueResponse(name: string, value: int, valueHex: string, valueUnsigned: int)

  /** A register as displayed: a register the step does not record reads as 0. */
  function RegisterResponseOf(name: string, registers: Registers): RegisterValueResponse {
    var value := GetOr(registers, name, 0);
    var unsigned := Unsigned(value);
    RegisterValueResponse(name, value, "0x" + FormatHex(unsigned, 8, true), unsigned)
  }

  /** The hex spelling is ten characters and reads back as the unsigned value. */
  lemma RegisterHexReads(name: string, registers: Registers)
    ensures var r := RegisterResponseOf(name, registers);
      |r.valueHex| == 10 && ParseHex(r.valueHex) == Some(r.valueUnsigned)
      && r.valueUnsigned == Unsigned(r.value)
      && (Get(registers, name).None? ==> r.value == 0 && r.valueUnsigned == 0)
  {
    var r := RegisterResponseOf(name, registers);
    assert Pow16(8) == WordModulus by {
      assert Pow16(4) == 65536;
    }
    FormatHexLength(r.valueUnsigned, 8, true);
    ParseHexFormatted(r.valueUnsigned, 8, true, true);
  }

  datatype StepResponse = StepResponse(
    stepNumber: nat, pc: nat, pcHex: string, instruction: string, instructionHex: string,
    registers: seq<RegisterValueResponse>, changedRegisters: seq<string>, description: string, isComplete: bool)

  /** The 32 registers of a step, in display order. */
  method ConvertRegisters(registers: Registers) returns (r: seq<RegisterValueResponse>)
    ensures |r| == |RegisterOrder| == 32
    ensures forall i :: 0 <= i < 32 ==> r[i] == RegisterResponseOf(RegisterOrder[i], registers)
  {
    r := [];
    for i := 0 to |RegisterOrder|
      invariant |r| == i
      invariant forall k :: 0 <= k < i ==> r[k] == RegisterResponseOf(RegisterOrder[k], registers)
    {
      r := r + [RegisterResponseOf(RegisterOrder[i], registers)];
    }
  }

  /** A response shows a step: the step's own fields, its registers in display order. */
  predicate Shows(r: StepResponse, step: ExecutionStep) {
    && r.stepNumber == step.stepNumber && r.pc == step.pc && r.pcHex == step.PcHex()
    && r.instruction == step.instruction && r.instructionHex == step.instructionHex
    && r.changedRegisters == step.changedRegisters && r.description == step.Description()
    && r.isComplete == step.isComplete
    && |r.registers| == 32
    && forall i :: 0 <= i < 32 ==> r.registers[i] == RegisterResponseOf(RegisterOrder[i], step.registers)
  }

  /** `_convert_step_to_response`. */
  method ConvertStep(step: ExecutionStep) returns (r: StepResponse)
    ensures Shows(r, step)
  {
    var registers := ConvertRegisters(step.registers);
    r := StepResponse(
      step.stepNumber, step.pc, step.PcHex(), step.instruction, step.instructionHex,
      registers, step.changedRegisters, step.Description(), step.isComplete);
  }

  // ---------------------------------------------------------------------
  // Endpoint responses
  // ---------------------------------------------------------------------

  datatype StepExecutionResponse = StepExecutionResponse(
    success: bool, currentStep: Option<StepResponse>, totalSteps: int, currentStepNumber: int,
    isComplete: bool, error: Option<string>)

  function Failure(message: string): StepExecutionResponse {
    StepExecutionResponse(false, None, 0, 0, false, Some(message))
  }

  const NotLoaded: string := "No program loaded. Use /load first."

  /** The executor has a loaded program to navigate. */
  predicate Loaded(executor: StepExecutor)
    reads executor, executor.state
  {
    executor.state != null && executor.state.isLoaded
  }

  /**
   * `_build_response`: the step on show and the position in the trace, or
   * no step and zero counts when the executor holds no state.
   */
  method BuildResponse(executor: StepExecutor, success: bool, error: Option<string>) returns (r: StepExecutionResponse)
    ensures r.success == success && r.error == error && r.isComplete == executor.IsComplete()
    ensures r.currentStep.None? <==> executor.GetCurrentStep().None?
    ensures executor.GetCurrentStep().Some? ==> Shows(r.currentStep.value, executor.GetCurrentStep().value)
    ensures executor.state == null ==> r.totalSteps == 0 && r.currentStepNumber == 0
    ensures executor.state != null ==> r.totalSteps == executor.state.totalSteps && r.currentStepNumber == executor.state.currentStep
  {
    var current := executor.GetCurrentStep();
    var step: Option<StepResponse> := None;
    if current.Some? {
      var converted := ConvertStep(current.value);
      step := Some(converted);
    }
    var total := if executor.state != null then executor.state.totalSteps else 0;
    var number := if executor.state != null then executor.state.currentStep else 0;
    r := StepExecutionResponse(success, step, total, number, executor.IsComplete(), error);
  }

  /**
   * `POST /api/step/load`: blank code is refused; otherwise the session gets
   * a fresh executor that loads the program, and the response reports the
   * load's error or the first step. The MARS runs are inputs, as for
   * `LoadProgram`.
   */
  method Load(code: string, maxSteps: int, instructions: seq<Instruction>, outcomes: seq<StepOutcome>)
    returns (r: StepExecutionResponse, executor: StepExecutor?)
    requires |code| >= 1 && MinSteps <= maxSteps <= MaxSteps
    requires |outcomes| >= StepBound(|instructions|, maxSteps)
    ensures IsBlank(code) ==> r == Failure("Code cannot be empty") && executor == null
    ensures !IsBlank(code) ==> executor != null && fresh(executor) && executor.Valid()
    ensures !IsBlank(code) && |instructions| == 0 ==> r == Failure("No executable instructions found")
    ensures !IsBlank(code) && |instructions| > 0 ==>
      r.success && r.error.None? && r.currentStepNumber == 0 && executor != null && executor.state != null
      && executor.state.steps == LoadedSteps(instructions, outcomes, maxSteps) && r.totalSteps == |executor.state.steps|
  {
    if IsBlank(code) {
      return Failure("Code cannot be empty"), null;
    }
    executor := new StepExecutor();
    var state := executor.LoadProgram(code, maxSteps, instructions, outcomes);
    if state.error.Some? {
      return Failure(state.error.value), executor;
    }
    if !state.isLoaded {
      return Failure("Failed to load program"), executor;
    }
    r := BuildResponse(executor, true, None);
  }

  /** The navigation endpoints. */
  datatype Move = Forward | Backward | Restart | Goto(stepNumber: nat)

  /** Where a move leaves the step index in a trace of `count` steps. */
  function Target(move: Move, current: nat, count: nat): nat
    requires count > 0
  {
    match move
    case Forward => if current < count - 1 then current + 1 else current
    case Backward => if current > 0 then current - 1 else 0
    case Restart => 0
    case Goto(n) => Clamp(n, count)
  }

  /** Every move lands inside the trace, and only a forward move can reach the end. */
  lemma TargetInTrace(move: Move, current: nat, count: nat)
    requires count > 0 && current < count
    ensures Target(move, current, count) < count
    ensures move.Forward? ==> Target(move, current, count) >= current
    ensures move.Backward? ==> Target(move, current, count) <= current
    ensures move.Forward? && current == count - 1 ==> Target(move, current, count) == current
    ensures move.Goto? && move.stepNumber < count ==> Target(move, current, count) == move.stepNumber
  {
  }

  /**
   * `POST /api/step/forward`, `/backward`, `/reset` and `/goto`: nothing is
   * done unless a program is loaded; then the executor moves and the
   * response shows where it landed.
   */
  method Navigate(executor: StepExecutor, move: Move) returns (r: StepExecutionResponse)
    requires executor.Valid()
    modifies executor.state
    ensures executor.Valid()
    ensures !Loaded(executor) ==> r == Failure(NotLoaded)
    ensures executor.state != null ==> executor.state.steps == old(executor.state.steps)
    ensures !old(Loaded(executor)) ==> executor.state != null ==> unchanged(executor.state)
    ensures Loaded(executor) ==>
      r.success && r.error.None? && r.totalSteps == executor.state.totalSteps
      && r.currentStepNumber == executor.state.currentStep && r.isComplete == executor.IsComplete()
    ensures Loaded(executor) && executor.HasSteps() ==>
      executor.state.currentStep == Target(move, old(executor.state.currentStep), |executor.state.steps|)
      && r.currentStep.Some? && Shows(r.currentStep.value, executor.state.steps[executor.state.currentStep])
  {
    if !Loaded(executor) {
      return Failure(NotLoaded);
    }
    match move {
      case Forward => var _ := executor.StepForward();
      case Backward => var _ := executor.StepBackward();
      case Restart => var _ := executor.Reset();
      case Goto(n) => var _ := executor.GotoStep(n);
    }
    r := BuildResponse(executor, true, None);
  }

  /** `GET /api/step/state`: the same guard, and no move. */
  method CurrentState(executor: StepExecutor) returns (r: StepExecutionResponse)
    requires executor.Valid()
    ensures !Loaded(executor) ==> r == Failure(NotLoaded)
    ensures Loaded(executor) ==>
      r.success && r.totalSteps == executor.state.totalSteps && r.currentStepNumber == executor.state.currentStep
      && r.error.None? && r.isComplete == executor.IsComplete()
      && (r.currentStep.Some? <==> executor.HasSteps())
    ensures Loaded(executor) && executor.GetCurrentStep().Some? ==>
      Shows(r.currentStep.value, executor.GetCurrentStep().value)
  {
    if !Loaded(executor) {
      return Failure(NotLoaded);
    }
    r := BuildResponse(executor, true, None);
  }

  datatype AllStepsResponse = AllStepsResponse(success: bool, steps: seq<StepResponse>, totalSteps: int, error: Option<string>)

  /** `GET /api/step/all`: every recorded step converted, in order, and their count. */
  method AllStepResponses(executor: StepExecutor) returns (r: AllStepsResponse)
    ensures !Loaded(executor) ==> r == AllStepsResponse(false, [], 0, Some(NotLoaded))
    ensures Loaded(executor) ==>
      r.success && r.error.None? && r.totalSteps == |r.steps| == |executor.state.steps|
      && forall k :: 0 <= k < |r.steps| ==> Shows(r.steps[k], executor.state.steps[k])
  {
    if !Loaded(executor) {
      return AllStepsResponse(false, [], 0, Some(NotLoaded));
    }
    var steps := executor.AllSteps();
    var converted: seq<StepResponse> := [];
    for i := 0 to |steps|
      invariant |converted| == i
      invariant forall k :: 0 <= k < i ==> Shows(converted[k], steps[k])
    {
      var c := ConvertStep(steps[i]);
      converted := converted + [c];
    }
    r := AllStepsResponse(true, converted, |converted|, None);
  }
}
