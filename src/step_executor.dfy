/**
 * Step-by-step execution: the trace recorded by running MARS with growing
 * step limits, the navigation over that trace, and the small disassembler
 * that labels each instruction word of the program.
 */
module StepExecution {
  import opened Wrappers
  import opened Text
  import opened Dict
  import opened Bits
  import opened Schemas
  import InstructionDecoder

  /** `REGISTER_NAMES`: the step executor's own copy of the 32 names, in register-number order. */
  const RegisterNames: seq<string> := MipsRegisters

  /**
   * One recorded step. The two display fields of the record, `pc_hex` and
   * `description`, are fixed by the other fields when the step is recorded;
   * here they are the members `PcHex` and `Description`.
   */
  datatype ExecutionStep = ExecutionStep(
    stepNumber: nat,
    pc: nat,
    instruction: string,
    instructionHex: string,
    registers: Registers,
    changedRegisters: seq<string>,
    isComplete: bool)
  {
    /** `pc_hex`: `0x` and the address in eight upper-case hex digits. */
    function PcHex(): string {
      "0x" + FormatHex(pc, 8, true)
    }

    /** `description`: the load message for step 0, `_generate_description` for every later step. */
    function Description(): string {
      if stepNumber == 0 then "Program loaded, ready to execute"
      else Describe(instruction, changedRegisters, registers)
    }
  }

  // ---------------------------------------------------------------------
  // Registers
  // ---------------------------------------------------------------------

  /** `_reg_name`: the name of registers 0..31, `$n` for any other number. */
  function RegName(n: int): (r: string)
    ensures 0 <= n < 32 ==> r == RegisterNames[n]
    ensures !(0 <= n < 32) ==> r == "$" + IntToDecimal(n)
  {
    if 0 <= n < 32 then RegisterNames[n] else "$" + IntToDecimal(n)
  }

  /** The assembler reads back the name the disassembler prints for registers 0..31. */
  lemma RegNameNumber(n: nat)
    requires n < 32
    ensures InstructionDecoder.RegisterNumber(RegName(n)) == n
  {
    InstructionDecoder.RegisterNumbers(n);
  }

  const StackPointerStart: int := 0x7FFFEFFC
  const GlobalPointerStart: int := 0x10008000

  /**
   * `_get_initial_registers`: every register in `REGISTER_NAMES` order at 0,
   * except `$sp` and `$gp` at their MARS defaults (the dict the comprehension
   * and the two assignments leave behind).
   */
  function InitialRegisters(): Registers {
    var zeros := MapNames(RegisterNames, _ => 0);
    Put(Put(zeros, "$sp", StackPointerStart), "$gp", GlobalPointerStart)
  }

  /** The initial register file names every register once, in table order. */
  lemma InitialRegistersKeys()
    ensures Keys(InitialRegisters()) == RegisterNames && DistinctKeys(InitialRegisters())
  {
    var zeros := MapNames(RegisterNames, _ => 0);
    MipsRegistersDistinct();
    assert "$sp" in Keys(zeros) && "$gp" in Keys(zeros);
    PutKeepsDistinct(zeros, "$sp", StackPointerStart);
    PutKeepsDistinct(Put(zeros, "$sp", StackPointerStart), "$gp", GlobalPointerStart);
  }

  /** The initial register file reads `$sp` and `$gp` at their defaults and every other name as 0. */
  lemma InitialRegisterValues(name: string)
    ensures GetOr(InitialRegisters(), name, 0) ==
            if name == "$sp" then StackPointerStart else if name == "$gp" then GlobalPointerStart else 0
  {
    var zeros := MapNames(RegisterNames, _ => 0);
    GetPut(Put(zeros, "$sp", StackPointerStart), "$gp", GlobalPointerStart, name);
    GetPut(zeros, "$sp", StackPointerStart, name);
    if name != "$sp" && name != "$gp" {
      ZeroRegisterReadsZero(zeros, name);
    }
  }

  /** Every value stored in the zeroed register file reads 0. */
  lemma ZeroRegisterReadsZero(zeros: Registers, name: string)
    requires forall i :: 0 <= i < |zeros| ==> zeros[i].1 == 0
    ensures GetOr(zeros, name, 0) == 0
  {
    var g := Get(zeros, name);
    if g.Some? {
      var i :| 0 <= i < |zeros| && zeros[i] == (name, g.value);
    }
  }

  /**
   * `_find_changed_registers`: the registers, in `REGISTER_NAMES` order and
   * `$zero` included, whose values differ; a missing register reads 0.
   */
  method FindChangedRegisters(prev: Registers, curr: Registers) returns (changed: seq<string>)
    ensures changed == Differing(RegisterNames, None, prev, curr)
    ensures forall x :: x in changed <==> x in RegisterNames && ValueChanged(prev, curr, x)
  {
    changed := CollectChanged(RegisterNames, None, prev, curr);
  }

  // ---------------------------------------------------------------------
  // Disassembler
  // ---------------------------------------------------------------------

  /** `imm - 0x10000` when bit 15 of the 16-bit field is set. */
  function SignExtend16(imm: nat): (r: int)
    ensures imm < 65536 ==> -32768 <= r < 32768 && r % 65536 == imm
  {
    if imm >= 32768 then imm - 65536 else imm
  }

  /** Masking a 16-bit signed value and sign-extending it again gives it back. */
  lemma SignExtendLow(v: int)
    requires -32768 <= v < 32768
    ensures SignExtend16(Low(v, 16)) == v
  {
    assert Pow2(16) == 65536 by { Pow2Values(); }
    if v < 0 {
      ModUnique(-1, v + 65536, 65536);
    }
  }

  /** The names `_decode_instruction_simple` gives R-type function codes. */
  function FunctName(funct: nat): Option<string> {
    match funct
    case 0x20 => Some("add") case 0x21 => Some("addu") case 0x22 => Some("sub") case 0x23 => Some("subu")
    case 0x24 => Some("and") case 0x25 => Some("or") case 0x26 => Some("xor") case 0x27 => Some("nor")
    case 0x2A => Some("slt") case 0x2B => Some("sltu") case 0x00 => Some("sll") case 0x02 => Some("srl")
    case 0x03 => Some("sra") case 0x08 => Some("jr") case 0x09 => Some("jalr") case 0x0C => Some("syscall")
    case _ => None
  }

  /** The names `_decode_instruction_simple` gives I-type opcodes. */
  function OpcodeName(opcode: nat): Option<string> {
    match opcode
    case 0x08 => Some("addi") case 0x09 => Some("addiu") case 0x0C => Some("andi") case 0x0D => Some("ori")
    case 0x0A => Some("slti") case 0x0B => Some("sltiu") case 0x0F => Some("lui") case 0x23 => Some("lw")
    case 0x21 => Some("lh") case 0x20 => Some("lb") case 0x25 => Some("lhu") case 0x24 => Some("lbu")
    case 0x2B => Some("sw") case 0x29 => Some("sh") case 0x28 => Some("sb") case 0x04 => Some("beq")
    case 0x05 => Some("bne") case 0x06 => Some("blez") case 0x07 => Some("bgtz")
    case _ => None
  }

  predicate IsShiftFunct(funct: nat) { funct == 0x00 || funct == 0x02 || funct == 0x03 }

  predicate IsMemoryOpcode(opcode: nat) {
    opcode == 0x23 || opcode == 0x21 || opcode == 0x20 || opcode == 0x25
    || opcode == 0x24 || opcode == 0x2B || opcode == 0x29 || opcode == 0x28
  }

  /** `_decode_instruction_simple` on an R-type word (opcode 0): its fields, then their text. */
  function DisassembleRType(word: nat): string {
    RTypeText(Low(Shr(word, 21), 5), Low(Shr(word, 16), 5), Low(Shr(word, 11), 5), Low(Shr(word, 6), 5), Low(word, 6))
  }

  /** The text of an R-type instruction with the given fields. */
  function RTypeText(rs: nat, rt: nat, rd: nat, shamt: nat, funct: nat): string {
    var name := FunctName(funct).GetOr("r-type(0x" + FormatHex(funct, 2, true) + ")");
    if funct == 0x0C then "syscall"
    else if funct == 0x08 then "jr " + RegName(rs)
    else if IsShiftFunct(funct) then name + " " + RegName(rd) + ", " + RegName(rt) + ", " + NatToDecimal(shamt)
    else name + " " + RegName(rd) + ", " + RegName(rs) + ", " + RegName(rt)
  }

  /** `_decode_instruction_simple` on an I-type word (any opcode but 0, 2 and 3): its fields, then their text. */
  function DisassembleIType(word: nat, opcode: nat): string {
    ITypeText(opcode, Low(Shr(word, 21), 5), Low(Shr(word, 16), 5), SignExtend16(Low(word, 16)))
  }

  /** The text of an I-type instruction with the given fields, `imm` already sign-extended. */
  function ITypeText(opcode: nat, rs: nat, rt: nat, imm: int): string {
    var name := OpcodeName(opcode).GetOr("i-type(0x" + FormatHex(opcode, 2, true) + ")");
    if opcode == 0x0F then "lui " + RegName(rt) + ", " + IntToDecimal(Low(imm, 16))
    else if IsMemoryOpcode(opcode) then name + " " + RegName(rt) + ", " + IntToDecimal(imm) + "(" + RegName(rs) + ")"
    else if opcode == 0x04 || opcode == 0x05 then name + " " + RegName(rs) + ", " + RegName(rt) + ", " + IntToDecimal(imm)
    else if opcode == 0x06 || opcode == 0x07 then name + " " + RegName(rs) + ", " + IntToDecimal(imm)
    else name + " " + RegName(rt) + ", " + RegName(rs) + ", " + IntToDecimal(imm)
  }

  /** The byte address a J-type word jumps to, in the `0x%08X` spelling. */
  function JumpTarget(word: nat): string {
    "0x" + FormatHex(Shl(Low(word, 26), 2), 8, true)
  }

  /** `_decode_instruction_simple`: a display text for one instruction word. */
  function DisassembleSimple(word: nat): (r: string)
    ensures word == 0 ==> r == "nop"
  {
    if word == 0 then "nop"
    else
      var opcode := Low(Shr(word, 26), 6);
      if opcode == 0 then DisassembleRType(word)
      else if opcode == 2 then "j " + JumpTarget(word)
      else if opcode == 3 then "jal " + JumpTarget(word)
      else DisassembleIType(word, opcode)
  }

  /** A nonzero word whose opcode field is 0 is disassembled as an R-type word. */
  lemma DisassembleOpcodeZero(word: nat)
    requires word != 0 && Low(Shr(word, 26), 6) == 0
    ensures DisassembleSimple(word) == DisassembleRType(word)
  {
  }

  /**
   * Disassembling an assembled R-type word reads back the fields it was
   * built from; only the all-zero word (`sll $zero, $zero, 0`) prints as `nop`.
   */
  lemma DisassembleRTypeWord(rs: nat, rt: nat, rd: nat, shamt: nat, funct: nat)
    requires rs < 32 && rt < 32 && rd < 32 && shamt < 32 && funct < 64
    ensures DisassembleSimple(InstructionDecoder.RTypeWord(rs, rt, rd, shamt, funct)) ==
      if rs == 0 && rt == 0 && rd == 0 && shamt == 0 && funct == 0 then "nop" else RTypeText(rs, rt, rd, shamt, funct)
  {
    var w := InstructionDecoder.RTypeWord(rs, rt, rd, shamt, funct);
    InstructionDecoder.RTypeWordSum(rs, rt, rd, shamt, funct);
    if w != 0 {
      InstructionDecoder.RTypeWordFields(rs, rt, rd, shamt, funct);
      DisassembleOpcodeZero(w);
    }
  }

  /** A nonzero word whose opcode field is neither 0, 2 nor 3 is disassembled as an I-type word. */
  lemma DisassembleOpcodeOther(word: nat, opcode: nat)
    requires word != 0 && Low(Shr(word, 26), 6) == opcode && opcode != 0 && opcode != 2 && opcode != 3
    ensures DisassembleSimple(word) == DisassembleIType(word, opcode)
  {
  }

  /**
   * An I-type word built from a 16-bit signed immediate disassembles to the
   * text of its own fields, the immediate read back with its sign.
   */
  lemma DisassembleITypeWord(opcode: nat, rs: nat, rt: nat, imm: int)
    requires 0 < opcode < 64 && opcode != 2 && opcode != 3 && rs < 32 && rt < 32 && -32768 <= imm < 32768
    ensures DisassembleSimple(InstructionDecoder.ITypeWord(opcode, rs, rt, Low(imm, 16))) == ITypeText(opcode, rs, rt, imm)
  {
    var field := Low(imm, 16);
    assert field < 65536 by { Pow2Values(); }
    var w := InstructionDecoder.ITypeWord(opcode, rs, rt, field);
    InstructionDecoder.ITypeWordSum(opcode, rs, rt, field);
    InstructionDecoder.ITypeWordFields(opcode, rs, rt, field);
    SignExtendLow(imm);
    DisassembleOpcodeOther(w, opcode);
    assert DisassembleIType(w, opcode) == ITypeText(opcode, rs, rt, imm);
  }

  /** A jump word prints its 26-bit target as a byte address, four times the field. */
  lemma DisassembleJumpForm(opcode: nat, address: nat)
    requires (opcode == 2 || opcode == 3) && address < 67108864
    ensures DisassembleSimple(InstructionDecoder.JTypeWord(opcode, address)) ==
      (if opcode == 2 then "j " else "jal ") + "0x" + FormatHex(address * 4, 8, true)
  {
    var w := InstructionDecoder.JTypeWord(opcode, address);
    InstructionDecoder.JTypeWordFields(opcode, address);
    assert w != 0;
    assert Shl(Low(w, 26), 2) == address * 4 by { assert Pow2(2) == 4; }
  }

  // ---------------------------------------------------------------------
  // Descriptions
  // ---------------------------------------------------------------------

  /** One entry of a description: `reg=val (0x%08X of val & 0xFFFFFFFF)`. */
  function ChangeText(reg: string, regs: Registers): string {
    var val := GetOr(regs, reg, 0);
    reg + "=" + IntToDecimal(val) + " (0x" + FormatHex(Low(val, 32), 8, true) + ")"
  }

  /** One change text per changed register, in the order the registers changed. */
  function ChangeTexts(changed: seq<string>, regs: Registers): (r: seq<string>)
    ensures |r| == |changed|
    ensures forall k :: 0 <= k < |r| ==> r[k] == ChangeText(changed[k], regs)
  {
    if |changed| == 0 then [] else ChangeTexts(changed[..|changed| - 1], regs) + [ChangeText(changed[|changed| - 1], regs)]
  }

  /** `_generate_description`: "Executed: <instr>" when nothing changed, else the changes after an arrow. */
  function Describe(instruction: string, changed: seq<string>, regs: Registers): string {
    if |changed| == 0 then "Executed: " + instruction
    else instruction + " \U{2192} " + Join(ChangeTexts(changed, regs), ", ")
  }

  /** Without changes the text names the instruction executed; with changes it starts with the instruction and the arrow. */
  lemma DescribeShape(instruction: string, changed: seq<string>, regs: Registers)
    ensures |changed| == 0 ==> Describe(instruction, changed, regs) == "Executed: " + instruction
    ensures |changed| > 0 ==> StartsWith(Describe(instruction, changed, regs), instruction + " \U{2192} ")
  {
    if |changed| > 0 {
      var head := instruction + " \U{2192} ";
      var r := Describe(instruction, changed, regs);
      assert r[..|head|] == head;
    }
  }

  // ---------------------------------------------------------------------
  // Recording a run
  // ---------------------------------------------------------------------

  /** An entry of the instruction list: its address, its `0x`-hex word and its display text. */
  datatype Instruction = Instruction(pc: nat, hex: string, text: string)

  /** What one MARS run with a step limit reported: the register dump and whether it succeeded. */
  datatype StepOutcome = StepOutcome(registers: Registers, success: bool)

  const TextStart: nat := 0x00400000

  /** The step recorded before any instruction runs. */
  function InitialStep(): (s: ExecutionStep)
    ensures s.stepNumber == 0 && s.pc == TextStart && s.registers == InitialRegisters()
    ensures s.changedRegisters == [] && !s.isComplete
  {
    ExecutionStep(0, TextStart, "(Initial State)", "0x00000000", InitialRegisters(), [], false)
  }

  /** The record of step `k`, run after the instruction at `instr`, against the registers of step `k - 1`. */
  function RecordStep(k: nat, instr: Instruction, regs: Registers, changed: seq<string>): ExecutionStep {
    ExecutionStep(k, instr.pc, instr.text, instr.hex, regs, changed, false)
  }

  /** A program that ends with the exit service: a `syscall` executed with `$v0 == 10`. */
  predicate IsExitStep(text: string, regs: Registers) {
    Contains(Lower(text), "syscall") && GetOr(regs, "$v0", 0) == 10
  }

  /** The number of runs `load_program` may make: `min(count, maxSteps)`, or none when that is not positive. */
  function StepBound(count: nat, maxSteps: int): (r: nat)
    ensures r <= count && (maxSteps >= 0 ==> r <= maxSteps)
    ensures maxSteps >= count ==> r == count
    ensures 0 <= maxSteps <= count ==> r == maxSteps
  {
    if maxSteps <= 0 then 0 else if count < maxSteps then count else maxSteps
  }

  // ---------------------------------------------------------------------
  // Execution state and navigation
  // ---------------------------------------------------------------------

  class StepExecutionState {
    var code: string
    var steps: seq<ExecutionStep>
    var currentStep: nat
    var totalSteps: nat
    var isLoaded: bool
    var error: Option<string>

    constructor(code: string)
      ensures this.code == code && steps == [] && currentStep == 0 && totalSteps == 0
      ensures !isLoaded && error.None?
    {
      this.code := code;
      steps := [];
      currentStep := 0;
      totalSteps := 0;
      isLoaded := false;
      error := None;
    }
  }

  class StepExecutor {
    var state: StepExecutionState?

    /** The step on show lies in the recorded trace. */
    ghost predicate Valid()
      reads this, state
    {
      state != null ==> |state.steps| == 0 || state.currentStep < |state.steps|
    }

    constructor()
      ensures state == null && Valid()
    {
      state := null;
    }

    predicate HasSteps()
      reads this, state
    {
      state != null && |state.steps| > 0
    }

    /** `get_current_step`: the step on show, the last one if the index ran past the end. */
    function GetCurrentStep(): (r: Option<ExecutionStep>)
      reads this, state
      ensures r.None? <==> !HasSteps()
      ensures HasSteps() && state.currentStep < |state.steps| ==> r == Some(state.steps[state.currentStep])
    {
      if state == null || |state.steps| == 0 then None
      else if state.currentStep >= |state.steps| then Some(state.steps[|state.steps| - 1])
      else Some(state.steps[state.currentStep])
    }

    /** `step_forward`: one step on, staying at the last step. */
    method StepForward() returns (r: Option<ExecutionStep>)
      requires Valid()
      modifies state
      ensures Valid() && r == GetCurrentStep()
      ensures !HasSteps() ==> r.None? && (state != null ==> unchanged(state))
      ensures state != null ==> state.steps == old(state.steps) && state.totalSteps == old(state.totalSteps)
      ensures state != null ==> state.code == old(state.code) && state.isLoaded == old(state.isLoaded) && state.error == old(state.error)
      ensures HasSteps() ==>
                state.currentStep == if old(state.currentStep) < |state.steps| - 1 then old(state.currentStep) + 1 else old(state.currentStep)
    {
      if state == null || |state.steps| == 0 {
        return None;
      }
      if state.currentStep < |state.steps| - 1 {
        state.currentStep := state.currentStep + 1;
      }
      r := GetCurrentStep();
    }

    /** `step_backward`: one step back, staying at the first step. */
    method StepBackward() returns (r: Option<ExecutionStep>)
      requires Valid()
      modifies state
      ensures Valid() && r == GetCurrentStep()
      ensures !HasSteps() ==> r.None? && (state != null ==> unchanged(state))
      ensures state != null ==> state.steps == old(state.steps) && state.totalSteps == old(state.totalSteps)
      ensures state != null ==> state.code == old(state.code) && state.isLoaded == old(state.isLoaded) && state.error == old(state.error)
      ensures HasSteps() ==>
                state.currentStep == if old(state.currentStep) > 0 then old(state.currentStep) - 1 else 0
    {
      if state == null || |state.steps| == 0 {
        return None;
      }
      if state.currentStep > 0 {
        state.currentStep := state.currentStep - 1;
      }
      r := GetCurrentStep();
    }

    /** `reset`: back to the first step. */
    method Reset() returns (r: Option<ExecutionStep>)
      requires Valid()
      modifies state
      ensures Valid() && r == GetCurrentStep()
      ensures !HasSteps() ==> r.None? && (state != null ==> unchanged(state))
      ensures state != null ==> state.steps == old(state.steps) && state.totalSteps == old(state.totalSteps)
      ensures state != null ==> state.code == old(state.code) && state.isLoaded == old(state.isLoaded) && state.error == old(state.error)
      ensures HasSteps() ==> state.currentStep == 0 && r == Some(state.steps[0])
    {
      if state == null || |state.steps| == 0 {
        return None;
      }
      state.currentStep := 0;
      r := GetCurrentStep();
    }

    /** `goto_step`: jump to step `n`, clamped into the recorded trace. */
    method GotoStep(n: int) returns (r: Option<ExecutionStep>)
      requires Valid()
      modifies state
      ensures Valid() && r == GetCurrentStep()
      ensures !HasSteps() ==> r.None? && (state != null ==> unchanged(state))
      ensures state != null ==> state.steps == old(state.steps) && state.totalSteps == old(state.totalSteps)
      ensures state != null ==> state.code == old(state.code) && state.isLoaded == old(state.isLoaded) && state.error == old(state.error)
      ensures HasSteps() ==> state.currentStep == Clamp(n, |state.steps|)
    {
      if state == null || |state.steps| == 0 {
        return None;
      }
      var top := |state.steps| - 1;
      state.currentStep := if n < 0 then 0 else if n > top then top else n;
      r := GetCurrentStep();
    }

    /** `is_complete`: no steps, or the last step on show. */
    function IsComplete(): (r: bool)
      reads this, state
      ensures r <==> !HasSteps() || state.currentStep >= |state.steps| - 1
    {
      if state == null || |state.steps| == 0 then true else state.currentStep >= |state.steps| - 1
    }

    /** `get_all_steps`. */
    function AllSteps(): (r: seq<ExecutionStep>)
      reads this, state
      ensures state == null ==> r == []
      ensures state != null ==> r == state.steps
    {
      if state == null then [] else state.steps
    }

    /**
     * `load_program` once the instruction list is known: record the initial
     * step, then one step per successful MARS run with step limits 1, 2, ...,
     * at most `min(len(instructions), max_steps)` of them, stopping early after
     * a failed run or the exit `syscall`; the last step is marked complete and
     * navigation starts at step 0. `outcomes[k - 1]` is what the run with step
     * limit `k` reported.
     */
    method LoadProgram(code: string, maxSteps: int, instructions: seq<Instruction>, outcomes: seq<StepOutcome>)
      returns (loaded: StepExecutionState)
      requires |outcomes| >= StepBound(|instructions|, maxSteps)
      modifies this
      ensures fresh(loaded) && state == loaded && loaded.code == code && Valid()
      ensures |instructions| == 0 ==>
        loaded.error == Some("No executable instructions found") && loaded.steps == [] && !loaded.isLoaded
      ensures |instructions| > 0 ==> loaded.error.None? && loaded.isLoaded && loaded.currentStep == 0
      ensures |instructions| > 0 ==> loaded.steps == LoadedSteps(instructions, outcomes, maxSteps)
      ensures |instructions| > 0 ==> loaded.totalSteps == |loaded.steps|
    {
      loaded := new StepExecutionState(code);
      state := loaded;
      if |instructions| == 0 {
        loaded.error := Some("No executable instructions found");
        return;
      }
      var steps := RecordSteps(instructions, outcomes, maxSteps);
      loaded.steps := steps;
      loaded.totalSteps := |steps|;
      loaded.isLoaded := true;
      loaded.currentStep := 0;
    }
  }

  /**
   * The loop of `load_program`: the initial step, then one step per successful
   * run, stopping after a failed run or the exit `syscall`; the last step
   * recorded is then marked complete.
   */
  method RecordSteps(instructions: seq<Instruction>, outcomes: seq<StepOutcome>, maxSteps: int)
    returns (steps: seq<ExecutionStep>)
    requires |outcomes| >= StepBound(|instructions|, maxSteps)
    ensures steps == LoadedSteps(instructions, outcomes, maxSteps)
  {
    steps := [InitialStep()];
    var stepNum := 1;
    var limit := StepBound(|instructions|, maxSteps);
    var stop := false;
    while stepNum <= limit && !stop
      invariant 1 <= stepNum <= limit + 1
      invariant !stop ==> steps == Runs(RegisterNames, instructions, outcomes, stepNum - 1)
      invariant !stop ==> RunCount(instructions, outcomes, limit, 0) == RunCount(instructions, outcomes, limit, stepNum - 1)
      invariant stop ==> steps == LoadedSteps(instructions, outcomes, maxSteps)
      decreases limit + 1 - stepNum, !stop
    {
      steps, stop := RecordRun(steps, instructions, outcomes, limit, stepNum);
      stepNum := stepNum + 1;
    }
    if !stop {
      steps := MarkLast(steps);
    }
  }

  /**
   * One pass of the loop: run `stepNum` either failed (the recording ends),
   * or is recorded against the registers of the step before it, and ends the
   * recording when it was the exit `syscall`.
   */
  method RecordRun(steps: seq<ExecutionStep>, instructions: seq<Instruction>, outcomes: seq<StepOutcome>, limit: nat, stepNum: nat)
    returns (next: seq<ExecutionStep>, stop: bool)
    requires 1 <= stepNum <= limit <= |instructions| && limit <= |outcomes|
    requires steps == Runs(RegisterNames, instructions, outcomes, stepNum - 1)
    ensures !stop ==> next == Runs(RegisterNames, instructions, outcomes, stepNum)
    ensures !stop ==> RunCount(instructions, outcomes, limit, stepNum - 1) == RunCount(instructions, outcomes, limit, stepNum)
    ensures stop ==> next == MarkLast(Runs(RegisterNames, instructions, outcomes, RunCount(instructions, outcomes, limit, stepNum - 1)))
  {
    var outcome := outcomes[stepNum - 1];
    if !outcome.success {
      RunCountStops(instructions, outcomes, limit, stepNum - 1);
      return MarkLast(steps), true;
    }
    var prevRegs := steps[stepNum - 1].registers;
    var regs := outcome.registers;
    var changed := FindChangedRegisters(prevRegs, regs);
    var instr := instructions[stepNum - 1];
    var step := RecordStep(stepNum, instr, regs, changed);
    RunsNext(RegisterNames, instructions, outcomes, stepNum - 1);
    RunCountNext(instructions, outcomes, limit, stepNum - 1);
    next := steps + [step];
    stop := IsExitStep(instr.text, regs);
    if stop {
      next := MarkLast(next);
    }
  }

  /** The registers step `k` shows: the initial file for step 0, what run `k` reported for every later step. */
  function StepRegisters(outcomes: seq<StepOutcome>, k: nat): Registers
    requires k <= |outcomes|
  {
    if k == 0 then InitialRegisters() else outcomes[k - 1].registers
  }

  /**
   * Step `k` of a trace: the initial step, or the record of instruction `k`
   * with the registers run `k` reported and the names among `names` whose
   * values differ from those step `k - 1` shows.
   */
  function TraceStep(names: seq<string>, instructions: seq<Instruction>, outcomes: seq<StepOutcome>, k: nat): ExecutionStep
    requires k <= |instructions| && k <= |outcomes|
  {
    if k == 0 then InitialStep()
    else
      var regs := outcomes[k - 1].registers;
      RecordStep(k, instructions[k - 1], regs, Differing(names, None, StepRegisters(outcomes, k - 1), regs))
  }

  /**
   * The steps recorded for runs 1..n after the initial step, none of them yet
   * marked complete; each run is compared with the step recorded before it.
   */
  function Runs(names: seq<string>, instructions: seq<Instruction>, outcomes: seq<StepOutcome>, n: nat): (r: seq<ExecutionStep>)
    requires n <= |instructions| && n <= |outcomes|
    ensures |r| == n + 1
  {
    if n == 0 then [InitialStep()]
    else
      var prev := Runs(names, instructions, outcomes, n - 1);
      prev + [RecordStep(n, instructions[n - 1], outcomes[n - 1].registers,
                         Differing(names, None, prev[n - 1].registers, outcomes[n - 1].registers))]
  }

  lemma RunsNext(names: seq<string>, instructions: seq<Instruction>, outcomes: seq<StepOutcome>, n: nat)
    requires n < |instructions| && n < |outcomes|
    ensures var prev := Runs(names, instructions, outcomes, n);
      Runs(names, instructions, outcomes, n + 1) ==
        prev + [RecordStep(n + 1, instructions[n], outcomes[n].registers,
                           Differing(names, None, prev[n].registers, outcomes[n].registers))]
  {
  }

  /** Step `k` of the runs is `TraceStep` of run `k`: later runs never rewrite a recorded step. */
  lemma {:induction false} RunsAt(names: seq<string>, instructions: seq<Instruction>, outcomes: seq<StepOutcome>, n: nat, k: nat)
    requires k <= n <= |instructions| && n <= |outcomes|
    ensures Runs(names, instructions, outcomes, n)[k] == TraceStep(names, instructions, outcomes, k)
  {
    if k < n {
      RunsAt(names, instructions, outcomes, n - 1, k);
      RunsKeep(names, instructions, outcomes, n, k);
    } else if 0 < n {
      RunsAt(names, instructions, outcomes, n - 1, n - 1);
      RunsLast(names, instructions, outcomes, n);
    } else {
      RunsFirst(names, instructions, outcomes);
    }
  }

  lemma RunsFirst(names: seq<string>, instructions: seq<Instruction>, outcomes: seq<StepOutcome>)
    ensures Runs(names, instructions, outcomes, 0)[0] == TraceStep(names, instructions, outcomes, 0)
  {
  }

  lemma RunsKeep(names: seq<string>, instructions: seq<Instruction>, outcomes: seq<StepOutcome>, n: nat, k: nat)
    requires k < n <= |instructions| && n <= |outcomes|
    ensures Runs(names, instructions, outcomes, n)[k] == Runs(names, instructions, outcomes, n - 1)[k]
  {
    RunsNext(names, instructions, outcomes, n - 1);
  }

  lemma RunsLast(names: seq<string>, instructions: seq<Instruction>, outcomes: seq<StepOutcome>, n: nat)
    requires 0 < n <= |instructions| && n <= |outcomes|
    requires Runs(names, instructions, outcomes, n - 1)[n - 1] == TraceStep(names, instructions, outcomes, n - 1)
    ensures Runs(names, instructions, outcomes, n)[n] == TraceStep(names, instructions, outcomes, n)
  {
    TraceStepRegisters(names, instructions, outcomes, n - 1);
  }

  lemma TraceStepRegisters(names: seq<string>, instructions: seq<Instruction>, outcomes: seq<StepOutcome>, k: nat)
    requires k <= |instructions| && k <= |outcomes|
    ensures TraceStep(names, instructions, outcomes, k).registers == StepRegisters(outcomes, k)
  {
  }

  /** A failed run `n + 1` ends the recording after `n` runs. */
  lemma RunCountStops(instructions: seq<Instruction>, outcomes: seq<StepOutcome>, bound: nat, n: nat)
    requires bound <= |instructions| && bound <= |outcomes| && n < bound && !outcomes[n].success
    ensures RunCount(instructions, outcomes, bound, n) == n
  {
  }

  /** A successful run `n + 1` counts; recording goes on after it unless it was the exit `syscall`. */
  lemma RunCountNext(instructions: seq<Instruction>, outcomes: seq<StepOutcome>, bound: nat, n: nat)
    requires bound <= |instructions| && bound <= |outcomes| && n < bound && outcomes[n].success
    ensures RunCount(instructions, outcomes, bound, n) ==
      if IsExitStep(instructions[n].text, outcomes[n].registers) then n + 1
      else RunCount(instructions, outcomes, bound, n + 1)
  {
  }

  /**
   * The number of runs `load_program` makes when runs 1..n have succeeded
   * without the exit `syscall`: it stops at the bound, before a failed run,
   * or right after the exit `syscall`.
   */
  function RunCount(instructions: seq<Instruction>, outcomes: seq<StepOutcome>, bound: nat, n: nat): (r: nat)
    requires bound <= |instructions| && bound <= |outcomes| && n <= bound
    ensures n <= r <= bound
    decreases bound - n
  {
    if n == bound || !outcomes[n].success then n
    else if IsExitStep(instructions[n].text, outcomes[n].registers) then n + 1
    else RunCount(instructions, outcomes, bound, n + 1)
  }

  /** The trace with its last step marked complete and every other step unchanged. */
  function MarkLast(steps: seq<ExecutionStep>): (r: seq<ExecutionStep>)
    requires |steps| >= 1
    ensures |r| == |steps| && r[|r| - 1].isComplete
    ensures forall k :: 0 <= k < |steps| - 1 ==> r[k] == steps[k]
    ensures r[|r| - 1].(isComplete := false) == steps[|steps| - 1].(isComplete := false)
  {
    steps[|steps| - 1 := steps[|steps| - 1].(isComplete := true)]
  }

  /**
   * The trace `load_program` records: the runs up to the point where it
   * stopped, with the last step marked complete.
   */
  function LoadedSteps(instructions: seq<Instruction>, outcomes: seq<StepOutcome>, maxSteps: int): seq<ExecutionStep>
    requires |outcomes| >= StepBound(|instructions|, maxSteps)
  {
    var bound := StepBound(|instructions|, maxSteps);
    MarkLast(Runs(RegisterNames, instructions, outcomes, RunCount(instructions, outcomes, bound, 0)))
  }

  /** Run `k` (`k >= 1`) executed the exit `syscall`. */
  predicate IsExitRun(instructions: seq<Instruction>, outcomes: seq<StepOutcome>, k: nat) {
    1 <= k <= |instructions| && k <= |outcomes| && IsExitStep(instructions[k - 1].text, outcomes[k - 1].registers)
  }

  /**
   * The stopping rule of the loop, stated on its own: after runs 1..n, the
   * recording ends after run `c` when runs n+1..c all succeeded, none of them
   * but the last was the exit `syscall`, and `c` is the bound, or run `c + 1`
   * failed, or run `c` was the exit.
   */
  predicate StopsAt(instructions: seq<Instruction>, outcomes: seq<StepOutcome>, bound: nat, n: nat, c: nat)
    requires bound <= |instructions| && bound <= |outcomes|
  {
    n <= c <= bound
    && (forall k :: n <= k < c ==> outcomes[k].success)
    && (forall k :: n < k < c ==> !IsExitRun(instructions, outcomes, k))
    && (c == bound || !outcomes[c].success || (c > n && IsExitRun(instructions, outcomes, c)))
  }

  /** `RunCount` obeys the stopping rule. */
  lemma {:induction false} RunCountRule(instructions: seq<Instruction>, outcomes: seq<StepOutcome>, bound: nat, n: nat)
    requires bound <= |instructions| && bound <= |outcomes| && n <= bound
    ensures StopsAt(instructions, outcomes, bound, n, RunCount(instructions, outcomes, bound, n))
    decreases bound - n
  {
    if n < bound && outcomes[n].success && !IsExitStep(instructions[n].text, outcomes[n].registers) {
      RunCountRule(instructions, outcomes, bound, n + 1);
      var c := RunCount(instructions, outcomes, bound, n);
      assert !IsExitRun(instructions, outcomes, n + 1);
      assert forall k :: n <= k < c ==> outcomes[k].success by {
        forall k | n <= k < c ensures outcomes[k].success {
          if k > n {
            assert n + 1 <= k;
          }
        }
      }
    }
  }

  /** At most one count obeys the stopping rule. */
  lemma StopsAtUnique(instructions: seq<Instruction>, outcomes: seq<StepOutcome>, bound: nat, n: nat, c: nat, d: nat)
    requires bound <= |instructions| && bound <= |outcomes|
    requires StopsAt(instructions, outcomes, bound, n, c) && StopsAt(instructions, outcomes, bound, n, d)
    ensures c == d
  {
  }

  /** So the number of runs recorded is exactly the count the stopping rule picks. */
  lemma RunCountIff(instructions: seq<Instruction>, outcomes: seq<StepOutcome>, bound: nat, n: nat, c: nat)
    requires bound <= |instructions| && bound <= |outcomes| && n <= bound
    ensures StopsAt(instructions, outcomes, bound, n, c) <==> c == RunCount(instructions, outcomes, bound, n)
  {
    RunCountRule(instructions, outcomes, bound, n);
    if StopsAt(instructions, outcomes, bound, n, c) {
      StopsAtUnique(instructions, outcomes, bound, n, c, RunCount(instructions, outcomes, bound, n));
    }
  }

  /**
   * What `load_program` records: one step per run the stopping rule counts
   * after the initial one; step `k` is `TraceStep` of run `k`, and only the
   * last step is marked complete.
   */
  lemma LoadedStepsRecord(instructions: seq<Instruction>, outcomes: seq<StepOutcome>, maxSteps: int, k: nat)
    requires |outcomes| >= StepBound(|instructions|, maxSteps)
    ensures var count := RunCount(instructions, outcomes, StepBound(|instructions|, maxSteps), 0);
      |LoadedSteps(instructions, outcomes, maxSteps)| == count + 1
      && (k <= count ==>
            var s := LoadedSteps(instructions, outcomes, maxSteps)[k];
            (s.isComplete <==> k == count)
            && s.(isComplete := false) == TraceStep(RegisterNames, instructions, outcomes, k))
  {
    var count := RunCount(instructions, outcomes, StepBound(|instructions|, maxSteps), 0);
    if k <= count {
      RunsAt(RegisterNames, instructions, outcomes, count, k);
    }
  }

  /** `max(0, min(n, count - 1))`. */
  function Clamp(n: int, count: nat): (r: nat)
    requires count >= 1
    ensures r < count
    ensures 0 <= n < count ==> r == n
  {
    if n < 0 then 0 else if n > count - 1 then count - 1 else n
  }

}
