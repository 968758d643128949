/**
 * The pipeline endpoint: the decoded simulator state is turned into its
 * response, with register, stage and hazard numbers given their names, the
 * stages in pipeline order, the metrics derived from the CPI and the cycle
 * history converted entry by entry. The simulator run itself is an input.
 */
module PipelineRouter {
  import opened Wrappers
  import opened Text
  import opened Dict
  import opened Schemas
  import opened PipelineSimulator
  import InstructionDecoder

  // ---------------------------------------------------------------------
  // Names
  // ---------------------------------------------------------------------

  /** `get_register_name`: the names of 0..31, nothing for any other number (-1 is "none"). */
  function RegisterName(n: int): (r: Option<string>)
    ensures r.Some? <==> 0 <= n < 32
  {
    if 0 <= n < 32 then Some(MipsRegisters[n]) else None
  }

  /** A register's name reads back, on the assembler side, as its number. */
  lemma RegisterNameReadsBack(n: int)
    requires RegisterName(n).Some?
    ensures InstructionDecoder.RegisterNumber(RegisterName(n).value) == n
  {
    InstructionDecoder.RegisterNumbers(n);
  }

  /** `get_stage_name`: the stages are numbered 1 (IF) to 5 (WB). */
  function StageName(n: int): (r: Option<string>)
    ensures r.Some? <==> 1 <= n <= 5
  {
    if 1 <= n <= 5 then Some(StageNames[n - 1]) else None
  }

  /** Different stage numbers have different names. */
  lemma StageNameInjective(a: int, b: int)
    requires StageName(a).Some? && StageName(a) == StageName(b)
    ensures a == b
  {
    StageNamesDistinct();
  }

  /**
   * `get_hazard_name`: the router's table is the one `hazard_type_name`
   * uses, and a type outside 0..3 is "unknown".
   */
  function HazardName(t: int): (r: string)
    ensures forall h: HazardInfo :: h.hazardType == t ==> r == h.HazardTypeName()
    ensures r == "unknown" <==> !(0 <= t <= 3)
  {
    match t
    case 0 => "none"
    case 1 => "RAW"
    case 2 => "load-use"
    case 3 => "control"
    case _ => "unknown"
  }

  /** `f"0x{v:08X}"`: a minus sign takes one of the eight places. */
  function WordHex(v: int): string {
    "0x" + if v >= 0 then FormatHex(v, 8, true) else "-" + FormatHex(-v, 7, true)
  }

  /** A 32-bit word's spelling is ten characters and reads back as the word. */
  lemma WordHexReads(v: int)
    requires 0 <= v < 0x1_0000_0000
    ensures |WordHex(v)| == 10 && ParseHex(WordHex(v)) == Some(v)
  {
    assert Pow16(8) == 0x1_0000_0000 by {
      assert Pow16(4) == 65536;
    }
    FormatHexLength(v, 8, true);
    ParseHexFormatted(v, 8, true, true);
  }

  // ---------------------------------------------------------------------
  // Responses
  // ---------------------------------------------------------------------

  datatype StageResponse = StageResponse(
    name: string, instruction: int, instructionHex: string, pc: int, pcHex: string, valid: bool,
    srcReg1: int, srcReg2: int, destReg: int,
    srcReg1Name: Option<string>, srcReg2Name: Option<string>, destRegName: Option<string>)

  datatype HazardResponse = HazardResponse(
    detected: bool, hazardType: int, hazardTypeName: string, stallRequired: bool,
    forwardFrom: int, forwardFromName: Option<string>, forwardTo: int, forwardToName: Option<string>,
    forwardReg: int, forwardRegName: Option<string>)

  /** CPI, efficiency and speedup are exact ratios here; the response rounds them. */
  datatype MetricsResponse = MetricsResponse(
    totalCycles: int, totalInstructions: int, stallCycles: int, forwardCount: int,
    branchStalls: int, loadUseStalls: int, rawHazards: int, cpi: real, efficiency: real, speedup: real)

  datatype CycleResponse = CycleResponse(
    cycle: int, stages: Dict<string, int>, stagesHex: Dict<string, string>,
    hazardType: int, hazardTypeName: string, stall: bool, forward: bool)

  datatype SimulateResponse = SimulateResponse(
    success: bool, stages: seq<StageResponse>, hazard: Option<HazardResponse>, metrics: Option<MetricsResponse>,
    cycleHistory: seq<CycleResponse>, simulationComplete: bool, error: Option<string>)

  function StageResponseOf(name: string, s: PipelineStage): StageResponse {
    StageResponse(
      name, s.instruction, WordHex(s.instruction), s.pc, WordHex(s.pc), s.valid,
      s.srcReg1, s.srcReg2, s.destReg, RegisterName(s.srcReg1), RegisterName(s.srcReg2), RegisterName(s.destReg))
  }

  function HazardResponseOf(h: HazardInfo): HazardResponse {
    HazardResponse(
      h.detected, h.hazardType, HazardName(h.hazardType), h.stallRequired,
      h.forwardFrom, StageName(h.forwardFrom), h.forwardTo, StageName(h.forwardTo),
      h.forwardReg, RegisterName(h.forwardReg))
  }

  /** The CPI the derived metrics use: a non-positive CPI counts as 1. */
  function EffectiveCpi(cpi: real): real {
    if cpi > 0.0 then cpi else 1.0
  }

  /**
   * The reported CPI is positive; efficiency is the ideal CPI of 1 over it
   * as a percentage and speedup is the five stages over it, so a run
   * without a CPI reports 100% and a speedup of 5. The counters pass
   * through unchanged.
   */
  function MetricsResponseOf(m: PipelineMetrics): (r: MetricsResponse)
    ensures r.cpi > 0.0 && r.efficiency * r.cpi == 100.0 && r.speedup * r.cpi == 5.0
    ensures m.cpi > 0.0 ==> r.cpi == m.cpi
    ensures m.cpi <= 0.0 ==> r.cpi == 1.0 && r.efficiency == 100.0 && r.speedup == 5.0
    ensures r.totalCycles == m.totalCycles && r.totalInstructions == m.totalInstructions
      && r.stallCycles == m.stallCycles && r.forwardCount == m.forwardCount
    ensures r.branchStalls == m.branchStalls && r.loadUseStalls == m.loadUseStalls
      && r.rawHazards == m.rawHazards
  {
    var cpi := EffectiveCpi(m.cpi);
    MetricsResponse(
      m.totalCycles, m.totalInstructions, m.stallCycles, m.forwardCount,
      m.branchStalls, m.loadUseStalls, m.rawHazards,
      cpi, if cpi > 0.0 then 1.0 / cpi * 100.0 else 100.0, if cpi > 0.0 then 5.0 / cpi else 5.0)
  }

  /** The instruction word in stage `i` (0 = IF .. 4 = WB) of a cycle record. */
  function CycleWord(rec: CycleRecord, i: nat): int
    requires i < 5
  {
    match i
    case 0 => rec.ifInstruction
    case 1 => rec.idInstruction
    case 2 => rec.exInstruction
    case 3 => rec.memInstruction
    case _ => rec.wbInstruction
  }

  /** `{"IF": .., "ID": .., "EX": .., "MEM": .., "WB": ..}` over the stage words, each mapped by `f`. */
  function StageDict<V>(rec: CycleRecord, f: int -> V): (r: Dict<string, V>)
    ensures |r| == 5
  {
    seq(5, i requires 0 <= i < 5 => (StageNames[i], f(CycleWord(rec, i))))
  }

  function CycleResponseOf(rec: CycleRecord): CycleResponse {
    CycleResponse(
      rec.cycle, StageDict(rec, (w: int) => w), StageDict(rec, WordHex),
      rec.hazardType, HazardName(rec.hazardType), rec.stall, rec.forward)
  }

  /** The stage dictionaries have the five stage names as keys, in pipeline order, each once. */
  lemma StageDictKeys<V>(rec: CycleRecord, f: int -> V)
    ensures Keys(StageDict(rec, f)) == StageNames && DistinctKeys(StageDict(rec, f))
  {
    StageNamesDistinct();
  }

  /** A converted cycle keeps its stage words under the stage names, with their spellings beside them. */
  lemma CycleResponseWords(rec: CycleRecord, i: nat)
    requires i < 5
    ensures var r := CycleResponseOf(rec);
      Keys(r.stages) == StageNames && Keys(r.stagesHex) == StageNames
      && Get(r.stages, StageNames[i]) == Some(CycleWord(rec, i))
      && Get(r.stagesHex, StageNames[i]) == Some(WordHex(CycleWord(rec, i)))
      && r.cycle == rec.cycle && r.hazardTypeName == HazardName(rec.hazardType)
  {
    var r := CycleResponseOf(rec);
    StageDictKeys(rec, (w: int) => w);
    StageDictKeys(rec, WordHex);
    GetAt(r.stages, i);
    GetAt(r.stagesHex, i);
  }

  // ---------------------------------------------------------------------
  // Stages in pipeline order
  // ---------------------------------------------------------------------

  /** The responses for the first `m` stage names, one for each stage the state has. */
  function StageResponses(m: nat, stages: Dict<string, PipelineStage>): (r: seq<StageResponse>)
    requires m <= 5
    ensures |r| <= m
  {
    if m == 0 then [] else StageResponses(m - 1, stages) + StageResponseAt(m - 1, stages)
  }

  /** The response for stage `i`, if the state has that stage. */
  function StageResponseAt(i: nat, stages: Dict<string, PipelineStage>): (r: seq<StageResponse>)
    requires i < 5
    ensures |r| <= 1
  {
    match Get(stages, StageNames[i])
    case Some(s) => [StageResponseOf(StageNames[i], s)]
    case None => []
  }

  /** The positions, among the first `m` stage names, of the stages the state has. */
  function PresentStages(m: nat, stages: Dict<string, PipelineStage>): seq<nat>
    requires m <= 5
  {
    if m == 0 then []
    else PresentStages(m - 1, stages) + if Get(stages, StageNames[m - 1]).Some? then [m - 1] else []
  }

  /** Each response is built from the stage at its position, under that stage's name. */
  lemma {:induction false} StagesMatch(m: nat, stages: Dict<string, PipelineStage>)
    requires m <= 5
    ensures |StageResponses(m, stages)| == |PresentStages(m, stages)|
    ensures forall k :: 0 <= k < |PresentStages(m, stages)| ==>
      var i := PresentStages(m, stages)[k];
      i < 5 && Get(stages, StageNames[i]).Some?
      && StageResponses(m, stages)[k] == StageResponseOf(StageNames[i], Get(stages, StageNames[i]).value)
  {
    if m > 0 {
      StagesMatch(m - 1, stages);
      var prev, idx := StageResponses(m - 1, stages), PresentStages(m - 1, stages);
      assert StageResponses(m, stages) == prev + StageResponseAt(m - 1, stages);
      assert PresentStages(m, stages) == idx + if Get(stages, StageNames[m - 1]).Some? then [m - 1] else [];
    }
  }

  /** The positions increase strictly: the responses come in the order IF, ID, EX, MEM, WB, none twice. */
  lemma {:induction false} StagesIncrease(m: nat, stages: Dict<string, PipelineStage>)
    requires m <= 5
    ensures forall k :: 0 <= k < |PresentStages(m, stages)| ==> PresentStages(m, stages)[k] < m
    ensures forall k, l :: 0 <= k < l < |PresentStages(m, stages)| ==> PresentStages(m, stages)[k] < PresentStages(m, stages)[l]
  {
    if m > 0 {
      StagesIncrease(m - 1, stages);
    }
  }

  /** Every stage the state has gets a response. */
  lemma {:induction false} StagesComplete(m: nat, stages: Dict<string, PipelineStage>)
    requires m <= 5
    ensures forall i :: 0 <= i < m && Get(stages, StageNames[i]).Some? ==> i in PresentStages(m, stages)
  {
    if m > 0 {
      StagesComplete(m - 1, stages);
    }
  }

  /** A state with all five stages (every decoded state has them) gives five responses, IF to WB. */
  lemma AllStagesInOrder(stages: Dict<string, PipelineStage>)
    requires forall i :: 0 <= i < 5 ==> Get(stages, StageNames[i]).Some?
    ensures var r := StageResponses(5, stages);
      |r| == 5 && forall k :: 0 <= k < 5 ==> r[k] == StageResponseOf(StageNames[k], Get(stages, StageNames[k]).value)
  {
    AllPresent(5, stages);
  }

  lemma {:induction false} AllPresent(m: nat, stages: Dict<string, PipelineStage>)
    requires m <= 5
    requires forall i :: 0 <= i < 5 ==> Get(stages, StageNames[i]).Some?
    ensures var r := StageResponses(m, stages);
      |r| == m && forall k :: 0 <= k < m ==> r[k] == StageResponseOf(StageNames[k], Get(stages, StageNames[k]).value)
  {
    if m > 0 {
      AllPresent(m - 1, stages);
    }
  }

  method ConvertStages(stages: Dict<string, PipelineStage>) returns (r: seq<StageResponse>)
    ensures r == StageResponses(5, stages)
  {
    r := [];
    var i := 0;
    while i < 5
      invariant 0 <= i <= 5 && r == StageResponses(i, stages)
    {
      r := r + StageResponseAt(i, stages);
      i := i + 1;
    }
  }

  method ConvertHistory(history: seq<CycleRecord>) returns (r: seq<CycleResponse>)
    ensures |r| == |history| && forall k :: 0 <= k < |history| ==> r[k] == CycleResponseOf(history[k])
  {
    r := [];
    var i := 0;
    while i < |history|
      invariant 0 <= i <= |history| && |r| == i
      invariant forall k :: 0 <= k < i ==> r[k] == CycleResponseOf(history[k])
    {
      r := r + [CycleResponseOf(history[i])];
      i := i + 1;
    }
  }

  /**
   * `_convert_state_to_response`: the stages present in pipeline order,
   * the hazard and metrics (a state always has both), and the history one
   * response per cycle, in order.
   */
  method ConvertStateToResponse(state: PipelineState) returns (r: SimulateResponse)
    ensures r.success && r.error.None? && r.simulationComplete == state.simulationComplete
    ensures r.stages == StageResponses(5, state.stages)
    ensures r.hazard == Some(HazardResponseOf(state.hazard)) && r.metrics == Some(MetricsResponseOf(state.metrics))
    ensures |r.cycleHistory| == |state.cycleHistory|
    ensures forall k :: 0 <= k < |state.cycleHistory| ==> r.cycleHistory[k] == CycleResponseOf(state.cycleHistory[k])
  {
    var stages := ConvertStages(state.stages);
    var history := ConvertHistory(state.cycleHistory);
    r := SimulateResponse(
      true, stages, Some(HazardResponseOf(state.hazard)), Some(MetricsResponseOf(state.metrics)),
      history, state.simulationComplete, None);
  }

  function Failure(message: string): SimulateResponse {
    SimulateResponse(false, [], None, None, [], false, Some(message))
  }

  /** A run that neither finished nor completed any instruction produced nothing to show. */
  predicate ProducedNothing(state: PipelineState) {
    !state.simulationComplete && state.metrics.totalInstructions == 0
  }

  /**
   * `POST /api/pipeline/simulate`. `run` is what simulating the code gives:
   * the decoded state, or the message of the error it raised. Blank code is
   * refused before the simulator is consulted.
   */
  method SimulatePipeline(code: string, run: Result<PipelineState>) returns (r: SimulateResponse)
    requires |code| >= 1
    ensures IsBlank(code) ==> r == Failure("MIPS code cannot be empty")
    ensures !IsBlank(code) && run.Err? ==> r == Failure(run.message)
    ensures !IsBlank(code) && run.Ok? && ProducedNothing(run.value) ==>
      r == Failure("Pipeline simulation produced no results. Check your MIPS code.")
    ensures r.success <==> !IsBlank(code) && run.Ok? && !ProducedNothing(run.value)
    ensures r.success ==>
      r.simulationComplete == run.value.simulationComplete
      && r.stages == StageResponses(5, run.value.stages) && |r.cycleHistory| == |run.value.cycleHistory|
    ensures r.success ==>
      r.hazard == Some(HazardResponseOf(run.value.hazard))
      && r.metrics == Some(MetricsResponseOf(run.value.metrics))
      && r.error.None?
    ensures r.success ==>
      forall k :: 0 <= k < |run.value.cycleHistory| ==> r.cycleHistory[k] == CycleResponseOf(run.value.cycleHistory[k])
  {
    if IsBlank(code) {
      return Failure("MIPS code cannot be empty");
    }
    if run.Err? {
      return Failure(run.message);
    }
    var state := run.value;
    if ProducedNothing(state) {
      return Failure("Pipeline simulation produced no results. Check your MIPS code.");
    }
    r := ConvertStateToResponse(state);
  }
}
