/**
 * The Python side of the five-stage pipeline simulator: the records the
 * result is reported in, the injection of the program's words into the
 * simulator's assembly template, and the decoder of the data image MARS
 * dumps after the run. The hazard, forwarding and stall engine itself runs
 * inside the assembly program and is not part of this model.
 */
module PipelineSimulator {
  import opened Wrappers
  import opened Text
  import opened Dict
  import opened DataImage

  // ---------------------------------------------------------------------
  // Records
  // ---------------------------------------------------------------------

  /** `PIPELINE_MAGIC`, "PIPE" in ASCII: the simulator writes it when it has finished. */
  const PipelineMagic: int := 0x50495045

  /** One stage latch. Register fields use -1 for "none". */
  datatype PipelineStage = PipelineStage(instruction: int, pc: int, valid: bool, srcReg1: int, srcReg2: int, destReg: int)

  /** `PipelineStage()`: a bubble. */
  const IdleStage := PipelineStage(0, 0, false, -1, -1, -1)

  datatype HazardInfo = HazardInfo(detected: bool, hazardType: int, stallRequired: bool, forwardFrom: int, forwardTo: int, forwardReg: int)
  {
    /** `hazard_type_name`: the codes 0..3 have names, every other code is "unknown". */
    function HazardTypeName(): (r: string)
      ensures r == "unknown" <==> !(0 <= hazardType <= 3)
      ensures hazardType == 1 ==> r == "RAW"
      ensures hazardType == 2 ==> r == "load-use"
    {
      match hazardType
      case 0 => "none"
      case 1 => "RAW"
      case 2 => "load-use"
      case 3 => "control"
      case _ => "unknown"
    }
  }

  /** `HazardInfo()`. */
  const NoHazard := HazardInfo(false, 0, false, 0, 0, -1)

  datatype PipelineMetrics = PipelineMetrics(
    totalCycles: int, totalInstructions: int, stallCycles: int, forwardCount: int,
    branchStalls: int, loadUseStalls: int, rawHazards: int, cpi: real)
  {
    /** `efficiency`: the ideal CPI of 1 as a percentage of the achieved CPI, 0 when no CPI is known. */
    function Efficiency(): (r: real)
      ensures cpi == 0.0 ==> r == 0.0
      ensures cpi != 0.0 ==> r * cpi == 100.0
      ensures cpi == 1.0 ==> r == 100.0
    {
      if cpi == 0.0 then 0.0 else 100.0 / cpi
    }
  }

  /** `PipelineMetrics()`. */
  const NoMetrics := PipelineMetrics(0, 0, 0, 0, 0, 0, 0, 0.0)

  /** The pipeline in one cycle: the instruction word in each stage and what happened. */
  datatype CycleRecord = CycleRecord(
    cycle: int, ifInstruction: int, idInstruction: int, exInstruction: int,
    memInstruction: int, wbInstruction: int, hazardType: int, stall: bool, forward: bool)

  datatype PipelineState = PipelineState(
    stages: Dict<string, PipelineStage>, hazard: HazardInfo, metrics: PipelineMetrics,
    cycleHistory: seq<CycleRecord>, simulationComplete: bool)

  /** The stage names, in pipeline order. */
  const StageNames: seq<string> := ["IF", "ID", "EX", "MEM", "WB"]

  lemma StageNamesDistinct()
    ensures forall i, j :: 0 <= i < j < |StageNames| ==> StageNames[i] != StageNames[j]
  {
    assert StageNames[0][1] == 'F' && StageNames[1][1] == 'D';
    assert StageNames[2][0] == 'E' && StageNames[3][0] == 'M' && StageNames[4][0] == 'W';
  }

  /** `PipelineState()`: five bubbles, no hazard, no metrics, no history, not complete. */
  function DefaultState(): PipelineState {
    PipelineState(seq(5, i requires 0 <= i < 5 => (StageNames[i], IdleStage)), NoHazard, NoMetrics, [], false)
  }

  /** The default state has the five stages in order, each one a bubble. */
  lemma DefaultStateStages()
    ensures Keys(DefaultState().stages) == StageNames
    ensures forall i :: 0 <= i < 5 ==> Get(DefaultState().stages, StageNames[i]) == Some(IdleStage)
    ensures DefaultState().cycleHistory == [] && !DefaultState().simulationComplete
  {
    var d := DefaultState().stages;
    StageNamesDistinct();
    assert Keys(d) == StageNames;
    forall i | 0 <= i < 5
      ensures Get(d, StageNames[i]) == Some(IdleStage)
    {
      GetAt(d, i);
    }
  }

  // ---------------------------------------------------------------------
  // Words of the data image
  // ---------------------------------------------------------------------

  /** `_signed`: a 32-bit word read as two's complement. */
  function Signed(v: int): (r: int)
    ensures 0 <= v < 0x1_0000_0000 ==> -0x8000_0000 <= r < 0x8000_0000
    ensures (r - v) % 0x1_0000_0000 == 0
    ensures 0 <= v <= 0x7FFF_FFFF ==> r == v
  {
    if v > 0x7FFF_FFFF then v - 0x1_0000_0000 else v
  }

  /** Every 32-bit pattern is the image of exactly one signed value: reading back the low 32 bits of `Signed(v)` gives `v`. */
  lemma SignedRoundTrip(v: int)
    requires 0 <= v < 0x1_0000_0000
    ensures Signed(v) % 0x1_0000_0000 == v
  {
    if v > 0x7FFF_FFFF {
      assert Signed(v) + 0x1_0000_0000 == v;
    }
  }

  /** The six words of a stage record at `base`. */
  function StageAt(values: seq<int>, base: nat): PipelineStage
    requires base + 5 < |values|
  {
    PipelineStage(values[base], values[base + 1], values[base + 2] != 0,
      Signed(values[base + 3]), Signed(values[base + 4]), Signed(values[base + 5]))
  }

  /** Stage record `i` of the block at `stagesOffset`, or a bubble when the image is too short to hold it. */
  function StageFrom(values: seq<int>, stagesOffset: nat, i: nat): PipelineStage {
    var base := stagesOffset + 6 * i;
    if base + 5 < |values| then StageAt(values, base) else IdleStage
  }

  /**
   * The seven-word hazard block at `offset`: a flag, the type, an unread
   * word, the stall flag, the two stage numbers and the signed register.
   * A block that does not fit in the image leaves the default record.
   */
  function HazardFrom(values: seq<int>, offset: nat): (r: HazardInfo)
    ensures offset + 6 >= |values| ==> r == NoHazard
    ensures offset + 6 < |values| ==>
      (r.detected <==> values[offset] != 0) && r.hazardType == values[offset + 1]
      && (r.stallRequired <==> values[offset + 3] != 0)
      && r.forwardFrom == values[offset + 4] && r.forwardTo == values[offset + 5]
      && (r.forwardReg - values[offset + 6]) % 0x1_0000_0000 == 0
      && (0 <= values[offset + 6] < 0x1_0000_0000 ==> -0x8000_0000 <= r.forwardReg < 0x8000_0000)
  {
    if offset + 6 < |values| then
      HazardInfo(values[offset] != 0, values[offset + 1], values[offset + 3] != 0,
        values[offset + 4], values[offset + 5], Signed(values[offset + 6]))
    else NoHazard
  }

  /** The third word of the hazard block is never read. */
  lemma HazardSkipsThirdWord(values: seq<int>, offset: nat, x: int)
    requires offset + 2 < |values|
    ensures HazardFrom(values[offset + 2 := x], offset) == HazardFrom(values, offset)
  {
  }

  /** The CPI the words describe: a scaled ratio, or cycles per instruction when no ratio was stored. */
  function MeasuredCpi(totalCycles: int, totalInstructions: int, cpiNum: int, cpiDen: int): (r: real)
    ensures r > 0.0 <==> (cpiDen > 0 && cpiNum > 0) || (cpiDen <= 0 && totalInstructions > 0 && totalCycles > 0)
  {
    if cpiDen > 0 then
      if cpiNum > 0 then
        var q := cpiNum as real / (cpiDen as real * 100.0);
        assert q * (cpiDen as real * 100.0) == cpiNum as real;
        q
      else 0.0
    else if totalInstructions > 0 then
      var q := totalCycles as real / totalInstructions as real;
      assert q * totalInstructions as real == totalCycles as real;
      q
    else 0.0
  }

  /** The reported CPI: the measured one when positive, otherwise the ideal 1. */
  function ReportedCpi(totalCycles: int, totalInstructions: int, cpiNum: int, cpiDen: int): (r: real)
    ensures r > 0.0
    ensures r != 1.0 ==> r == MeasuredCpi(totalCycles, totalInstructions, cpiNum, cpiDen)
  {
    var cpi := MeasuredCpi(totalCycles, totalInstructions, cpiNum, cpiDen);
    if cpi > 0.0 then cpi else 1.0
  }

  /**
   * The nine-word metrics block at `offset`: seven counters, then the CPI
   * ratio, reported positive. A block that does not fit leaves the default.
   */
  function MetricsFrom(values: seq<int>, offset: nat): (r: PipelineMetrics)
    ensures offset + 8 >= |values| ==> r == NoMetrics
    ensures offset + 8 < |values| ==>
      r.cpi > 0.0 && (r.cpi != 1.0 ==> r.cpi == MeasuredCpi(values[offset], values[offset + 1], values[offset + 7], values[offset + 8]))
      && r.totalCycles == values[offset] && r.totalInstructions == values[offset + 1]
      && r.stallCycles == values[offset + 2] && r.forwardCount == values[offset + 3]
      && r.branchStalls == values[offset + 4] && r.loadUseStalls == values[offset + 5]
      && r.rawHazards == values[offset + 6]
  {
    if offset + 8 < |values| then
      PipelineMetrics(values[offset], values[offset + 1], values[offset + 2], values[offset + 3],
        values[offset + 4], values[offset + 5], values[offset + 6],
        ReportedCpi(values[offset], values[offset + 1], values[offset + 7], values[offset + 8]))
    else NoMetrics
  }

  /** The nine words of a history entry at `offset`. */
  function CycleAt(values: seq<int>, offset: nat): CycleRecord
    requires offset + 8 < |values|
  {
    CycleRecord(values[offset], values[offset + 1], values[offset + 2], values[offset + 3],
      values[offset + 4], values[offset + 5], values[offset + 6], values[offset + 7] != 0, values[offset + 8] != 0)
  }

  /** The most history entries ever read. */
  const HistoryCap: nat := 50

  /** `min(history_count, max_cycles, 50)` from the two words at `metaOffset`, as a loop bound; 0 when they are missing. */
  function HistoryRequested(values: seq<int>, metaOffset: nat): (r: nat)
    ensures r <= HistoryCap
  {
    if metaOffset + 1 < |values| then
      var m := Min(Min(values[metaOffset + 1], values[metaOffset]), HistoryCap);
      if m < 0 then 0 else m
    else 0
  }

  /** How many consecutive nine-word entries starting at `offset` lie wholly inside an image of `n` words. */
  function EntriesThatFit(n: nat, offset: nat): (r: nat)
    ensures r == 0 || offset + 9 * (r - 1) + 8 < n
    ensures offset + 9 * r + 8 >= n
  {
    if offset + 8 < n then (n - offset - 9) / 9 + 1 else 0
  }

  /** The history entries the decoder keeps: the requested ones that fit, in order. */
  function HistoryFrom(values: seq<int>, metaOffset: nat): (r: seq<CycleRecord>)
    ensures |r| <= HistoryCap
  {
    var count := Min(HistoryRequested(values, metaOffset), EntriesThatFit(|values|, metaOffset + 2));
    seq(count, j requires 0 <= j < count => CycleAt(values, metaOffset + 2 + 9 * j))
  }

  /** The scan for the completion marker looks at the trailing words from the last one down to, but not including, index `max(0, len - 100)`. */
  predicate MagicFound(values: seq<int>) {
    exists i :: Max(0, |values| - 100) < i < |values| && values[i] == PipelineMagic
  }

  function Max(a: int, b: int): int { if a >= b then a else b }

  /** An image shorter than this holds no result. */
  const MinimumWords: nat := 50

  // ---------------------------------------------------------------------
  // The layout of the data image
  // ---------------------------------------------------------------------

  /**
   * Where the stage block starts: after the count word, the instruction
   * buffer as injected, and the two configuration words. The buffer holds
   * the first 100 words only, so the layout uses `BufferWords`.
   */
  function StagesOffset(numInstructions: int): (r: nat)
    ensures 4 <= r <= 103
  {
    1 + BufferWords(numInstructions) + 2
  }

  /** The offset as the decoder computes it, with the buffer taken to be `num_instructions` words long. */
  function StagesOffsetAsWritten(numInstructions: int): int {
    var bufferWords := if numInstructions > 0 then numInstructions else 100;
    1 + bufferWords + 2
  }

  /** The image is laid out as count word, buffer, configuration, so the stages start 3 words past the buffer the injector writes. */
  lemma StagesOffsetFollowsBuffer(instructions: seq<nat>)
    ensures |instructions| == 0 ==> StagesOffset(0) == 1 + 400 / 4 + 2
    ensures |instructions| > 0 ==> StagesOffset(|instructions|) == 1 + |ListedWords(WordList(instructions))| + 2
  {
    BufferListing(instructions);
  }

  /** The written offset agrees with the layout exactly up to 100 instructions. */
  lemma StagesOffsetAsWrittenAgrees(n: int)
    ensures StagesOffsetAsWritten(n) == StagesOffset(n) <==> n <= BufferCapacity
  {
  }

  /** With 101 instructions the buffer holds 100 words, but the decoder reads the stages one word too far on. */
  lemma StagesOffsetAsWrittenOverruns(instructions: seq<nat>)
    requires |instructions| == 101
    ensures |ListedWords(WordList(instructions))| == 100
    ensures StagesOffsetAsWritten(|instructions|) == 1 + |ListedWords(WordList(instructions))| + 2 + 1
  {
    BufferListing(instructions);
  }

  // ---------------------------------------------------------------------
  // Decoding the image
  // ---------------------------------------------------------------------

  /** The state the decoder builds from the words of the image. */
  function ParsedState(values: seq<int>, numInstructions: int): PipelineState {
    if |values| < MinimumWords then DefaultState()
    else
      var so := StagesOffset(numInstructions);
      PipelineState(
        DecodedStages(values, so),
        HazardFrom(values, so + 30),
        MetricsFrom(values, so + 37),
        HistoryFrom(values, so + 46),
        MagicFound(values))
  }

  /** The five stages in pipeline order, each read from its record or left a bubble. */
  function DecodedStages(values: seq<int>, stagesOffset: nat): Dict<string, PipelineStage> {
    seq(5, i requires 0 <= i < 5 => (StageNames[i], StageFrom(values, stagesOffset, i)))
  }

  /**
   * `_parse_simulation_output`: read the image one hexadecimal word per
   * line, then decode stages, hazard, metrics, history and completion.
   */
  method ParseSimulationOutput(dump: string, numInstructions: int) returns (state: PipelineState)
    ensures state == ParsedState(DumpValues(StrippedLines(dump)), numInstructions)
  {
    if dump == "" {
      EmptyDumpValues();
      return DefaultState();
    }
    var values := ReadValues(dump);
    if |values| < MinimumWords {
      return DefaultState();
    }
    state := DecodeValues(values, numInstructions);
  }

  /** The decoding half of `_parse_simulation_output`, on an image long enough to hold a result. */
  method DecodeValues(values: seq<int>, numInstructions: int) returns (state: PipelineState)
    requires |values| >= MinimumWords
    ensures state == ParsedState(values, numInstructions)
  {
    var stagesOffset := StagesOffset(numInstructions);
    var stages := ReadStages(values, stagesOffset);
    var history := ReadHistory(values, stagesOffset + 46);
    var complete := FindMagic(values);
    state := PipelineState(stages, HazardFrom(values, stagesOffset + 30), MetricsFrom(values, stagesOffset + 37), history, complete);
  }

  /** The stage loop: each readable record replaces its stage's bubble in place. */
  method ReadStages(values: seq<int>, stagesOffset: nat) returns (stages: Dict<string, PipelineStage>)
    ensures stages == DecodedStages(values, stagesOffset)
  {
    stages := DefaultState().stages;
    assert stages == StagesRead(values, stagesOffset, 0);
    for i := 0 to 5
      invariant stages == StagesRead(values, stagesOffset, i)
    {
      var base := stagesOffset + 6 * i;
      if base + 5 < |values| {
        StagesReadPut(values, stagesOffset, i);
        stages := Put(stages, StageNames[i], StageAt(values, base));
      } else {
        StagesReadSkip(values, stagesOffset, i);
      }
    }
  }

  /** The stage dictionary once the first `i` records have been read; the rest are still bubbles. */
  ghost function StagesRead(values: seq<int>, stagesOffset: nat, i: nat): Dict<string, PipelineStage> {
    seq(5, j requires 0 <= j < 5 => (StageNames[j], if j < i then StageFrom(values, stagesOffset, j) else IdleStage))
  }

  lemma StagesReadPut(values: seq<int>, stagesOffset: nat, i: nat)
    requires i < 5 && stagesOffset + 6 * i + 5 < |values|
    ensures Put(StagesRead(values, stagesOffset, i), StageNames[i], StageAt(values, stagesOffset + 6 * i))
      == StagesRead(values, stagesOffset, i + 1)
  {
    var before := StagesRead(values, stagesOffset, i);
    var stage := StageAt(values, stagesOffset + 6 * i);
    StageNamesDistinct();
    assert Keys(before)[i] == StageNames[i];
    var after := Put(before, StageNames[i], stage);
    forall j | 0 <= j < 5
      ensures after[j] == StagesRead(values, stagesOffset, i + 1)[j]
    {
      RebindAt(before, StageNames[i], stage, j);
    }
  }

  lemma StagesReadSkip(values: seq<int>, stagesOffset: nat, i: nat)
    requires i < 5 && stagesOffset + 6 * i + 5 >= |values|
    ensures StagesRead(values, stagesOffset, i) == StagesRead(values, stagesOffset, i + 1)
  {
    assert StageFrom(values, stagesOffset, i) == IdleStage;
  }

  /** The history loop: entry `i` is appended when its nine words lie inside the image. */
  method ReadHistory(values: seq<int>, metaOffset: nat) returns (history: seq<CycleRecord>)
    ensures history == HistoryFrom(values, metaOffset)
  {
    history := [];
    var requested := HistoryRequested(values, metaOffset);
    var dataOffset := metaOffset + 2;
    ghost var fit := EntriesThatFit(|values|, dataOffset);
    for i := 0 to requested
      invariant |history| == Min(i, fit)
      invariant forall j :: 0 <= j < |history| ==> history[j] == CycleAt(values, dataOffset + 9 * j)
    {
      var entryOffset := dataOffset + 9 * i;
      if entryOffset + 8 < |values| {
        history := history + [CycleAt(values, entryOffset)];
      }
    }
  }

  /** The completion scan, from the last word backwards. */
  method FindMagic(values: seq<int>) returns (found: bool)
    ensures found <==> MagicFound(values)
  {
    var stop := Max(0, |values| - 100);
    var i := |values| - 1;
    while i > stop
      invariant i < |values|
      invariant forall k :: i < k < |values| && stop < k ==> values[k] != PipelineMagic
    {
      if values[i] == PipelineMagic {
        return true;
      }
      i := i - 1;
    }
    return false;
  }

  /** The decoded stages are found under their names, in pipeline order. */
  lemma ParsedStageLookup(values: seq<int>, numInstructions: int, i: nat)
    requires |values| >= MinimumWords && i < 5
    ensures var state := ParsedState(values, numInstructions);
      Keys(state.stages) == StageNames
      && Get(state.stages, StageNames[i]) == Some(StageFrom(values, StagesOffset(numInstructions), i))
  {
    var d := ParsedState(values, numInstructions).stages;
    StageNamesDistinct();
    assert Keys(d) == StageNames;
    GetAt(d, i);
  }

  /** A stage's register fields are -1 ("none") or register-sized when every word is a 32-bit pattern. */
  lemma ParsedRegistersInRange(values: seq<int>, numInstructions: int, i: nat)
    requires forall k :: 0 <= k < |values| ==> 0 <= values[k] < 0x1_0000_0000
    requires i < 5
    ensures var s := StageFrom(values, StagesOffset(numInstructions), i);
      -0x8000_0000 <= s.srcReg1 < 0x8000_0000 && -0x8000_0000 <= s.srcReg2 < 0x8000_0000
      && -0x8000_0000 <= s.destReg < 0x8000_0000
  {
    var base := StagesOffset(numInstructions) + 6 * i;
    if base + 5 < |values| {
      assert 0 <= values[base + 3] < 0x1_0000_0000;
      assert 0 <= values[base + 4] < 0x1_0000_0000;
      assert 0 <= values[base + 5] < 0x1_0000_0000;
    }
  }

  // ---------------------------------------------------------------------
  // Injecting the program into the template
  // ---------------------------------------------------------------------

  /** The count line the injector writes. */
  function CountLine(count: nat): string {
    "instruction_count:      .word " + NatToDecimal(count)
  }

  /** The forwarding flag as the word the template holds. */
  function ForwardingWord(enableForwarding: bool): nat {
    if enableForwarding then 1 else 0
  }

  /** The forwarding line the injector writes. */
  function ForwardingLine(enableForwarding: bool): string {
    "enable_forwarding:      .word " + NatToDecimal(ForwardingWord(enableForwarding))
  }

  /** `_inject_instructions`: the count, the buffer and the forwarding flag rewritten in the template. */
  function InjectInstructions(template: string, instructions: seq<int>, enableForwarding: bool): string {
    var withCount := SubDirective(template, "instruction_count", "word", CountLine(|instructions|));
    var withBuffer := SubDirective(withCount, "instruction_buffer", "space",
      BufferDirective("    instruction_buffer:     ", instructions));
    SubDirective(withBuffer, "enable_forwarding", "word", ForwardingLine(enableForwarding))
  }

  /** A template with none of the three directives comes out unchanged. */
  lemma InjectWithoutDirectives(template: string, instructions: seq<int>, enableForwarding: bool)
    requires NoMatchIn(template, 0, |template|, "instruction_count", "word")
    requires NoMatchIn(template, 0, |template|, "instruction_buffer", "space")
    requires NoMatchIn(template, 0, |template|, "enable_forwarding", "word")
    ensures InjectInstructions(template, instructions, enableForwarding) == template
  {
    NoMatchUnchanged(template, "instruction_count", "word", CountLine(|instructions|));
    NoMatchUnchanged(template, "instruction_buffer", "space", BufferDirective("    instruction_buffer:     ", instructions));
    NoMatchUnchanged(template, "enable_forwarding", "word", ForwardingLine(enableForwarding));
  }

  /** The count line records the full count, however many words the buffer keeps, and the same pattern reads it back. */
  lemma CountLineRecordsCount(count: nat, rest: string)
    requires rest == "" || !IsDigit(rest[0])
    ensures MatchAt(CountLine(count) + rest, 0, "instruction_count", "word") == Some(DirectiveMatch(|CountLine(count)|, count))
  {
    var s := CountLine(count) + rest;
    assert s[0..|CountLine(count)|] == CountLine(count);
    DirectiveLineAt(s, 0, "instruction_count", "      ", "word", count);
  }

  /** The forwarding line records the flag as 1 or 0. */
  lemma ForwardingLineRecordsFlag(enableForwarding: bool, rest: string)
    requires rest == "" || !IsDigit(rest[0])
    ensures MatchAt(ForwardingLine(enableForwarding) + rest, 0, "enable_forwarding", "word")
      == Some(DirectiveMatch(|ForwardingLine(enableForwarding)|, if enableForwarding then 1 else 0))
  {
    var s := ForwardingLine(enableForwarding) + rest;
    assert s[0..|ForwardingLine(enableForwarding)|] == ForwardingLine(enableForwarding);
    DirectiveLineAt(s, 0, "enable_forwarding", "      ", "word", ForwardingWord(enableForwarding));
  }
}
