/**
 * The Python side of the instruction analyzer: injecting the program's
 * words into the analyzer's assembly template, decoding the counters and
 * the per-register usage table from the data image MARS dumps, and the
 * fallback applied after decoding. The classification of instructions runs
 * inside the assembly program and is not part of this model.
 */
module MipsAnalyzer {
  import opened Wrappers
  import opened Text
  import opened Dict
  import opened Schemas
  import opened DataImage

  /** Counter words at or above this bound are taken to be garbage. */
  const CounterBound: int := 10000

  /** A counter word as recorded: kept below the bound, 0 otherwise. */
  function Counter(w: int): (r: int)
    ensures r < CounterBound
    ensures r == w || r == 0
    ensures w < CounterBound ==> r == w
  {
    if w < CounterBound then w else 0
  }

  /** A usage word is recorded only when it is positive and below the bound. */
  predicate IsUsage(w: int) {
    0 < w < CounterBound
  }

  // ---------------------------------------------------------------------
  // The layout of the data image
  // ---------------------------------------------------------------------

  /** Where the nine counters start: after the count word and the instruction buffer as injected. */
  function ResultsOffset(numInstructions: int): (r: nat)
    ensures 2 <= r <= 101
  {
    1 + BufferWords(numInstructions)
  }

  /** The offset as the decoder computes it, with the buffer taken to be `num_instructions` words long. */
  function ResultsOffsetAsWritten(numInstructions: int): int {
    1 + numInstructions
  }

  /** The counters start right after the buffer the injector writes. */
  lemma ResultsOffsetFollowsBuffer(instructions: seq<nat>)
    ensures |instructions| == 0 ==> ResultsOffset(0) == 1 + 400 / 4
    ensures |instructions| > 0 ==> ResultsOffset(|instructions|) == 1 + |ListedWords(WordList(instructions))|
  {
    BufferListing(instructions);
  }

  /** For a non-empty program the written offset agrees with the layout exactly up to 100 instructions. */
  lemma ResultsOffsetAsWrittenAgrees(n: int)
    requires n > 0
    ensures ResultsOffsetAsWritten(n) == ResultsOffset(n) <==> n <= BufferCapacity
  {
  }

  /** With 101 instructions the buffer holds 100 words, but the decoder reads the counters one word too far on. */
  lemma ResultsOffsetAsWrittenOverruns(instructions: seq<nat>)
    requires |instructions| == 101
    ensures |ListedWords(WordList(instructions))| == 100
    ensures ResultsOffsetAsWritten(|instructions|) == 1 + |ListedWords(WordList(instructions))| + 1
  {
    BufferListing(instructions);
  }

  // ---------------------------------------------------------------------
  // The register usage table
  // ---------------------------------------------------------------------

  /** The 32 usage words at `offset`, each under its register's name. */
  function UsageWords(values: seq<int>, offset: nat): (r: Dict<string, int>)
    requires offset + 32 <= |values|
    ensures Keys(r) == MipsRegisters
  {
    seq(32, i requires 0 <= i < 32 => (MipsRegisters[i], values[offset + i]))
  }

  /** The bindings of `d` whose value is a usage, in their order. */
  function KeepUsage(d: Dict<string, int>): (r: Dict<string, int>)
    ensures |r| <= |d|
  {
    if |d| == 0 then []
    else KeepUsage(d[..|d| - 1]) + (if IsUsage(d[|d| - 1].1) then [d[|d| - 1]] else [])
  }

  /** Only keys of `d` are kept. */
  lemma {:induction false} KeepUsageKeys(d: Dict<string, int>, k: string)
    requires k in Keys(KeepUsage(d))
    ensures k in Keys(d)
    decreases |d|
  {
    var front := d[..|d| - 1];
    var kept := KeepUsage(front);
    assert Keys(d) == Keys(front) + [d[|d| - 1].0];
    if IsUsage(d[|d| - 1].1) {
      assert Keys(KeepUsage(d)) == Keys(kept) + [d[|d| - 1].0];
    } else {
      assert KeepUsage(d) == kept;
    }
    if k in Keys(kept) {
      KeepUsageKeys(front, k);
    }
  }

  /** A key reads its value from the filtered dict exactly when the value is a usage. */
  lemma {:induction false} GetKeepUsage(d: Dict<string, int>, k: string)
    requires DistinctKeys(d)
    ensures Get(KeepUsage(d), k) == if Get(d, k).Some? && IsUsage(Get(d, k).value) then Get(d, k) else None
    decreases |d|
  {
    if |d| > 0 {
      var front := d[..|d| - 1];
      var last := d[|d| - 1];
      var kept := KeepUsage(front);
      GetKeepUsage(front, k);
      assert d == front + [last];
      if IsUsage(last.1) {
        assert KeepUsage(d) == kept + [last];
        assert (kept + [last])[..|kept|] == kept;
      } else if last.0 != k {
        assert KeepUsage(d) == kept;
      } else {
        assert KeepUsage(d) == kept;
        assert Keys(d)[|d| - 1] == k;
        assert k !in Keys(front);
      }
    }
  }

  /** The usage table the decoder builds from the words at `offset`. */
  function UsageFrom(values: seq<int>, offset: nat): Dict<string, int>
    requires offset + 32 <= |values|
  {
    KeepUsage(UsageWords(values, offset))
  }

  lemma UsageWordsDistinct(values: seq<int>, offset: nat)
    requires offset + 32 <= |values|
    ensures DistinctKeys(UsageWords(values, offset))
  {
    var d := UsageWords(values, offset);
    MipsRegistersDistinct();
    forall a, b | 0 <= a < b < |d|
      ensures d[a].0 != d[b].0
    {
      assert d[a].0 == MipsRegisters[a] && d[b].0 == MipsRegisters[b];
    }
  }

  /** Register `i` has an entry exactly when its word is a usage, and then the entry is that word. */
  lemma UsageLookup(values: seq<int>, offset: nat, i: nat)
    requires offset + 32 <= |values| && i < 32
    ensures Get(UsageFrom(values, offset), MipsRegisters[i])
      == if IsUsage(values[offset + i]) then Some(values[offset + i]) else None
  {
    var d := UsageWords(values, offset);
    UsageWordsDistinct(values, offset);
    GetAt(d, i);
    GetKeepUsage(d, MipsRegisters[i]);
  }

  /** Every recorded usage is positive and below the bound. */
  lemma {:induction false} UsageValuesBounded(d: Dict<string, int>, j: nat)
    requires j < |KeepUsage(d)|
    ensures IsUsage(KeepUsage(d)[j].1)
    decreases |d|
  {
    var front := d[..|d| - 1];
    if j < |KeepUsage(front)| {
      UsageValuesBounded(front, j);
    }
  }

  // ---------------------------------------------------------------------
  // Decoding the image
  // ---------------------------------------------------------------------

  /** The analysis the decoder builds from the words of the image. */
  function ParsedAnalysis(values: seq<int>, numInstructions: int): (r: InstructionAnalysis)
    ensures r.analysisValid <==> r.totalAnalyzed > 0
    ensures r.rTypeCount < CounterBound && r.iTypeCount < CounterBound && r.loadCount < CounterBound
    ensures r.storeCount < CounterBound && r.branchCount < CounterBound && r.jumpCount < CounterBound
    ensures r.syscallCount < CounterBound && r.otherCount < CounterBound && r.totalAnalyzed < CounterBound
  {
    var idx := ResultsOffset(numInstructions);
    var counted :=
      if |values| > idx + 9 then
        var total := Counter(values[idx + 8]);
        InstructionAnalysis(Counter(values[idx]), Counter(values[idx + 1]), Counter(values[idx + 2]),
          Counter(values[idx + 3]), Counter(values[idx + 4]), Counter(values[idx + 5]),
          Counter(values[idx + 6]), Counter(values[idx + 7]), total, [], total > 0)
      else DefaultAnalysis;
    var usageOffset := idx + 9;
    if |values| > usageOffset + 32 then counted.(registerUsage := UsageFrom(values, usageOffset)) else counted
  }

  /** `_parse_analysis_output`: read the image one hexadecimal word per line, then decode it. */
  method ParseAnalysisOutput(dump: string, numInstructions: int) returns (analysis: InstructionAnalysis)
    ensures analysis == ParsedAnalysis(DumpValues(StrippedLines(dump)), numInstructions)
  {
    var values := [];
    if dump != "" {
      values := ReadValues(dump);
    } else {
      EmptyDumpValues();
    }
    analysis := DecodeAnalysis(values, numInstructions);
  }

  /** The counters, assigned one by one, then the usage table. */
  method DecodeAnalysis(values: seq<int>, numInstructions: int) returns (analysis: InstructionAnalysis)
    ensures analysis == ParsedAnalysis(values, numInstructions)
  {
    analysis := DefaultAnalysis;
    var idx := ResultsOffset(numInstructions);
    if |values| > idx + 9 {
      analysis := analysis.(rTypeCount := Counter(values[idx]));
      analysis := analysis.(iTypeCount := Counter(values[idx + 1]));
      analysis := analysis.(loadCount := Counter(values[idx + 2]));
      analysis := analysis.(storeCount := Counter(values[idx + 3]));
      analysis := analysis.(branchCount := Counter(values[idx + 4]));
      analysis := analysis.(jumpCount := Counter(values[idx + 5]));
      analysis := analysis.(syscallCount := Counter(values[idx + 6]));
      analysis := analysis.(otherCount := Counter(values[idx + 7]));
      analysis := analysis.(totalAnalyzed := Counter(values[idx + 8]));
      if analysis.totalAnalyzed > 0 {
        analysis := analysis.(analysisValid := true);
      }
    }
    var usageOffset := idx + 9;
    if |values| > usageOffset + 32 {
      var usage := ReadUsage(values, usageOffset);
      analysis := analysis.(registerUsage := usage);
    }
  }

  /** The usage loop: register `i`'s word is stored under its name when it is a usage. */
  method ReadUsage(values: seq<int>, offset: nat) returns (usage: Dict<string, int>)
    requires offset + 32 <= |values|
    ensures usage == UsageFrom(values, offset)
  {
    ghost var words := UsageWords(values, offset);
    usage := [];
    for i := 0 to 32
      invariant usage == KeepUsage(words[..i])
    {
      var w := values[offset + i];
      if IsUsage(w) {
        UsageStep(values, offset, i);
        usage := Put(usage, MipsRegisters[i], w);
      } else {
        assert words[..i + 1] == words[..i] + [words[i]];
      }
    }
    assert words[..32] == words;
  }

  /** Storing a usage under register `i`'s name appends it, since no later name was stored before. */
  lemma UsageStep(values: seq<int>, offset: nat, i: nat)
    requires offset + 32 <= |values| && i < 32 && IsUsage(values[offset + i])
    ensures var words := UsageWords(values, offset);
      Put(KeepUsage(words[..i]), MipsRegisters[i], values[offset + i]) == KeepUsage(words[..i + 1])
  {
    var words := UsageWords(values, offset);
    var name := MipsRegisters[i];
    var kept := KeepUsage(words[..i]);
    assert words[..i + 1] == words[..i] + [words[i]];
    assert words[..i + 1][..i] == words[..i];
    if name in Keys(kept) {
      KeepUsageKeys(words[..i], name);
      UsageWordsDistinct(values, offset);
      assert false;
    }
  }

  // ---------------------------------------------------------------------
  // The analysis as reported
  // ---------------------------------------------------------------------

  /**
   * `analyze` after MARS has run: `dump` is the data image it wrote. An
   * empty program is not analysed; a decode that found no total falls back
   * to the number of instructions sent.
   */
  method Analyze(instructions: seq<int>, dump: string) returns (analysis: InstructionAnalysis)
    ensures |instructions| == 0 ==> analysis == DefaultAnalysis
    ensures |instructions| > 0 ==>
      var parsed := ParsedAnalysis(DumpValues(StrippedLines(dump)), |instructions|);
      analysis == (if parsed.analysisValid then parsed else parsed.(totalAnalyzed := |instructions|))
    ensures |instructions| > 0 ==> analysis.totalAnalyzed > 0
    ensures analysis.analysisValid ==> |instructions| > 0
  {
    if |instructions| == 0 {
      return DefaultAnalysis;
    }
    analysis := ParseAnalysisOutput(dump, |instructions|);
    if !analysis.analysisValid {
      analysis := analysis.(totalAnalyzed := |instructions|);
    }
  }

  // ---------------------------------------------------------------------
  // Injecting the program into the template
  // ---------------------------------------------------------------------

  /** The count line the injector writes. */
  function CountLine(count: nat): string {
    "instruction_count:  .word " + NatToDecimal(count)
  }

  /** `_inject_instructions`: the count and the buffer rewritten in the template. */
  function InjectInstructions(template: string, instructions: seq<int>): string {
    var withCount := SubDirective(template, "instruction_count", "word", CountLine(|instructions|));
    SubDirective(withCount, "instruction_buffer", "space", BufferDirective("    instruction_buffer: ", instructions))
  }

  /** A template with neither directive comes out unchanged. */
  lemma InjectWithoutDirectives(template: string, instructions: seq<int>)
    requires NoMatchIn(template, 0, |template|, "instruction_count", "word")
    requires NoMatchIn(template, 0, |template|, "instruction_buffer", "space")
    ensures InjectInstructions(template, instructions) == template
  {
    NoMatchUnchanged(template, "instruction_count", "word", CountLine(|instructions|));
    NoMatchUnchanged(template, "instruction_buffer", "space", BufferDirective("    instruction_buffer: ", instructions));
  }

  /** The count line records the full count, however many words the buffer keeps, and the same pattern reads it back. */
  lemma CountLineRecordsCount(count: nat, rest: string)
    requires rest == "" || !IsDigit(rest[0])
    ensures MatchAt(CountLine(count) + rest, 0, "instruction_count", "word") == Some(DirectiveMatch(|CountLine(count)|, count))
  {
    var s := CountLine(count) + rest;
    assert s[0..|CountLine(count)|] == CountLine(count);
    DirectiveLineAt(s, 0, "instruction_count", "  ", "word", count);
  }
}
