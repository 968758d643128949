/**
 * The trace parser of the execution view: it reads MARS register and
 * HexText memory output, writes both back in the same formats, and
 * assembles the records an execution state is made of (the full register
 * file, the four memory segments, the state itself). The register-dump
 * parser is the same loop as the output parser's and is modelled there
 * (`OutputParser.ParseRegisters`); the change detector is the one the
 * state manager uses (`StateManagement.DetectChangedRegisters`).
 */
module TraceParser {
  import opened Wrappers
  import opened Text
  import opened Dict
  import opened Schemas
  import opened DataImage
  import OutputParser

  /** MARS's default memory layout. */
  const TextStart: nat := 0x0040_0000
  const DataStart: nat := 0x1001_0000
  const HeapStart: nat := 0x1004_0000
  /** The initial stack pointer; the stack grows down from here. */
  const StackStart: nat := 0x7FFF_EFFC
  /** The stack segment reported is the 1024 bytes below the initial stack pointer. */
  const StackSpan: nat := 1024

  // ---------------------------------------------------------------------
  // Memory dumps: `0x([0-9a-fA-F]+)` matched at the start of a stripped line
  // ---------------------------------------------------------------------

  /**
   * The word a dump line holds: the stripped line must start with `0x` and at
   * least one hexadecimal digit; the value is that run of digits, and whatever
   * follows it is ignored (the pattern is not anchored at the end).
   */
  function LineWord(raw: string): (r: Option<nat>)
    ensures r.Some? ==> StartsWith(Strip(raw), "0x")
  {
    var line := Strip(raw);
    if line == "" || !StartsWith(line, "0x") then None
    else
      var e := HexDigitsFrom(line, 2);
      if e == 2 then None else Some(HexDigitsValue(line[2..e]))
  }

  /** The values present, in order. */
  function Present(values: seq<Option<nat>>): (r: seq<nat>)
    ensures |r| <= |values|
  {
    if |values| == 0 then []
    else
      var n := |values| - 1;
      Present(values[..n]) + if values[n].Some? then [values[n].value] else []
  }

  /** The words of the lines, in order; lines without a word are skipped. */
  function LineWords(lines: seq<string>): (r: seq<nat>)
    ensures |r| <= |lines|
  {
    Present(seq(|lines|, i requires 0 <= i < |lines| => LineWord(lines[i])))
  }

  /**
   * `parse_memory_dump`: the `k`-th word read becomes the block at
   * `startAddress + k * wordSize`; skipped lines take no address.
   */
  method ParseMemoryDump(output: string, startAddress: nat, wordSize: nat) returns (blocks: seq<MemoryBlock>)
    ensures blocks == OutputParser.WordBlocks(LineWords(StrippedLines(output)), startAddress, wordSize)
  {
    var lines := StrippedLines(output);
    blocks := ReadBlocks(lines, startAddress, wordSize);
  }

  /** The loop of `parse_memory_dump`, with its running address. */
  method ReadBlocks(lines: seq<string>, startAddress: nat, wordSize: nat) returns (blocks: seq<MemoryBlock>)
    ensures blocks == OutputParser.WordBlocks(LineWords(lines), startAddress, wordSize)
  {
    ghost var values := seq(|lines|, i requires 0 <= i < |lines| => LineWord(lines[i]));
    blocks := [];
    ghost var words: seq<nat> := [];
    var address := startAddress;
    for i := 0 to |lines|
      invariant words == Present(values[..i])
      invariant blocks == OutputParser.WordBlocks(words, startAddress, wordSize)
      invariant address == OutputParser.SlotAddress(startAddress, |words|, wordSize)
    {
      var value := ReadLineWord(lines[i]);
      PresentStep(values, i);
      if value.Some? {
        OutputParser.WordBlocksAppend(words, value.value, startAddress, wordSize);
        blocks := blocks + [MemoryBlock(address, wordSize, Some(value.value), None, None)];
        words := words + [value.value];
        address := address + wordSize;
      }
    }
    assert values[..|lines|] == values;
  }

  /** Reading one more line. */
  lemma PresentStep(values: seq<Option<nat>>, i: nat)
    requires i < |values|
    ensures Present(values[..i + 1]) == Present(values[..i]) + if values[i].Some? then [values[i].value] else []
  {
    assert values[..i + 1][..i] == values[..i];
  }

  /** One turn of the loop: strip, skip blank lines, then match the pattern. */
  method ReadLineWord(raw: string) returns (value: Option<nat>)
    ensures value == LineWord(raw)
  {
    value := None;
    var line := Strip(raw);
    if line != "" && StartsWith(line, "0x") {
      var e := HexDigitsFrom(line, 2);
      if e > 2 {
        value := Some(HexDigitsValue(line[2..e]));
      }
    }
  }

  /** `f"0x{value:08x}"`: a negative value prints its sign after the prefix, zero-padded to eight characters in all. */
  function HexWord(value: int): string {
    "0x" + if value >= 0 then FormatHex(value, 8, false) else "-" + FormatHex(-value, 7, false)
  }

  /** The lines `serialize_memory_blocks` writes: one per block that has a value, in order. */
  function ValueLines(blocks: seq<MemoryBlock>): (r: seq<string>)
    ensures |r| <= |blocks|
  {
    if |blocks| == 0 then []
    else
      var n := |blocks| - 1;
      ValueLines(blocks[..n]) + match blocks[n].value case Some(v) => [HexWord(v)] case None => []
  }

  /** `serialize_memory_blocks`. */
  method SerializeMemoryBlocks(blocks: seq<MemoryBlock>) returns (text: string)
    ensures text == Join(ValueLines(blocks), "\n")
  {
    var lines: seq<string> := [];
    for i := 0 to |blocks|
      invariant lines == ValueLines(blocks[..i])
    {
      assert blocks[..i + 1][..i] == blocks[..i];
      if blocks[i].value.Some? {
        lines := lines + [HexWord(blocks[i].value.value)];
      }
    }
    assert blocks[..|blocks|] == blocks;
    text := Join(lines, "\n");
  }

  /** Blocks without a value write nothing. */
  lemma {:induction false} ValuelessBlocksOmitted(blocks: seq<MemoryBlock>)
    requires forall k :: 0 <= k < |blocks| ==> blocks[k].value.None?
    ensures ValueLines(blocks) == []
  {
    if |blocks| > 0 {
      ValuelessBlocksOmitted(blocks[..|blocks| - 1]);
    }
  }

  /** A 32-bit word is written as `0x` and exactly eight hexadecimal digits. */
  lemma HexWordShape(w: nat)
    requires w < 0x1_0000_0000
    ensures var l := HexWord(w); |l| == 10 && l[..2] == "0x" && AllHexDigits(l[2..])
  {
    assert Pow16(8) == 0x1_0000_0000;
    FormatHexLength(w, 8, false);
    FormatHexDigits(w, 8, false);
    var l := HexWord(w);
    assert l[2..] == FormatHex(w, 8, false);
  }

  /** Each word in `0x` form, in order. */
  function HexWords(words: seq<nat>): (r: seq<string>)
    ensures |r| == |words|
  {
    if |words| == 0 then [] else HexWords(words[..|words| - 1]) + [HexWord(words[|words| - 1])]
  }

  lemma {:induction false} HexWordsAt(words: seq<nat>, k: nat)
    requires k < |words|
    ensures HexWords(words)[k] == HexWord(words[k])
    decreases |words|
  {
    if k < |words| - 1 {
      assert words[..|words| - 1][k] == words[k];
      HexWordsAt(words[..|words| - 1], k);
    }
  }

  /** The lines the serialiser writes for the blocks of a dump are the words in `0x` form. */
  lemma {:induction false} ValueLinesOfWords(words: seq<nat>, start: nat, wordSize: nat)
    ensures ValueLines(OutputParser.WordBlocks(words, start, wordSize)) == HexWords(words)
    decreases |words|
  {
    if |words| > 0 {
      var n := |words| - 1;
      ValueLinesOfWords(words[..n], start, wordSize);
      var blocks := OutputParser.WordBlocks(words, start, wordSize);
      assert blocks[..n] == OutputParser.WordBlocks(words[..n], start, wordSize);
    }
  }

  /** A non-negative word written by the serialiser reads back as itself. */
  lemma HexWordReads(w: nat)
    ensures LineWord(HexWord(w)) == Some(w)
    ensures PlainLine(HexWord(w))
  {
    var h := FormatHex(w, 8, false);
    var line := "0x" + h;
    FormatHexDigits(w, 8, false);
    FormatHexValue(w, 8, false);
    assert |h| >= 8;
    assert line[0] == '0' && line[|line| - 1] == h[|h| - 1];
    HexDigitNotSpace(h[|h| - 1]);
    StripIdentity(line);
    assert line[..2] == "0x";
    assert line[2..] == h;
    HexDigitsFromExact(line, 2, |line|);
    assert forall i :: 0 <= i < |line| ==> line[i] == '0' || line[i] == 'x' || IsHexDigit(line[i]);
  }

  /** A negative word is written as `0x-…`, which the dump parser skips: it does not survive a round trip. */
  lemma NegativeWordSkipped(v: int)
    requires v < 0
    ensures LineWord(HexWord(v)) == None
  {
    var line := HexWord(v);
    var h := FormatHex(-v, 7, false);
    FormatHexDigits(-v, 7, false);
    assert line == "0x-" + h;
    assert line[2] == '-';
    if Strip(line) == line {
      HexDigitsFromExact(line, 2, 2);
    } else {
      HexDigitNotSpace(h[|h| - 1]);
      assert line[|line| - 1] == h[|h| - 1];
      StripIdentity(line);
    }
  }

  /** Lines each holding a word give exactly those words. */
  lemma {:induction false} PresentAll(values: seq<Option<nat>>, words: seq<nat>)
    requires |values| == |words|
    requires forall k :: 0 <= k < |values| ==> values[k] == Some(words[k])
    ensures Present(values) == words
    decreases |values|
  {
    if |values| > 0 {
      var n := |values| - 1;
      PresentAll(values[..n], words[..n]);
      assert words == words[..n] + [words[n]];
    }
  }

  /**
   * Serialising the blocks of a dump of non-negative words and parsing the
   * text at the same start and word size gives back the same blocks: same
   * count, same addresses, same values.
   */
  lemma SerializeParseRoundTrip(words: seq<nat>, start: nat, wordSize: nat)
    ensures var blocks := OutputParser.WordBlocks(words, start, wordSize);
      OutputParser.WordBlocks(LineWords(StrippedLines(Join(ValueLines(blocks), "\n"))), start, wordSize) == blocks
  {
    ValueLinesOfWords(words, start, wordSize);
    if |words| == 0 {
      EmptyDumpNoWords();
    } else {
      HexWordsRead(words);
      JoinedLines(HexWords(words));
    }
  }

  /** Each line written for a word is plain and reads back as that word. */
  lemma HexWordsRead(words: seq<nat>)
    ensures forall k :: 0 <= k < |words| ==> PlainLine(HexWords(words)[k])
    ensures LineWords(HexWords(words)) == words
  {
    var lines := HexWords(words);
    forall k | 0 <= k < |lines|
      ensures PlainLine(lines[k]) && LineWord(lines[k]) == Some(words[k])
    {
      HexWordsAt(words, k);
      HexWordReads(words[k]);
    }
    PresentAll(seq(|lines|, i requires 0 <= i < |lines| => LineWord(lines[i])), words);
  }

  /** An empty dump holds no words. */
  lemma EmptyDumpNoWords()
    ensures LineWords(StrippedLines("")) == []
  {
    assert StrippedLines("") == [""];
    var none: seq<Option<nat>> := [None];
    assert LineWord("") == None;
    assert LineWords([""]) == Present(none);
    assert none[..0] == [];
  }

  // ---------------------------------------------------------------------
  // Registers
  // ---------------------------------------------------------------------

  /** `create_register_state`: the 32 registers in order, `$zero` pinned to 0, any other missing register 0. */
  function CreateRegisterState(registers: Registers): (r: Registers)
    ensures Keys(r) == MipsRegisters && DistinctKeys(r)
    ensures forall i :: 0 <= i < |r| ==> r[i].1 == if r[i].0 == "$zero" then 0 else GetOr(registers, r[i].0, 0)
  {
    var f := name => if name == "$zero" then 0 else GetOr(registers, name, 0);
    MapRegistersDistinct(f);
    MapNames(MipsRegisters, f)
  }

  /** Reading a register of the state: `$zero` is 0, any other register is the input's value or 0, and nothing else is present. */
  lemma CreateRegisterStateGet(registers: Registers, name: string)
    ensures Get(CreateRegisterState(registers), name) ==
      if name !in MipsRegisters then None
      else if name == "$zero" then Some(0)
      else Some(GetOr(registers, name, 0))
  {
    var r := CreateRegisterState(registers);
    if name in MipsRegisters {
      var i := RegisterIndex(name).value;
      assert r[i].0 == name;
      GetAt(r, i);
    }
  }

  /** A complete register state is its own completion. */
  lemma CreateRegisterStateIdempotent(registers: Registers)
    ensures CreateRegisterState(CreateRegisterState(registers)) == CreateRegisterState(registers)
  {
    var r := CreateRegisterState(registers);
    var rr := CreateRegisterState(r);
    assert |rr| == |r| by { assert |Keys(rr)| == |Keys(r)|; }
    forall i | 0 <= i < |r|
      ensures rr[i] == r[i]
    {
      assert Keys(rr)[i] == Keys(r)[i];
      if r[i].0 != "$zero" {
        GetAt(r, i);
      }
    }
  }

  /** The line `serialize_registers` writes for one register: name, a tab, the value in decimal. */
  function RegisterLine(name: string, value: int): string {
    name + "\t" + IntToDecimal(value)
  }

  /** The lines of a register state, in its order. */
  function RegisterLines(registers: Registers): (r: seq<string>)
    ensures |r| == |registers|
  {
    if |registers| == 0 then []
    else
      var n := |registers| - 1;
      RegisterLines(registers[..n]) + [RegisterLine(registers[n].0, registers[n].1)]
  }

  /** `serialize_registers`. */
  method SerializeRegisters(registers: Registers) returns (text: string)
    ensures text == Join(RegisterLines(registers), "\n")
  {
    var lines: seq<string> := [];
    for i := 0 to |registers|
      invariant lines == RegisterLines(registers[..i])
    {
      assert registers[..i + 1][..i] == registers[..i];
      lines := lines + [RegisterLine(registers[i].0, registers[i].1)];
    }
    assert registers[..|registers|] == registers;
    text := Join(lines, "\n");
  }

  /** A name the register pattern can read back: `$` and one or more word characters. */
  predicate RegisterName(name: string) {
    |name| >= 2 && name[0] == '$' && forall k :: 1 <= k < |name| ==> IsWordChar(name[k])
  }

  lemma MipsRegisterNames(i: nat)
    requires i < |MipsRegisters|
    ensures RegisterName(MipsRegisters[i])
  {
  }

  /** The line of a register reads back as that register and value. */
  lemma RegisterLineReads(name: string, value: int)
    requires RegisterName(name)
    ensures OutputParser.RegisterSearch(RegisterLine(name, value), 0) == Some(OutputParser.RegisterReading(name, value))
  {
    var rest := name[1..];
    assert "$" + rest == name;
    assert RegisterLine(name, value) == "$" + rest + ['\t'] + IntToDecimal(value);
    OutputParser.RegisterLineReads(rest, '\t', value);
  }

  /** A register line starts with `$`, ends with a digit and holds no newline. */
  lemma RegisterLineShape(name: string, value: int)
    requires RegisterName(name)
    ensures PlainLine(RegisterLine(name, value))
  {
    var d := IntToDecimal(value);
    DecimalShape(value);
    assert '\n' !in d;
    var l := RegisterLine(name, value);
    assert l[|l| - 1] == d[|d| - 1];
    forall i | 0 <= i < |l|
      ensures l[i] != '\n'
    {
      if i < |name| {
        assert l[i] == name[i];
      } else if i > |name| {
        assert l[i] == d[i - |name| - 1];
      }
    }
  }

  /**
   * Folding the readings of lines that each read as one binding of a dict
   * without repeated keys rebuilds that dict, order included.
   */
  lemma {:induction false} ReadingsRebuild(lines: seq<string>, registers: Registers)
    requires |lines| == |registers| && DistinctKeys(registers)
    requires forall k :: 0 <= k < |lines| ==>
      OutputParser.RegisterSearch(lines[k], 0) == Some(OutputParser.RegisterReading(registers[k].0, registers[k].1))
    ensures OutputParser.RegistersFrom(lines) == registers
    decreases |lines|
  {
    if |lines| > 0 {
      var n := |lines| - 1;
      var front := registers[..n];
      ReadingsRebuild(lines[..n], front);
      assert registers[n].0 !in Keys(front) by {
        forall i | 0 <= i < n
          ensures Keys(front)[i] != registers[n].0
        {
          assert front[i] == registers[i];
        }
      }
      assert front + [(registers[n].0, registers[n].1)] == registers;
    }
  }

  /** The lines of a register state are its bindings in the same order. */
  lemma {:induction false} RegisterLinesAt(registers: Registers, k: nat)
    requires k < |registers|
    ensures RegisterLines(registers)[k] == RegisterLine(registers[k].0, registers[k].1)
    decreases |registers|
  {
    if k < |registers| - 1 {
      var front := registers[..|registers| - 1];
      assert front[k] == registers[k];
      RegisterLinesAt(front, k);
    }
  }

  /** Each serialised line is plain and reads back as its binding. */
  lemma RegisterLinesRead(registers: Registers)
    requires forall k :: 0 <= k < |registers| ==> RegisterName(registers[k].0)
    ensures forall k :: 0 <= k < |registers| ==> PlainLine(RegisterLines(registers)[k])
    ensures forall k :: 0 <= k < |registers| ==>
      OutputParser.RegisterSearch(RegisterLines(registers)[k], 0) == Some(OutputParser.RegisterReading(registers[k].0, registers[k].1))
  {
    forall k | 0 <= k < |registers|
      ensures PlainLine(RegisterLines(registers)[k])
      ensures OutputParser.RegisterSearch(RegisterLines(registers)[k], 0) == Some(OutputParser.RegisterReading(registers[k].0, registers[k].1))
    {
      RegisterLinesAt(registers, k);
      RegisterLineShape(registers[k].0, registers[k].1);
      RegisterLineReads(registers[k].0, registers[k].1);
    }
  }

  /**
   * Serialising a register file whose names the pattern can read and whose
   * names are distinct, then parsing the text, gives back the same register
   * file: every value, negative ones included, in the same order.
   */
  lemma SerializeRegistersRoundTrip(registers: Registers)
    requires DistinctKeys(registers)
    requires forall k :: 0 <= k < |registers| ==> RegisterName(registers[k].0)
    ensures OutputParser.RegistersFrom(StrippedLines(Join(RegisterLines(registers), "\n"))) == registers
  {
    if |registers| == 0 {
      EmptyDumpReadsNothing();
    } else {
      var lines := RegisterLines(registers);
      RegisterLinesRead(registers);
      JoinedLines(lines);
      ReadingsRebuild(lines, registers);
    }
  }

  /** Empty output sets no register. */
  lemma EmptyDumpReadsNothing()
    ensures OutputParser.RegistersFrom(StrippedLines("")) == []
  {
    assert StrippedLines("") == [""];
    assert OutputParser.RegisterSearch("", 0) == None;
    assert [""][..0] == [];
  }

  /** A complete register state survives `serialize_registers` followed by `parse_register_dump`. */
  lemma RegisterStateRoundTrip(registers: Registers)
    ensures var state := CreateRegisterState(registers);
      OutputParser.RegistersFrom(StrippedLines(Join(RegisterLines(state), "\n"))) == state
  {
    var state := CreateRegisterState(registers);
    forall k | 0 <= k < |state|
      ensures RegisterName(state[k].0)
    {
      assert state[k].0 == Keys(state)[k];
      MipsRegisterNames(k);
    }
    SerializeRegistersRoundTrip(state);
  }

  // ---------------------------------------------------------------------
  // Memory and execution states
  // ---------------------------------------------------------------------

  /** `x or []` for an optional block list. */
  function OrEmpty(blocks: Option<seq<MemoryBlock>>): seq<MemoryBlock> {
    if blocks.Some? then blocks.value else []
  }

  /** `max(b.address + b.size for b in blocks)`. */
  function BlocksEnd(blocks: seq<MemoryBlock>): (r: nat)
    requires |blocks| >= 1
    ensures forall k :: 0 <= k < |blocks| ==> blocks[k].address + blocks[k].size <= r
    ensures exists k :: 0 <= k < |blocks| && r == blocks[k].address + blocks[k].size
  {
    var n := |blocks| - 1;
    var last := blocks[n].address + blocks[n].size;
    if n == 0 then last
    else
      var front := BlocksEnd(blocks[..n]);
      assert forall k :: 0 <= k < n ==> blocks[..n][k] == blocks[k];
      if front >= last then front else last
  }

  /** `calc_end`: an empty segment ends where it starts. */
  function CalcEnd(blocks: seq<MemoryBlock>, start: nat): nat {
    if |blocks| == 0 then start else BlocksEnd(blocks)
  }

  /** Every block of the segment ends at or before the segment's end. */
  predicate Covers(segment: MemorySegment) {
    forall k :: 0 <= k < |segment.blocks| ==> segment.blocks[k].address + segment.blocks[k].size <= segment.endAddress
  }

  /** A segment whose end is where its last-reaching block ends, or its start when it has no blocks. */
  predicate TightSegment(segment: MemorySegment) {
    Covers(segment)
    && (|segment.blocks| == 0 ==> segment.endAddress == segment.startAddress)
    && (|segment.blocks| > 0 ==>
          exists k :: 0 <= k < |segment.blocks| && segment.endAddress == segment.blocks[k].address + segment.blocks[k].size)
  }

  /** `create_memory_state`. */
  function CreateMemoryState(text: Option<seq<MemoryBlock>>, data: Option<seq<MemoryBlock>>,
                             heap: Option<seq<MemoryBlock>>, stack: Option<seq<MemoryBlock>>): (m: MemoryState)
    ensures m.text.startAddress == TextStart && m.text.blocks == OrEmpty(text) && TightSegment(m.text)
    ensures m.data.startAddress == DataStart && m.data.blocks == OrEmpty(data) && TightSegment(m.data)
    ensures m.heap.startAddress == HeapStart && m.heap.blocks == OrEmpty(heap) && TightSegment(m.heap)
    ensures m.stack == MemorySegment(StackStart - StackSpan, StackStart, OrEmpty(stack))
  {
    var t := OrEmpty(text);
    var d := OrEmpty(data);
    var h := OrEmpty(heap);
    MemoryState(
      MemorySegment(TextStart, CalcEnd(t, TextStart), t),
      MemorySegment(DataStart, CalcEnd(d, DataStart), d),
      MemorySegment(HeapStart, CalcEnd(h, HeapStart), h),
      MemorySegment(StackStart - StackSpan, StackStart, OrEmpty(stack)))
  }

  /** A segment's end is determined by its start and blocks: the covering bound that some block reaches. */
  lemma TightSegmentUnique(s1: MemorySegment, s2: MemorySegment)
    requires TightSegment(s1) && TightSegment(s2)
    requires s1.startAddress == s2.startAddress && s1.blocks == s2.blocks
    ensures s1.endAddress == s2.endAddress
  {
    if |s1.blocks| > 0 {
      var k1 :| 0 <= k1 < |s1.blocks| && s1.endAddress == s1.blocks[k1].address + s1.blocks[k1].size;
      var k2 :| 0 <= k2 < |s2.blocks| && s2.endAddress == s2.blocks[k2].address + s2.blocks[k2].size;
      assert s1.endAddress <= s2.endAddress;
    }
  }

  /** The default memory state: four empty segments, the first three ending where they start. */
  lemma DefaultMemoryState()
    ensures var m := CreateMemoryState(None, None, None, None);
      m.text == MemorySegment(TextStart, TextStart, [])
      && m.data == MemorySegment(DataStart, DataStart, [])
      && m.heap == MemorySegment(HeapStart, HeapStart, [])
      && m.stack == MemorySegment(0x7FFF_EBFC, 0x7FFF_EFFC, [])
  {
  }

  /** `create_initial_heap_state`: no blocks, no free list, no fragmentation. */
  function CreateInitialHeapState(): (h: HeapState)
    ensures h.blocks == [] && h.freeList == [] && h.fragmentation == 0.0 && ValidHeapState(h)
  {
    EmptyHeap
  }

  /**
   * `create_execution_state`: the register file is completed, and missing
   * (or empty) arguments fall back to no changed registers, the default
   * memory state and the empty heap. A negative program counter fails the
   * record's `pc >= 0` constraint.
   */
  function CreateExecutionState(registers: Registers, pc: int, currentInstruction: string,
                                changedRegisters: Option<seq<string>>, memory: Option<MemoryState>,
                                heap: Option<HeapState>, isComplete: bool, programOutput: string,
                                analysis: Option<InstructionAnalysis>): (r: Result<ExecutionState>)
    ensures r.Ok? <==> pc >= 0
    ensures r.Ok? ==>
      var s := r.value;
      s.pc == pc && s.currentInstruction == currentInstruction
      && s.registers == CreateRegisterState(registers)
      && s.changedRegisters == (if changedRegisters.Some? then changedRegisters.value else [])
      && s.memory == (if memory.Some? then memory.value else CreateMemoryState(None, None, None, None))
      && s.heap == (if heap.Some? then heap.value else CreateInitialHeapState())
      && s.isComplete == isComplete && s.programOutput == programOutput
      && s.instructionAnalysis == analysis
  {
    if pc < 0 then Err("pc: Input should be greater than or equal to 0")
    else
      Ok(ExecutionState(
        pc, currentInstruction, CreateRegisterState(registers),
        if changedRegisters.Some? then changedRegisters.value else [],
        if memory.Some? then memory.value else CreateMemoryState(None, None, None, None),
        if heap.Some? then heap.value else CreateInitialHeapState(),
        isComplete, programOutput, analysis))
  }

  /** Every state built this way has the full register file, `$zero` at 0, and a valid heap when the given one is. */
  lemma ExecutionStateComplete(registers: Registers, pc: nat, heap: Option<HeapState>)
    requires heap.Some? ==> ValidHeapState(heap.value)
    ensures var r := CreateExecutionState(registers, pc, "", None, None, heap, false, "", None);
      r.Ok? && Keys(r.value.registers) == MipsRegisters && Get(r.value.registers, "$zero") == Some(0)
      && ValidHeapState(r.value.heap) && r.value.changedRegisters == []
  {
    CreateRegisterStateGet(registers, "$zero");
  }
}
