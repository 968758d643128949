/**
 * The read-only parser of MARS output used by the heap visualiser: register
 * lines from standard output, HexText memory dumps, the heap block headers
 * the MIPS allocator writes, and the fragmentation figure derived from the
 * free list. All allocation decisions are made by the MIPS program; nothing
 * here decides anything.
 */
module OutputParser {
  import opened Wrappers
  import opened Text
  import opened Dict
  import opened Schemas
  import opened DataImage

  /** MARS's default start of `.data`. */
  const DataStart: nat := 0x1001_0000
  /** MARS's default start of the heap. */
  const HeapStart: nat := 0x1004_0000

  /** A heap block header is three words: size, allocated flag, next pointer. */
  const HeaderSize: nat := 12
  const OffsetSize: nat := 0
  const OffsetAllocated: nat := 4
  const OffsetNext: nat := 8

  // ---------------------------------------------------------------------
  // Registers: `\$(\w+)\s+(-?\d+)`, searched anywhere in a line
  // ---------------------------------------------------------------------

  datatype RegisterReading = RegisterReading(name: string, value: int)

  /**
   * A match of the register pattern starting at `p`. Each run takes its
   * longest extent, the only one the next part of the pattern can accept;
   * a `-` not followed by a digit cannot be matched either way.
   */
  function RegisterMatchAt(line: string, p: nat): (r: Option<RegisterReading>)
    requires p <= |line|
    ensures r.Some? ==> |r.value.name| >= 2 && r.value.name[0] == '$'
  {
    if !(p < |line| && line[p] == '$') then None
    else
      var a := WordsFrom(line, p + 1);
      var b := SpacesFrom(line, a);
      var negative := b < |line| && line[b] == '-';
      var c := if negative then b + 1 else b;
      var d := DigitsFrom(line, c);
      if a == p + 1 || b == a || d == c then None
      else
        var magnitude: int := Number(line, c, d);
        Some(RegisterReading("$" + line[p + 1..a], if negative then -magnitude else magnitude))
  }

  /** `REGISTER_PATTERN.search(line[p:])`: the leftmost match at or after `p`. */
  function RegisterSearch(line: string, p: nat): (r: Option<RegisterReading>)
    requires p <= |line|
    ensures r.Some? ==> |r.value.name| >= 2 && r.value.name[0] == '$'
    decreases |line| - p
  {
    if p == |line| then None
    else match RegisterMatchAt(line, p)
      case Some(m) => Some(m)
      case None => RegisterSearch(line, p + 1)
  }

  /** `s` is `$`, the name run up to `a`, a space run up to `b`, an optional `-` and a digit run from `c` to its end. */
  predicate RegisterLayout(s: string, a: nat, b: nat, c: nat, negative: bool, name: string, digits: string) {
    1 < a < b <= c < |s| && s[0] == '$'
    && (forall k :: 1 <= k < a ==> IsWordChar(s[k]))
    && (forall k :: a <= k < b ==> IsSpace(s[k]))
    && (if negative then c == b + 1 && s[b] == '-' else c == b && !IsSpace(s[b]) && s[b] != '-')
    && (forall k :: c <= k < |s| ==> IsDigit(s[k]))
    && !IsWordChar(s[a])
    && s[1..a] == name && s[c..|s|] == digits && AllDigits(digits)
  }

  /** A line with that layout matches at its start with the name and the signed value of the digits. */
  lemma RegisterMatchRuns(s: string, a: nat, b: nat, c: nat, negative: bool, name: string, digits: string)
    requires RegisterLayout(s, a, b, c, negative, name, digits)
    ensures RegisterMatchAt(s, 0) == Some(RegisterReading("$" + name, if negative then -(DigitsValue(digits) as int) else DigitsValue(digits)))
  {
    WordsFromExact(s, 1, a);
    SpacesFromExact(s, a, b);
    DigitsFromExact(s, c, |s|);
  }

  lemma TailOfConcat(head: string, tail: string)
    ensures (head + tail)[|head|..|head + tail|] == tail
  {
  }

  /** `$<name>`, one whitespace character, `[-]<digits>`: the way MARS prints a register has that layout. */
  lemma SignedLineLayout(name: string, sep: char, negative: bool, digits: string)
    requires |name| >= 1 && forall k :: 0 <= k < |name| ==> IsWordChar(name[k])
    requires IsSpace(sep)
    requires |digits| >= 1 && AllDigits(digits)
    ensures var a := |name| + 1;
      RegisterLayout("$" + name + [sep] + (if negative then "-" else "") + digits,
        a, a + 1, if negative then a + 2 else a + 1, negative, name, digits)
  {
    var named := "$" + name;
    var spaced := named + [sep];
    var head := spaced + (if negative then "-" else "");
    var s := head + digits;
    var a := |named|;
    var c := |head|;
    forall k | 1 <= k < a
      ensures s[k] == name[k - 1] && IsWordChar(s[k])
    {
      assert s[k] == head[k] == spaced[k] == named[k];
    }
    assert s[1..a] == name;
    TailOfConcat(head, digits);
    forall k | c <= k < |s|
      ensures IsDigit(s[k])
    {
      assert s[k] == s[c..|s|][k - c];
    }
    assert s[0] == named[0] == '$';
    assert s[a] == spaced[a] == sep;
    assert s[a + 1] == if negative then '-' else digits[0];
  }

  /** `$<name>`, a separator, `[-]<digits>` matches at its start with the name and the signed value of the digits. */
  lemma SignedLineMatches(name: string, sep: char, negative: bool, digits: string)
    requires |name| >= 1 && forall k :: 0 <= k < |name| ==> IsWordChar(name[k])
    requires IsSpace(sep)
    requires |digits| >= 1 && AllDigits(digits)
    ensures RegisterMatchAt("$" + name + [sep] + (if negative then "-" else "") + digits, 0)
      == Some(RegisterReading("$" + name, if negative then -(DigitsValue(digits) as int) else DigitsValue(digits)))
  {
    var a := |name| + 1;
    SignedLineLayout(name, sep, negative, digits);
    RegisterMatchRuns("$" + name + [sep] + (if negative then "-" else "") + digits, a, a + 1,
      if negative then a + 2 else a + 1, negative, name, digits);
  }

  /**
   * A register printed as `$<name>`, one whitespace character and its value
   * in decimal (MARS uses a space, the trace serialiser a tab) reads back as
   * that register and value.
   */
  lemma RegisterLineReads(name: string, sep: char, v: int)
    requires |name| >= 1 && forall k :: 0 <= k < |name| ==> IsWordChar(name[k])
    requires IsSpace(sep)
    ensures RegisterSearch("$" + name + [sep] + IntToDecimal(v), 0) == Some(RegisterReading("$" + name, v))
  {
    var magnitude: nat := if v < 0 then -v else v;
    var digits := NatToDecimal(magnitude);
    assert "$" + name + [sep] + IntToDecimal(v) == "$" + name + [sep] + (if v < 0 then "-" else "") + digits;
    SignedLineMatches(name, sep, v < 0, digits);
    DecimalRoundTrip(magnitude);
  }

  /** The registers set by the lines read so far: each match sets its register, a later line overwriting an earlier one. */
  function RegistersFrom(lines: seq<string>): Dict<string, int> {
    if |lines| == 0 then []
    else
      var registers := RegistersFrom(lines[..|lines| - 1]);
      match RegisterSearch(lines[|lines| - 1], 0)
      case Some(m) => Put(registers, m.name, m.value)
      case None => registers
  }

  /** The value the last line naming register `name` gives it. */
  function LastReading(lines: seq<string>, name: string): Option<int> {
    if |lines| == 0 then None
    else match RegisterSearch(lines[|lines| - 1], 0)
      case Some(m) => if m.name == name then Some(m.value) else LastReading(lines[..|lines| - 1], name)
      case None => LastReading(lines[..|lines| - 1], name)
  }

  /** Every register holds what the last line naming it says, and registers no line names are absent. */
  lemma {:induction false} RegistersFromReadsLast(lines: seq<string>, name: string)
    ensures Get(RegistersFrom(lines), name) == LastReading(lines, name)
  {
    if |lines| > 0 {
      RegistersFromReadsLast(lines[..|lines| - 1], name);
      match RegisterSearch(lines[|lines| - 1], 0)
      case Some(m) => GetPut(RegistersFrom(lines[..|lines| - 1]), m.name, m.value, name);
      case None =>
    }
  }

  /** `parse_registers`. */
  method ParseRegisters(stdout: string) returns (registers: Dict<string, int>)
    ensures registers == RegistersFrom(StrippedLines(stdout))
  {
    var lines := StrippedLines(stdout);
    registers := [];
    for i := 0 to |lines|
      invariant registers == RegistersFrom(lines[..i])
    {
      assert lines[..i + 1][..i] == lines[..i];
      var found := RegisterSearch(lines[i], 0);
      if found.Some? {
        registers := Put(registers, found.value.name, found.value.value);
      }
    }
    assert lines[..|lines|] == lines;
  }

  // ---------------------------------------------------------------------
  // Memory dumps
  // ---------------------------------------------------------------------

  /** What a dump line is: skipped (blank, or not hexadecimal), a word, or a `0x` line `int` rejects. */
  datatype DumpLine = Skip | Word(value: int) | Malformed

  /**
   * One line: a stripped line with the `0x` prefix goes to `int(line, 16)`,
   * which raises on bad digits; any other line is a word only if it is
   * entirely hexadecimal digits.
   */
  function ClassifyLine(raw: string): DumpLine {
    var line := Strip(raw);
    if line == "" then Skip
    else if StartsWith(line, "0x") then
      match ParseHexToken(line)
      case Some(v) => Word(v)
      case None => Malformed
    else if AllHexDigits(line) then Word(HexDigitsValue(line))
    else Skip
  }

  /** The message of the `ValueError` a malformed `0x` line raises. */
  const MalformedHex: string := "invalid literal for int() with base 16"

  /** The words of classified lines, in order, or the error of the first malformed line. */
  function KindWords(kinds: seq<DumpLine>): Result<seq<int>> {
    if |kinds| == 0 then Ok([])
    else match KindWords(kinds[..|kinds| - 1])
      case Err(e) => Err(e)
      case Ok(words) =>
        match kinds[|kinds| - 1]
        case Skip => Ok(words)
        case Word(v) => Ok(words + [v])
        case Malformed => Err(MalformedHex)
  }

  function LineKinds(lines: seq<string>): (r: seq<DumpLine>)
    ensures |r| == |lines|
  {
    seq(|lines|, i requires 0 <= i < |lines| => ClassifyLine(lines[i]))
  }

  /** The words of the lines, in order, or the error of a malformed line. */
  function DumpWords(lines: seq<string>): Result<seq<int>> {
    KindWords(LineKinds(lines))
  }

  /** The address of slot `k` from `start`, each slot `wordSize` bytes. */
  function SlotAddress(start: nat, k: nat, wordSize: nat): nat
    decreases k
  {
    if k == 0 then start else SlotAddress(start, k - 1, wordSize) + wordSize
  }

  /** Slot `k` is `k` words past the start. */
  lemma {:induction false} SlotAddressValue(start: nat, k: nat, wordSize: nat)
    ensures SlotAddress(start, k, wordSize) == start + k * wordSize
    decreases k
  {
    if k > 0 {
      SlotAddressValue(start, k - 1, wordSize);
    }
  }

  /** Word `k` of a dump occupies the `k`-th slot from `start`. */
  function WordBlocks(words: seq<int>, start: nat, wordSize: nat): (r: seq<MemoryBlock>)
    ensures |r| == |words|
  {
    if |words| == 0 then []
    else
      var n := |words| - 1;
      WordBlocks(words[..n], start, wordSize) + [MemoryBlock(SlotAddress(start, n, wordSize), wordSize, Some(words[n]), None, None)]
  }

  /** `parse_memory_dump`: skipped lines take no address; a malformed `0x` line aborts the parse. */
  method ParseMemoryDump(dump: string, startAddress: nat, wordSize: nat) returns (r: Result<seq<MemoryBlock>>)
    ensures DumpWords(StrippedLines(dump)).Ok? ==> r == Ok(WordBlocks(DumpWords(StrippedLines(dump)).value, startAddress, wordSize))
    ensures DumpWords(StrippedLines(dump)).Err? ==> r == Err(DumpWords(StrippedLines(dump)).message)
  {
    var lines := StrippedLines(dump);
    r := DumpBlocks(lines, startAddress, wordSize);
  }

  /** The loop of `parse_memory_dump` over the stripped lines, with a running address. */
  method DumpBlocks(lines: seq<string>, startAddress: nat, wordSize: nat) returns (r: Result<seq<MemoryBlock>>)
    ensures DumpWords(lines).Ok? ==> r == Ok(WordBlocks(DumpWords(lines).value, startAddress, wordSize))
    ensures DumpWords(lines).Err? ==> r == Err(DumpWords(lines).message)
  {
    ghost var kinds := LineKinds(lines);
    var blocks: seq<MemoryBlock> := [];
    ghost var words: seq<int> := [];
    var address := startAddress;
    for i := 0 to |lines|
      invariant KindWords(kinds[..i]) == Ok(words)
      invariant blocks == WordBlocks(words, startAddress, wordSize)
      invariant address == SlotAddress(startAddress, |words|, wordSize)
    {
      var kind := ReadDumpLine(lines[i]);
      KindWordsStep(kinds, i, words);
      if kind.Malformed? {
        MalformedAborts(kinds, i + 1);
        assert DumpWords(lines) == Err(MalformedHex);
        return Err(MalformedHex);
      }
      if kind.Word? {
        WordBlocksAppend(words, kind.value, startAddress, wordSize);
        blocks := blocks + [MemoryBlock(address, wordSize, Some(kind.value), None, None)];
        words := words + [kind.value];
        address := address + wordSize;
      }
    }
    assert kinds[..|lines|] == kinds;
    assert DumpWords(lines) == Ok(words);
    r := Ok(blocks);
  }

  /** One turn of the loop: strip the line, then `int(line, 16)` or the hexadecimal pattern. */
  method ReadDumpLine(raw: string) returns (kind: DumpLine)
    ensures kind == ClassifyLine(raw)
  {
    var line := Strip(raw);
    if line == "" {
      kind := Skip;
    } else if StartsWith(line, "0x") {
      var parsed := ParseHexToken(line);
      kind := if parsed.Some? then Word(parsed.value) else Malformed;
    } else if AllHexDigits(line) {
      kind := Word(HexDigitsValue(line));
    } else {
      kind := Skip;
    }
  }

  /** Reading one more line. */
  lemma KindWordsStep(kinds: seq<DumpLine>, i: nat, words: seq<int>)
    requires i < |kinds| && KindWords(kinds[..i]) == Ok(words)
    ensures kinds[i].Skip? ==> KindWords(kinds[..i + 1]) == Ok(words)
    ensures kinds[i].Word? ==> KindWords(kinds[..i + 1]) == Ok(words + [kinds[i].value])
    ensures kinds[i].Malformed? ==> KindWords(kinds[..i + 1]) == Err(MalformedHex)
  {
    assert kinds[..i + 1][..i] == kinds[..i];
  }

  /** One more word takes the next slot. */
  lemma WordBlocksAppend(words: seq<int>, v: int, start: nat, wordSize: nat)
    ensures WordBlocks(words + [v], start, wordSize)
      == WordBlocks(words, start, wordSize) + [MemoryBlock(SlotAddress(start, |words|, wordSize), wordSize, Some(v), None, None)]
  {
    assert (words + [v])[..|words|] == words;
  }

  /** Once a malformed line is read, the whole parse fails. */
  lemma {:induction false} MalformedAborts(kinds: seq<DumpLine>, i: nat)
    requires 1 <= i <= |kinds| && KindWords(kinds[..i]).Err?
    ensures KindWords(kinds).Err? && KindWords(kinds).message == KindWords(kinds[..i]).message
    decreases |kinds| - i
  {
    if i < |kinds| {
      assert kinds[..i + 1][..i] == kinds[..i];
      MalformedAborts(kinds, i + 1);
    } else {
      assert kinds[..i] == kinds;
    }
  }

  /** A HexText line, eight hexadecimal digits, is a word. */
  lemma HexLineIsWord(w: nat)
    ensures ClassifyLine(FormatHex(w, 8, false)) == Word(w)
  {
    var h := FormatHex(w, 8, false);
    FormatHexDigits(w, 8, false);
    FormatHexValue(w, 8, false);
    HexDigitNotSpace(h[0]);
    HexDigitNotSpace(h[|h| - 1]);
    StripIdentity(h);
    assert !StartsWith(h, "0x") by {
      assert IsHexDigit(h[1]);
      assert h[..2][1] == h[1];
    }
  }

  /** Lines that are all words give exactly those words. */
  lemma {:induction false} WordKinds(kinds: seq<DumpLine>, words: seq<int>)
    requires |kinds| == |words|
    requires forall k :: 0 <= k < |kinds| ==> kinds[k] == Word(words[k])
    ensures KindWords(kinds) == Ok(words)
    decreases |kinds|
  {
    if |kinds| > 0 {
      var n := |kinds| - 1;
      WordKinds(kinds[..n], words[..n]);
      assert words == words[..n] + [words[n]];
    }
  }

  /** A HexText dump MARS writes reads back as exactly its words, so it parses into one block per word. */
  lemma HexDumpWords(words: seq<nat>)
    ensures DumpWords(StrippedLines(Join(HexText(words), "\n"))) == Ok(words)
  {
    var lines := HexText(words);
    if |words| == 0 {
      assert Join(lines, "\n") == "";
      assert StrippedLines("") == [""];
      StripIdentity("");
      assert LineKinds([""]) == [Skip];
      assert [Skip][..0] == [];
    } else {
      HexTextLines(words);
      forall k | 0 <= k < |lines|
        ensures LineKinds(lines)[k] == Word(words[k])
      {
        HexLineIsWord(words[k]);
      }
      WordKinds(LineKinds(lines), words);
    }
  }

  // ---------------------------------------------------------------------
  // The address map of a dump
  // ---------------------------------------------------------------------

  /**
   * `{b.address: b.value for b in blocks if b.value is not None}`. The
   * bindings are kept in order; `Get` reads the last binding of an address,
   * which is the value the comprehension leaves.
   */
  function MemMap(blocks: seq<MemoryBlock>): Dict<int, int> {
    if |blocks| == 0 then []
    else
      var last := blocks[|blocks| - 1];
      MemMap(blocks[..|blocks| - 1]) + (if last.value.Some? then [(last.address as int, last.value.value)] else [])
  }

  /** In the map of a dump, the address of slot `k` holds word `k`. */
  lemma {:induction false} WordBlocksMap(words: seq<int>, start: nat, wordSize: nat, k: nat)
    requires wordSize > 0 && k < |words|
    ensures Get(MemMap(WordBlocks(words, start, wordSize)), SlotAddress(start, k, wordSize)) == Some(words[k])
    decreases |words|
  {
    var n := |words| - 1;
    var blocks := WordBlocks(words, start, wordSize);
    assert blocks[..n] == WordBlocks(words[..n], start, wordSize);
    var front := MemMap(blocks[..n]);
    assert MemMap(blocks) == front + [(SlotAddress(start, n, wordSize) as int, words[n])];
    if k < n {
      WordBlocksMap(words[..n], start, wordSize, k);
      SlotAddressValue(start, k, wordSize);
      SlotAddressValue(start, n, wordSize);
      SlotsIncrease(start, k, n, wordSize);
      assert (front + [(SlotAddress(start, n, wordSize) as int, words[n])])[..|front|] == front;
    }
  }

  /** Later slots have higher addresses. */
  lemma {:induction false} SlotsIncrease(start: nat, k: nat, n: nat, wordSize: nat)
    requires wordSize > 0 && k < n
    ensures SlotAddress(start, k, wordSize) < SlotAddress(start, n, wordSize)
    decreases n
  {
    if k < n - 1 {
      SlotsIncrease(start, k, n - 1, wordSize);
    }
  }

  /** `extract_heap_bounds`: the words at offsets 12 and 16 of `.data`, 0 when missing. */
  function ExtractHeapBounds(dataBlocks: seq<MemoryBlock>, dataStart: int): (int, int) {
    var mem := MemMap(dataBlocks);
    (GetOr(mem, dataStart + 12, 0), GetOr(mem, dataStart + 16, 0))
  }

  /** On a dump of `.data`, the heap bounds are its fourth and fifth words. */
  lemma HeapBoundsOfDump(words: seq<int>, dataStart: nat)
    requires |words| >= 5
    ensures ExtractHeapBounds(WordBlocks(words, dataStart, 4), dataStart) == (words[3], words[4])
  {
    WordBlocksMap(words, dataStart, 4, 3);
    WordBlocksMap(words, dataStart, 4, 4);
    SlotAddressValue(dataStart, 3, 4);
    SlotAddressValue(dataStart, 4, 4);
  }

  /** A dump with neither word gives the "not initialised" bounds (0, 0). */
  lemma HeapBoundsMissing(dataBlocks: seq<MemoryBlock>, dataStart: int)
    requires Get(MemMap(dataBlocks), dataStart + 12).None? && Get(MemMap(dataBlocks), dataStart + 16).None?
    ensures ExtractHeapBounds(dataBlocks, dataStart) == (0, 0)
  {
  }

  // ---------------------------------------------------------------------
  // The heap walk
  // ---------------------------------------------------------------------

  datatype ParsedHeapBlock = ParsedHeapBlock(address: nat, size: nat, isAllocated: bool, nextPtr: int)

  /**
   * The blocks from `current` on: a header is read while the cursor is below
   * `heapEnd`, the walk stops at a missing or non-positive size, and the
   * cursor advances by the size, so it strictly increases and the walk ends.
   */
  function HeapWalk(mem: Dict<int, int>, current: nat, heapEnd: int): seq<ParsedHeapBlock>
    decreases heapEnd - current
  {
    if current >= heapEnd then []
    else match Get(mem, current + OffsetSize)
      case None => []
      case Some(size) =>
        if size <= 0 then []
        else
          var flag := Get(mem, current + OffsetAllocated);
          var block := ParsedHeapBlock(current, size, flag.Some? && flag.value != 0, GetOr(mem, current + OffsetNext, 0));
          [block] + HeapWalk(mem, current + size, heapEnd)
  }

  /**
   * Every block has a positive size read from its header and lies in
   * `[current, heapEnd)`; the first starts at `current` and each next one
   * where the previous one ends.
   */
  lemma {:induction false} HeapWalkShape(mem: Dict<int, int>, current: nat, heapEnd: int)
    ensures var r := HeapWalk(mem, current, heapEnd);
      (forall k :: 0 <= k < |r| ==>
        r[k].size > 0 && current <= r[k].address < heapEnd && Get(mem, r[k].address + OffsetSize) == Some(r[k].size as int))
      && (|r| > 0 ==> r[0].address == current)
      && (forall k :: 0 <= k < |r| - 1 ==> r[k + 1].address == r[k].address + r[k].size)
    decreases heapEnd - current
  {
    var r := HeapWalk(mem, current, heapEnd);
    if |r| > 0 {
      var size := Get(mem, current + OffsetSize).value;
      var rest := HeapWalk(mem, current + size, heapEnd);
      HeapWalkShape(mem, current + size, heapEnd);
      assert r == [r[0]] + rest;
      assert forall k :: 1 <= k < |r| ==> r[k] == rest[k - 1];
    }
  }

  /** One header read by the walk. */
  lemma HeapWalkStep(mem: Dict<int, int>, current: nat, heapEnd: int)
    requires current < heapEnd
    ensures var size := Get(mem, current + OffsetSize);
      size.None? || size.value <= 0 ==> HeapWalk(mem, current, heapEnd) == []
    ensures var size := Get(mem, current + OffsetSize);
      var flag := Get(mem, current + OffsetAllocated);
      size.Some? && size.value > 0 ==>
        HeapWalk(mem, current, heapEnd)
        == [ParsedHeapBlock(current, size.value, flag.Some? && flag.value != 0, GetOr(mem, current + OffsetNext, 0))]
           + HeapWalk(mem, current + size.value, heapEnd)
  {
  }

  /** Block addresses strictly increase along the walk. */
  lemma {:induction false} HeapWalkIncreasing(mem: Dict<int, int>, current: nat, heapEnd: int, i: nat, j: nat)
    requires i < j < |HeapWalk(mem, current, heapEnd)|
    ensures HeapWalk(mem, current, heapEnd)[i].address < HeapWalk(mem, current, heapEnd)[j].address
    decreases j - i
  {
    var r := HeapWalk(mem, current, heapEnd);
    HeapWalkShape(mem, current, heapEnd);
    if i + 1 < j {
      HeapWalkIncreasing(mem, current, heapEnd, i + 1, j);
    }
    assert r[i + 1].address == r[i].address + r[i].size;
  }

  /** The header fields of each block are the words stored after its address. */
  lemma {:induction false} HeapWalkFlags(mem: Dict<int, int>, current: nat, heapEnd: int, k: nat)
    requires k < |HeapWalk(mem, current, heapEnd)|
    ensures var b := HeapWalk(mem, current, heapEnd)[k];
      (b.isAllocated <==> Get(mem, b.address + OffsetAllocated).Some? && Get(mem, b.address + OffsetAllocated).value != 0)
      && b.nextPtr == GetOr(mem, b.address + OffsetNext, 0)
    decreases heapEnd - current
  {
    if k > 0 {
      var size := Get(mem, current + OffsetSize).value;
      HeapWalkFlags(mem, current + size, heapEnd, k - 1);
    }
  }

  /** The parsed blocks of a heap dump: none for an empty dump, otherwise the walk from `heapStart`. */
  function ParsedHeap(memoryBlocks: seq<MemoryBlock>, heapStart: nat, heapEnd: int): seq<ParsedHeapBlock> {
    if |memoryBlocks| == 0 then [] else HeapWalk(MemMap(memoryBlocks), heapStart, heapEnd)
  }

  /** `parse_heap_metadata`. */
  method ParseHeapMetadata(memoryBlocks: seq<MemoryBlock>, heapStart: nat, heapEnd: int) returns (blocks: seq<ParsedHeapBlock>)
    ensures blocks == ParsedHeap(memoryBlocks, heapStart, heapEnd)
  {
    if |memoryBlocks| == 0 {
      return [];
    }
    var mem := MemMap(memoryBlocks);
    blocks := WalkHeap(mem, heapStart, heapEnd);
  }

  /** The `while current < heap_end` loop of `parse_heap_metadata`. */
  method WalkHeap(mem: Dict<int, int>, heapStart: nat, heapEnd: int) returns (blocks: seq<ParsedHeapBlock>)
    ensures blocks == HeapWalk(mem, heapStart, heapEnd)
  {
    blocks := [];
    var current := heapStart;
    while current < heapEnd
      invariant HeapWalk(mem, heapStart, heapEnd) == blocks + HeapWalk(mem, current, heapEnd)
      decreases heapEnd - current
    {
      var size := Get(mem, current + OffsetSize);
      var flag := Get(mem, current + OffsetAllocated);
      var nextPtr := Get(mem, current + OffsetNext);
      HeapWalkStep(mem, current, heapEnd);
      if size.None? || size.value <= 0 {
        break;
      }
      var block := ParsedHeapBlock(current, size.value, if flag.Some? then flag.value != 0 else false,
        if nextPtr.Some? && nextPtr.value != 0 then nextPtr.value else 0);
      AppendAssociates(blocks, block, HeapWalk(mem, current + size.value, heapEnd));
      blocks := blocks + [block];
      current := current + size.value;
    }
    assert blocks + [] == blocks;
  }

  lemma AppendAssociates<T>(front: seq<T>, x: T, rest: seq<T>)
    ensures front + ([x] + rest) == (front + [x]) + rest
  {
  }

  // ---------------------------------------------------------------------
  // The heap state
  // ---------------------------------------------------------------------

  /** The free-list entry of a free block: its user area after the header. */
  function FreeEntry(b: ParsedHeapBlock): (f: FreeBlock)
    ensures f.address == b.address + HeaderSize
    ensures f.size + HeaderSize >= b.size && f.size <= b.size
  {
    FreeBlock(b.address + HeaderSize, if b.size >= HeaderSize then b.size - HeaderSize else 0)
  }

  /** The free entries of the blocks that are not allocated, in order. */
  function FreeList(parsed: seq<ParsedHeapBlock>): (r: seq<FreeBlock>)
    ensures |r| <= |parsed|
  {
    if |parsed| == 0 then []
    else
      var last := parsed[|parsed| - 1];
      FreeList(parsed[..|parsed| - 1]) + (if last.isAllocated then [] else [FreeEntry(last)])
  }

  /** The free list holds exactly the entries of the unallocated blocks. */
  lemma {:induction false} FreeListMembers(parsed: seq<ParsedHeapBlock>, f: FreeBlock)
    ensures f in FreeList(parsed) <==> exists b :: b in parsed && !b.isAllocated && f == FreeEntry(b)
  {
    if |parsed| > 0 {
      var front := parsed[..|parsed| - 1];
      var last := parsed[|parsed| - 1];
      FreeListMembers(front, f);
      assert parsed == front + [last];
      if f in FreeList(front) {
        var b :| b in front && !b.isAllocated && f == FreeEntry(b);
        assert b in parsed;
      }
      if exists b :: b in parsed && !b.isAllocated && f == FreeEntry(b) {
        var b :| b in parsed && !b.isAllocated && f == FreeEntry(b);
        if b != last {
          assert b in front;
        }
      }
    }
  }

  function SizeSum(free: seq<FreeBlock>): nat {
    if |free| == 0 then 0 else SizeSum(free[..|free| - 1]) + free[|free| - 1].size
  }

  /** `max(b.size for b in free)`. */
  function LargestSize(free: seq<FreeBlock>): (r: nat)
    requires |free| > 0
    ensures forall k :: 0 <= k < |free| ==> free[k].size <= r
    ensures exists k :: 0 <= k < |free| && free[k].size == r
  {
    if |free| == 1 then free[0].size
    else
      var front := LargestSize(free[..|free| - 1]);
      var last := free[|free| - 1].size;
      if front >= last then front else last
  }

  /** No single size exceeds the total. */
  lemma {:induction false} SizeAtMostSum(free: seq<FreeBlock>, k: nat)
    requires k < |free|
    ensures free[k].size <= SizeSum(free)
    decreases |free|
  {
    if k < |free| - 1 {
      SizeAtMostSum(free[..|free| - 1], k);
    }
  }

  /** `_calculate_fragmentation`: the share of free bytes outside the largest free block, as a percentage. */
  function Fragmentation(free: seq<FreeBlock>): (r: real)
    ensures 0.0 <= r <= 100.0
  {
    if |free| <= 1 then 0.0
    else
      var total := SizeSum(free);
      if total == 0 then 0.0
      else
        var largest := LargestSize(free);
        var k :| 0 <= k < |free| && free[k].size == largest;
        SizeAtMostSum(free, k);
        Percentage(total - largest, total)
  }

  /** `part / whole * 100` for `0 <= part <= whole`, `whole > 0`. */
  function Percentage(part: nat, whole: nat): (r: real)
    requires 0 < whole && part <= whole
    ensures 0.0 <= r <= 100.0
    ensures r == 0.0 <==> part == 0
  {
    var q := part as real / whole as real;
    assert q * whole as real == part as real;
    q * 100.0
  }

  /** Fragmentation is 0 exactly when there are fewer than two free blocks, no free bytes, or all of them in one block. */
  lemma FragmentationZero(free: seq<FreeBlock>)
    ensures Fragmentation(free) == 0.0 <==> |free| <= 1 || SizeSum(free) == 0 || LargestSize(free) == SizeSum(free)
  {
  }

  /** The block list of the heap state: block `k` carries the address, size and flag of parsed block `k`. */
  function HeapBlocks(parsed: seq<ParsedHeapBlock>): (r: seq<HeapBlock>)
    ensures |r| == |parsed|
    ensures forall k :: 0 <= k < |r| ==> r[k] == HeapBlock(parsed[k].address, parsed[k].size, parsed[k].isAllocated)
  {
    if |parsed| == 0 then []
    else
      var last := parsed[|parsed| - 1];
      HeapBlocks(parsed[..|parsed| - 1]) + [HeapBlock(last.address, last.size, last.isAllocated)]
  }

  /** The heap state `build_heap_state` assembles from parsed blocks. */
  function HeapStateOf(parsed: seq<ParsedHeapBlock>): (r: HeapState)
    ensures ValidHeapState(r)
  {
    var free := FreeList(parsed);
    HeapState(HeapBlocks(parsed), free, Fragmentation(free))
  }

  /** `build_heap_state`: the blocks in order, the free list of the unallocated ones, and the fragmentation. */
  method BuildHeapState(memoryBlocks: seq<MemoryBlock>, heapStart: nat, heapEnd: int) returns (state: HeapState)
    ensures state == HeapStateOf(ParsedHeap(memoryBlocks, heapStart, heapEnd))
  {
    var parsed := ParseHeapMetadata(memoryBlocks, heapStart, heapEnd);
    state := AssembleHeapState(parsed);
  }

  /** The loop of `build_heap_state` over the parsed blocks. */
  method AssembleHeapState(parsed: seq<ParsedHeapBlock>) returns (state: HeapState)
    ensures state == HeapStateOf(parsed)
  {
    var heapBlocks: seq<HeapBlock> := [];
    var freeBlocks: seq<FreeBlock> := [];
    for i := 0 to |parsed|
      invariant heapBlocks == HeapBlocks(parsed[..i])
      invariant freeBlocks == FreeList(parsed[..i])
    {
      var pb := parsed[i];
      assert parsed[..i + 1][..i] == parsed[..i];
      heapBlocks := heapBlocks + [HeapBlock(pb.address, pb.size, pb.isAllocated)];
      if !pb.isAllocated {
        var userSize := if pb.size >= HeaderSize then pb.size - HeaderSize else 0;
        freeBlocks := freeBlocks + [FreeBlock(pb.address + HeaderSize, userSize)];
      }
    }
    assert parsed[..|parsed|] == parsed;
    var fragmentation := Fragmentation(freeBlocks);
    state := HeapState(heapBlocks, freeBlocks, fragmentation);
  }
}
