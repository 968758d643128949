/**
 * The records of the CAVL API: heap, memory, register and execution state,
 * and the request bodies whose field constraints the API enforces. A field
 * constrained to be non-negative has type `nat`; the remaining constraints
 * are predicates or validating constructors that return an error.
 */
module Schemas {
  import opened Wrappers
  import opened Dict

  // ---------------------------------------------------------------------
  // Heap
  // ---------------------------------------------------------------------

  datatype HeapMeta = HeapMeta(isAllocated: bool, blockSize: nat)

  datatype FreeBlock = FreeBlock(address: nat, size: nat)

  datatype HeapBlock = HeapBlock(address: nat, size: nat, isAllocated: bool)

  /** `fragmentation` is a percentage; `ValidHeapState` is its range constraint. */
  datatype HeapState = HeapState(blocks: seq<HeapBlock>, freeList: seq<FreeBlock>, fragmentation: real)

  predicate ValidHeapState(h: HeapState) {
    0.0 <= h.fragmentation <= 100.0
  }

  /** `HeapState()` with every field at its default. */
  const EmptyHeap: HeapState := HeapState([], [], 0.0)

  // ---------------------------------------------------------------------
  // Memory
  // ---------------------------------------------------------------------

  datatype MemoryBlock = MemoryBlock(
    address: nat,
    size: nat,
    value: Option<int>,
    meta: Option<HeapMeta>,
    blockLabel: Option<string>)

  datatype MemorySegment = MemorySegment(startAddress: nat, endAddress: nat, blocks: seq<MemoryBlock>)

  datatype MemoryState = MemoryState(text: MemorySegment, data: MemorySegment, heap: MemorySegment, stack: MemorySegment)

  // ---------------------------------------------------------------------
  // Registers
  // ---------------------------------------------------------------------

  /** The 32 general-purpose register names, in register-number order. */
  const MipsRegisters: seq<string> := [
    "$zero", "$at", "$v0", "$v1", "$a0", "$a1", "$a2", "$a3",
    "$t0", "$t1", "$t2", "$t3", "$t4", "$t5", "$t6", "$t7",
    "$s0", "$s1", "$s2", "$s3", "$s4", "$s5", "$s6", "$s7",
    "$t8", "$t9", "$k0", "$k1", "$gp", "$sp", "$fp", "$ra"]

  /** The position of a register name in `MipsRegisters`. */
  function RegisterIndex(name: string): (r: Option<nat>)
    ensures r.Some? ==> r.value < 32 && MipsRegisters[r.value] == name
    ensures r.None? ==> name !in MipsRegisters
  {
    IndexOf(MipsRegisters, name, 0)
  }

  function IndexOf(names: seq<string>, name: string, from: nat): (r: Option<nat>)
    requires from <= |names|
    ensures r.Some? ==> from <= r.value < |names| && names[r.value] == name
    ensures r.None? ==> name !in names[from..]
    decreases |names| - from
  {
    if from == |names| then None
    else if names[from] == name then Some(from)
    else IndexOf(names, name, from + 1)
  }

  /** The table has 32 names, `$zero` first and `$ra` last, and no name twice. */
  lemma MipsRegistersDistinct()
    ensures |MipsRegisters| == 32
    ensures MipsRegisters[0] == "$zero" && MipsRegisters[31] == "$ra"
    ensures forall i, j :: 0 <= i < j < |MipsRegisters| ==> MipsRegisters[i] != MipsRegisters[j]
  {
  }

  /** `RegisterState.values`: register name to value, in insertion order. */
  type Registers = Dict<string, int>

  /** `{name: f(name) for name in names}`. */
  function MapNames(names: seq<string>, f: string -> int): (r: Registers)
    ensures Keys(r) == names
    ensures forall i :: 0 <= i < |names| ==> r[i] == (names[i], f(names[i]))
  {
    if |names| == 0 then [] else MapNames(names[..|names| - 1], f) + [(names[|names| - 1], f(names[|names| - 1]))]
  }

  /** A register file built over the table names each register once. */
  lemma MapRegistersDistinct(f: string -> int)
    ensures Keys(MapNames(MipsRegisters, f)) == MipsRegisters && DistinctKeys(MapNames(MipsRegisters, f))
  {
    var r := MapNames(MipsRegisters, f);
    MipsRegistersDistinct();
    forall i, j | 0 <= i < j < |r|
      ensures r[i].0 != r[j].0
    {
      assert r[i].0 == MipsRegisters[i] && r[j].0 == MipsRegisters[j];
    }
  }

  /** `RegisterState.create_initial()`: every register named once, every value zero. */
  function CreateInitialRegisters(): (r: Registers)
    ensures Keys(r) == MipsRegisters && DistinctKeys(r)
    ensures forall i :: 0 <= i < |r| ==> r[i].1 == 0
  {
    MapRegistersDistinct(_ => 0);
    MapNames(MipsRegisters, _ => 0)
  }

  /** A register counts as changed when its two values differ; a missing register reads 0. */
  predicate ValueChanged(prev: Registers, curr: Registers, name: string) {
    GetOr(prev, name, 0) != GetOr(curr, name, 0)
  }

  /**
   * The names among `names`, kept in their order, that are not `skip` and whose
   * values differ between two register files.
   */
  function Differing(names: seq<string>, skip: Option<string>, prev: Registers, curr: Registers): (r: seq<string>)
    ensures |r| <= |names|
  {
    if |names| == 0 then []
    else
      var last := names[|names| - 1];
      Differing(names[..|names| - 1], skip, prev, curr)
        + (if skip != Some(last) && ValueChanged(prev, curr, last) then [last] else [])
  }

  /** A name is reported exactly when it is listed, is not skipped and its two values differ. */
  lemma {:induction false} DifferingMembers(names: seq<string>, skip: Option<string>, prev: Registers, curr: Registers, x: string)
    ensures x in Differing(names, skip, prev, curr) <==> x in names && skip != Some(x) && ValueChanged(prev, curr, x)
  {
    if |names| > 0 {
      DifferingMembers(names[..|names| - 1], skip, prev, curr, x);
      assert names == names[..|names| - 1] + [names[|names| - 1]];
    }
  }

  /** Comparing a register file with itself reports nothing. */
  lemma {:induction false} DifferingSelf(names: seq<string>, skip: Option<string>, regs: Registers)
    ensures Differing(names, skip, regs, regs) == []
  {
    if |names| > 0 {
      DifferingSelf(names[..|names| - 1], skip, regs);
    }
  }

  /**
   * The loop shared by the three change detectors: walk `names` in order,
   * pass over `skip`, and collect each name whose value differs.
   */
  method CollectChanged(names: seq<string>, skip: Option<string>, prev: Registers, curr: Registers)
    returns (changed: seq<string>)
    ensures changed == Differing(names, skip, prev, curr)
    ensures forall x :: x in changed <==> x in names && skip != Some(x) && ValueChanged(prev, curr, x)
  {
    changed := [];
    var i := 0;
    while i < |names|
      invariant 0 <= i <= |names|
      invariant changed == Differing(names[..i], skip, prev, curr)
    {
      var reg := names[i];
      assert names[..i + 1][..i] == names[..i];
      if skip != Some(reg) {
        var prevVal := GetOr(prev, reg, 0);
        var currVal := GetOr(curr, reg, 0);
        if prevVal != currVal {
          changed := changed + [reg];
        }
      }
      i := i + 1;
    }
    assert names[..i] == names;
    forall x
      ensures x in changed <==> x in names && skip != Some(x) && ValueChanged(prev, curr, x)
    {
      DifferingMembers(names, skip, prev, curr, x);
    }
  }

  // ---------------------------------------------------------------------
  // Analysis and execution state
  // ---------------------------------------------------------------------

  datatype InstructionAnalysis = InstructionAnalysis(
    rTypeCount: int,
    iTypeCount: int,
    loadCount: int,
    storeCount: int,
    branchCount: int,
    jumpCount: int,
    syscallCount: int,
    otherCount: int,
    totalAnalyzed: int,
    registerUsage: Dict<string, int>,
    analysisValid: bool)

  /** `InstructionAnalysis()` with every field at its default. */
  const DefaultAnalysis: InstructionAnalysis := InstructionAnalysis(0, 0, 0, 0, 0, 0, 0, 0, 0, [], false)

  datatype ExecutionState = ExecutionState(
    pc: nat,
    currentInstruction: string,
    registers: Registers,
    changedRegisters: seq<string>,
    memory: MemoryState,
    heap: HeapState,
    isComplete: bool,
    programOutput: string,
    instructionAnalysis: Option<InstructionAnalysis>)

  // ---------------------------------------------------------------------
  // Requests
  // ---------------------------------------------------------------------

  datatype ExecuteRequest = ExecuteRequest(code: string, mode: string)

  /**
   * Validation of `ExecuteRequest`: non-empty code, mode exactly "full" or
   * "step". A request that omits the mode gets "step", so a caller models
   * that case by passing "step".
   */
  function NewExecuteRequest(code: string, mode: string): (r: Result<ExecuteRequest>)
    ensures r.Ok? <==> |code| >= 1 && (mode == "full" || mode == "step")
    ensures r.Ok? ==> r.value == ExecuteRequest(code, mode)
  {
    if |code| < 1 then Err("code: String should have at least 1 character")
    else if mode != "full" && mode != "step" then Err("mode: String should match pattern '^(full|step)$'")
    else Ok(ExecuteRequest(code, mode))
  }

  datatype AllocateRequest = AllocateRequest(size: int)

  /** Validation of `AllocateRequest`: the size must be positive. */
  function NewAllocateRequest(size: int): (r: Result<AllocateRequest>)
    ensures r.Ok? <==> size > 0
    ensures r.Ok? ==> r.value.size == size
  {
    if size > 0 then Ok(AllocateRequest(size)) else Err("size: Input should be greater than 0")
  }

  datatype FreeRequest = FreeRequest(address: int)

  /** Validation of `FreeRequest`: the address must be non-negative. */
  function NewFreeRequest(address: int): (r: Result<FreeRequest>)
    ensures r.Ok? <==> address >= 0
    ensures r.Ok? ==> r.value.address == address
  {
    if address >= 0 then Ok(FreeRequest(address)) else Err("address: Input should be greater than or equal to 0")
  }
}
