/**
 * The single active replay session of a recorded execution trace: the trace,
 * the index of the state on show, and the snapshot of the first state that
 * `reset` restores.
 */
module StateManagement {
  import opened Wrappers
  import opened Dict
  import opened Schemas

  /** The index `step` moves to: one further, unless already at the last state. */
  function Advance(index: nat, count: nat): (r: nat)
    ensures count >= 1 && index < count ==> r < count
  {
    if count >= 1 && index < count - 1 then index + 1 else index
  }

  /** The index after `k` calls of `step` starting from `index`. */
  function AdvanceBy(index: nat, count: nat, k: nat): nat {
    if k == 0 then index else Advance(AdvanceBy(index, count, k - 1), count)
  }

  /** `k` steps after loading a trace of `count` states, the index is `min(k, count - 1)`. */
  lemma {:induction false} AdvanceFromLoad(count: nat, k: nat)
    requires count >= 1
    ensures AdvanceBy(0, count, k) == if k < count - 1 then k else count - 1
  {
    if k > 0 {
      AdvanceFromLoad(count, k - 1);
    }
  }

  /** The state `step` hands out: the new current state with the freshly computed changes. */
  function StepView(current: ExecutionState, changed: seq<string>): (r: ExecutionState)
    ensures r.pc == current.pc && r.currentInstruction == current.currentInstruction
    ensures r.registers == current.registers && r.memory == current.memory && r.heap == current.heap
    ensures r.isComplete == current.isComplete && r.changedRegisters == changed
    ensures r.programOutput == "" && r.instructionAnalysis.None?
  {
    ExecutionState(current.pc, current.currentInstruction, current.registers, changed,
                   current.memory, current.heap, current.isComplete, "", None)
  }

  /** `_detect_changed_registers`: the registers other than `$zero`, in table order, whose values differ. */
  method DetectChangedRegisters(prev: Registers, curr: Registers) returns (changed: seq<string>)
    ensures changed == Differing(MipsRegisters, Some("$zero"), prev, curr)
    ensures forall x :: x in changed <==> x in MipsRegisters && x != "$zero" && ValueChanged(prev, curr, x)
  {
    changed := CollectChanged(MipsRegisters, Some("$zero"), prev, curr);
  }

  class StateManager {
    var states: seq<ExecutionState>
    var currentIndex: nat
    var initialState: Option<ExecutionState>

    /**
     * Either nothing is loaded (no states, index 0, no snapshot) or the index
     * points into the trace and the snapshot equals the first state.
     */
    ghost predicate Valid()
      reads this
    {
      if |states| == 0 then currentIndex == 0 && initialState.None?
      else currentIndex < |states| && initialState == Some(states[0])
    }

    constructor()
      ensures Valid() && states == [] && currentIndex == 0 && initialState.None?
    {
      states := [];
      currentIndex := 0;
      initialState := None;
    }

    /** `load_trace`: an empty trace is refused; otherwise show its first state and snapshot it. */
    method LoadTrace(trace: seq<ExecutionState>) returns (err: Option<string>)
      requires Valid()
      modifies this
      ensures Valid()
      ensures |trace| == 0 ==> err == Some("Cannot load empty trace") && unchanged(this)
      ensures |trace| > 0 ==> err.None? && states == trace && currentIndex == 0
      ensures |trace| > 0 ==> initialState == Some(trace[0]) && HasTrace()
    {
      if |trace| == 0 {
        return Some("Cannot load empty trace");
      }
      states := trace;
      currentIndex := 0;
      initialState := Some(trace[0]);
      err := None;
    }

    /** `get_current_state`: the state at the index, or None with no trace. */
    function CurrentState(): (r: Option<ExecutionState>)
      requires Valid()
      reads this
      ensures r.None? <==> !HasTrace()
      ensures HasTrace() ==> r == Some(states[currentIndex])
    {
      if |states| == 0 then None else Some(states[currentIndex])
    }

    /**
     * `step`: move one state on (staying put at the last one) and return the new
     * current state, listing the registers that differ from the state left behind.
     */
    method Step() returns (r: Option<ExecutionState>)
      requires Valid()
      modifies this
      ensures Valid()
      ensures states == old(states) && initialState == old(initialState)
      ensures old(|states|) == 0 ==> r.None? && currentIndex == old(currentIndex)
      ensures old(|states|) > 0 ==> currentIndex == Advance(old(currentIndex), |states|)
      ensures old(|states|) > 0 ==>
        r == Some(StepView(states[currentIndex],
                           Differing(MipsRegisters, Some("$zero"), old(states[currentIndex]).registers,
                                     states[currentIndex].registers)))
    {
      if |states| == 0 {
        return None;
      }
      var prev := states[currentIndex];
      if currentIndex < |states| - 1 {
        currentIndex := currentIndex + 1;
      }
      var current := states[currentIndex];
      var changed := DetectChangedRegisters(prev.registers, current.registers);
      r := Some(StepView(current, changed));
    }

    /** `reset`: back to the first state, restored from the snapshot. */
    method Reset() returns (r: Option<ExecutionState>)
      requires Valid()
      modifies this
      ensures Valid()
      ensures initialState == old(initialState)
      ensures old(|states|) == 0 ==> r.None? && unchanged(this)
      ensures old(|states|) > 0 ==> currentIndex == 0 && r == Some(states[0])
      ensures old(|states|) > 0 ==> states == old(states)[0 := old(initialState).value]
      ensures states == old(states)
    {
      if |states| == 0 || initialState.None? {
        return None;
      }
      currentIndex := 0;
      states := states[0 := initialState.value];
      r := Some(states[0]);
    }

    function StepIndex(): (r: nat)
      requires Valid()
      reads this
      ensures HasTrace() ==> r < TotalSteps()
      ensures !HasTrace() ==> r == 0
    {
      currentIndex
    }

    function TotalSteps(): nat
      reads this
    {
      |states|
    }

    /** `is_complete`: with no trace, or once the last state is on show. */
    function IsComplete(): (r: bool)
      requires Valid()
      reads this
      ensures r <==> !HasTrace() || currentIndex == |states| - 1
    {
      |states| == 0 || currentIndex >= |states| - 1
    }

    function HasTrace(): bool
      reads this
    {
      |states| > 0
    }

    /** `clear`: forget the trace, the index and the snapshot. */
    method Clear()
      modifies this
      ensures Valid() && states == [] && currentIndex == 0 && initialState.None?
      ensures !HasTrace() && CurrentState().None?
    {
      states := [];
      currentIndex := 0;
      initialState := None;
    }
  }
}
