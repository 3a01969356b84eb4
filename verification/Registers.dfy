/** The register files that register packets write. */
module Registers {
  import opened Machine
  import opened PacketIr

  datatype RawState = RawState(values: seq<u32>, initialized: seq<bool>)
  type State = s: RawState | |s.values| == WINDOW && |s.initialized| == WINDOW
    witness RawState(seq(WINDOW, i => 0), seq(WINDOW, i => false))

  function EmptyState(): (s: State) {
    RawState(seq(WINDOW, i => 0), seq(WINDOW, i => false))
  }

  /** The state after a run of registers was written. */
  function Written(s: State, start: nat, values: seq<u32>): (r: State)
    requires InWindow(start, |values|)
    ensures forall k :: 0 <= k < WINDOW ==>
              && r.values[k] == (if start <= k < start + |values| then values[k - start] else s.values[k])
              && r.initialized[k] == (s.initialized[k] || start <= k < start + |values|)
  {
    if values == [] then s else
      var n := |values| - 1;
      var before := Written(s, start, values[..n]);
      RawState(before.values[start + n := values[n]], before.initialized[start + n := true])
  }

  class RegisterFile {
    const values: array<u32>
    const initialized: array<bool>

    ghost predicate Valid() {
      values.Length == WINDOW && initialized.Length == WINDOW
    }

    ghost function Contents(): (s: State)
      reads values, initialized
      requires Valid()
    {
      RawState(values[..], initialized[..])
    }

    constructor ()
      ensures Valid() && fresh(values) && fresh(initialized) && Contents() == EmptyState()
    {
      values := new u32[WINDOW](i => 0);
      initialized := new bool[WINDOW](i => false);
    }

    method Copy() returns (s: State)
      requires Valid()
      ensures s == Contents()
    {
      return RawState(values[..], initialized[..]);
    }

    /** `apply_*_register_graphics_ir`: refuses anything that is not a write to this bank's window. */
    method Apply(bank: Bank, op: Operation) returns (applied: bool)
      requires Valid()
      modifies values, initialized
      ensures applied <==> op.WriteRegisters? && op.bank == bank && InWindow(op.start, |op.values|)
      ensures Contents() == if applied then Written(old(Contents()), op.start, op.values) else old(Contents())
    {
      if !op.WriteRegisters? || op.bank != bank {
        return false;
      }
      var start, count := op.start, |op.values|;
      if start >= WINDOW || count > WINDOW - start {
        return false;
      }
      ghost var was := Contents();
      var i := 0;
      while i < count
        invariant 0 <= i <= count
        invariant Contents() == Written(was, start, op.values[..i])
      {
        assert op.values[..i + 1][..i] == op.values[..i];
        values[start + i] := op.values[i];
        initialized[start + i] := true;
        i := i + 1;
      }
      assert op.values[..count] == op.values;
      return true;
    }
  }
}
