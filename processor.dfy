/**
 * The `Processor` class of lib/gruesome/z/processor.rb: it drives a
 * `Memory` in place. Each method is proved against the function of the same
 * name in `ProcessorModel`; after an error the memory is left as the Ruby
 * code leaves it part-way through, which the model does not pin down.
 */
module ZProcessor {
  import opened Wrappers
  import opened Words
  import opened ZMemory
  import M = MemoryModel
  import P = ProcessorModel

  /** Puts `ops` in front of the operands of a successful resolution. */
  function WithOperands(ops: seq<Word>, r: M.Res<(seq<Word>, M.State)>): M.Res<(seq<Word>, M.State)>
  {
    match r
    case Ok(v) => Ok((ops + v.0, v.1))
    case Err(e) => Err(e)
  }

  lemma WithNoOperands(r: M.Res<(seq<Word>, M.State)>)
    ensures WithOperands([], r) == r
  {
    if r.Ok? {
      assert [] + r.value.0 == r.value.0;
    }
  }

  lemma WithOperandsTwice(a: seq<Word>, b: seq<Word>, r: M.Res<(seq<Word>, M.State)>)
    ensures WithOperands(a, WithOperands(b, r)) == WithOperands(a + b, r)
  {
    if r.Ok? {
      assert a + (b + r.value.0) == (a + b) + r.value.0;
    }
  }

  /** One step of the resolution: operand `idx` becomes `v` and the memory becomes `t`. */
  lemma ResolveStep(s: M.State, ins: P.Instruction, byRef: bool, idx: nat, v: Word, t: M.State)
    requires M.Valid(s) && idx < |ins.operands| && P.PopsFrom(ins, byRef, idx) <= M.OperandDepth(s)
    requires if P.Resolved(ins, byRef, idx) then M.ReadVar(s, ins.operands[idx]) == Ok((v, t))
             else v == ins.operands[idx] && t == s
    ensures M.Valid(t) && P.PopsFrom(ins, byRef, idx + 1) <= M.OperandDepth(t)
    ensures P.ResolveFrom(s, ins, byRef, idx) == WithOperands([v], P.ResolveFrom(t, ins, byRef, idx + 1))
  {
  }


  class Processor {
    const memory: Memory

    constructor (memory: Memory)
      ensures this.memory == memory
    {
      this.memory := memory;
    }

    /** `writev(destination, v)` of a storing opcode. */
    method StoreResult(dest: Option<nat>, v: int) returns (r: Outcome<M.Error>)
      requires memory.Valid()
      modifies memory, memory.bytes
      ensures memory.Valid()
      ensures r == M.OutcomeOf(P.StoreResult(old(memory.Snapshot()), dest, v))
      ensures r.Pass? ==> memory.Snapshot() == P.StoreResult(old(memory.Snapshot()), dest, v).value
    {
      if dest.None? {
        r := Fail(M.MissingDestination);
      } else {
        r := memory.WriteV(dest.value, v);
      }
    }

    method RoutineCall(address: nat, args: seq<Word>, dest: Option<nat>) returns (r: Outcome<M.Error>)
      requires memory.Valid()
      modifies memory, memory.bytes
      ensures memory.Valid()
      ensures r == M.OutcomeOf(P.RoutineCall(old(memory.Snapshot()), address, args, dest))
      ensures r.Pass? ==> memory.Snapshot() == P.RoutineCall(old(memory.Snapshot()), address, args, dest).value
    {
      if address == 0 {
        if dest.Some? {
          r := memory.WriteV(dest.value, 0);
        } else {
          r := Pass;
        }
        return;
      }
      ghost var s := memory.Snapshot();
      var returnAddr := memory.programCounter;
      memory.programCounter := address;
      var count := memory.ForceReadB(memory.programCounter);
      if count.Err? {
        r := Fail(count.error);
        return;
      }
      var n: nat := count.value;
      memory.programCounter := memory.programCounter + 1;
      memory.PushRoutine(returnAddr, n, |args|, dest);
      assert memory.Snapshot() == M.PushRoutine(s.(pc := address + 1), s.pc, n, |args|, dest);
      r := InitialiseLocals(n);
      if r.Fail? {
        return;
      }
      r := CopyArguments(args);
    }

    /** The locals loop of `routine_call`, by version. */
    method InitialiseLocals(n: nat) returns (r: Outcome<M.Error>)
      requires memory.Valid()
      modifies memory, memory.bytes
      ensures memory.Valid()
      ensures var spec := if old(memory.Snapshot()).header.version <= 4 then P.LocalsFromHeader(old(memory.Snapshot()), 1, n)
                          else P.ZeroLocals(old(memory.Snapshot()), 1, n);
              r == M.OutcomeOf(spec) && (r.Pass? ==> memory.Snapshot() == spec.value)
    {
      if memory.header.version <= 4 {
        r := LocalsFromHeader(n);
      } else {
        r := ZeroLocals(n);
      }
    }

    /** Versions 1 to 4: each local's initial value is the next word at the PC. */
    method LocalsFromHeader(n: nat) returns (r: Outcome<M.Error>)
      requires memory.Valid()
      modifies memory, memory.bytes
      ensures memory.Valid()
      ensures r == M.OutcomeOf(P.LocalsFromHeader(old(memory.Snapshot()), 1, n))
      ensures r.Pass? ==> memory.Snapshot() == P.LocalsFromHeader(old(memory.Snapshot()), 1, n).value
    {
      ghost var spec := P.LocalsFromHeader(memory.Snapshot(), 1, n);
      var i := 1;
      while i <= n
        invariant 1 <= i <= n + 1
        invariant memory.Valid()
        invariant P.LocalsFromHeader(memory.Snapshot(), i, n) == spec
        decreases n + 1 - i
      {
        var w := memory.ForceReadW(memory.programCounter);
        if w.Err? {
          r := Fail(w.error);
          return;
        }
        r := memory.WriteV(i, w.value);
        if r.Fail? {
          return;
        }
        memory.programCounter := memory.programCounter + 2;
        i := i + 1;
      }
      r := Pass;
    }

    /** Versions 5 and later: every local starts at zero. */
    method ZeroLocals(n: nat) returns (r: Outcome<M.Error>)
      requires memory.Valid()
      modifies memory, memory.bytes
      ensures memory.Valid()
      ensures r == M.OutcomeOf(P.ZeroLocals(old(memory.Snapshot()), 1, n))
      ensures r.Pass? ==> memory.Snapshot() == P.ZeroLocals(old(memory.Snapshot()), 1, n).value
    {
      ghost var spec := P.ZeroLocals(memory.Snapshot(), 1, n);
      var i := 1;
      while i <= n
        invariant 1 <= i <= n + 1
        invariant memory.Valid()
        invariant P.ZeroLocals(memory.Snapshot(), i, n) == spec
        decreases n + 1 - i
      {
        r := memory.WriteV(i, 0);
        if r.Fail? {
          return;
        }
        i := i + 1;
      }
      r := Pass;
    }

    /** The arguments loop of `routine_call`: argument k goes to local k + 1. */
    method CopyArguments(args: seq<Word>) returns (r: Outcome<M.Error>)
      requires memory.Valid()
      modifies memory, memory.bytes
      ensures memory.Valid()
      ensures r == M.OutcomeOf(P.CopyArgs(old(memory.Snapshot()), args, 1))
      ensures r.Pass? ==> memory.Snapshot() == P.CopyArgs(old(memory.Snapshot()), args, 1).value
    {
      ghost var spec := P.CopyArgs(memory.Snapshot(), args, 1);
      var k := 0;
      while k < |args|
        invariant 0 <= k <= |args|
        invariant memory.Valid()
        invariant P.CopyArgs(memory.Snapshot(), args[k..], k + 1) == spec
      {
        r := memory.WriteV(k + 1, args[k]);
        if r.Fail? {
          return;
        }
        assert args[k..][1..] == args[k + 1..];
        k := k + 1;
      }
      r := Pass;
    }

    method RoutineReturn(result: int) returns (r: Outcome<M.Error>)
      requires memory.Valid()
      modifies memory, memory.bytes
      ensures memory.Valid()
      ensures r == M.OutcomeOf(P.RoutineReturn(old(memory.Snapshot()), result))
      ensures r.Pass? ==> memory.Snapshot() == P.RoutineReturn(old(memory.Snapshot()), result).value
    {
      var frame := memory.PopRoutine();
      if frame.Err? {
        r := Fail(frame.error);
        return;
      }
      if frame.value.destination.Some? {
        r := memory.WriteV(frame.value.destination.value, result);
        if r.Fail? {
          return;
        }
      }
      memory.programCounter := frame.value.returnAddress;
      r := Pass;
    }

    method Branch(branchTo: int, branchOn: bool, result: bool) returns (r: Outcome<M.Error>)
      requires memory.Valid()
      modifies memory, memory.bytes
      ensures memory.Valid()
      ensures r == M.OutcomeOf(P.Branch(old(memory.Snapshot()), branchTo, branchOn, result))
      ensures r.Pass? ==> memory.Snapshot() == P.Branch(old(memory.Snapshot()), branchTo, branchOn, result).value
    {
      r := Pass;
      if result == branchOn {
        if branchTo == 0 {
          r := RoutineReturn(0);
        } else if branchTo == 1 {
          r := RoutineReturn(1);
        } else {
          memory.programCounter := branchTo;
        }
      }
    }

    /** The `each_with_index.map` at the top of `execute`. */
    method ResolveOperands(ins: P.Instruction, byRef: bool) returns (r: M.Res<seq<Word>>)
      requires memory.Valid() && P.PopsFrom(ins, byRef, 0) <= M.OperandDepth(memory.Snapshot())
      modifies memory
      ensures memory.Valid()
      ensures var spec := P.ResolveFrom(old(memory.Snapshot()), ins, byRef, 0);
              (spec.Ok? ==> r == Ok(spec.value.0) && memory.Snapshot() == spec.value.1) &&
              (spec.Err? ==> r == Err(spec.error))
    {
      ghost var spec := P.ResolveFrom(memory.Snapshot(), ins, byRef, 0);
      WithNoOperands(spec);
      var ops: seq<Word> := [];
      var idx := 0;
      while idx < |ins.operands|
        invariant 0 <= idx <= |ins.operands|
        invariant memory.Valid()
        invariant P.PopsFrom(ins, byRef, idx) <= M.OperandDepth(memory.Snapshot())
        invariant WithOperands(ops, P.ResolveFrom(memory.Snapshot(), ins, byRef, idx)) == spec
        decreases |ins.operands| - idx
      {
        var v := ResolveOne(ins, byRef, idx);
        if v.Err? {
          return Err(v.error);
        }
        ghost var rest := P.ResolveFrom(memory.Snapshot(), ins, byRef, idx + 1);
        WithOperandsTwice(ops, [v.value], rest);
        ops := ops + [v.value];
        idx := idx + 1;
      }
      assert ops + [] == ops;
      r := Ok(ops);
    }

    /** One operand of that map: the value of the variable it names, or the operand itself. */
    method ResolveOne(ins: P.Instruction, byRef: bool, idx: nat) returns (r: M.Res<Word>)
      requires memory.Valid() && idx < |ins.operands|
      requires P.PopsFrom(ins, byRef, idx) <= M.OperandDepth(memory.Snapshot())
      modifies memory
      ensures memory.Valid()
      ensures r.Err? ==> P.ResolveFrom(old(memory.Snapshot()), ins, byRef, idx) == Err(r.error)
      ensures r.Ok? ==> P.PopsFrom(ins, byRef, idx + 1) <= M.OperandDepth(memory.Snapshot())
      ensures r.Ok? ==> P.ResolveFrom(old(memory.Snapshot()), ins, byRef, idx) ==
                        WithOperands([r.value], P.ResolveFrom(memory.Snapshot(), ins, byRef, idx + 1))
    {
      ghost var before := memory.Snapshot();
      if P.Resolved(ins, byRef, idx) {
        r := memory.ReadV(ins.operands[idx]);
        if r.Err? {
          return;
        }
      } else {
        r := Ok(ins.operands[idx]);
      }
      ResolveStep(before, ins, byRef, idx, r.value, memory.Snapshot());
    }

    /** `execute(instruction)`; `byRef` is `Opcode.is_variable_by_reference?` for the opcode. */
    method Execute(ins: P.Instruction, byRef: bool) returns (r: Outcome<M.Error>)
      requires memory.Valid() && P.Ready(memory.Snapshot(), ins, byRef)
      modifies memory, memory.bytes
      ensures memory.Valid()
      ensures r == M.OutcomeOf(P.Execute(old(memory.Snapshot()), ins, byRef))
      ensures r.Pass? ==> memory.Snapshot() == P.Execute(old(memory.Snapshot()), ins, byRef).value
    {
      var resolved := ResolveOperands(ins, byRef);
      if resolved.Err? {
        r := Fail(resolved.error);
        return;
      }
      r := Dispatch(ins, resolved.value);
    }

    /** The `case` of `execute`. */
    method Dispatch(ins: P.Instruction, ops: seq<Word>) returns (r: Outcome<M.Error>)
      requires memory.Valid() && |ops| >= P.Arity(ins.opcode)
      requires P.ArmPops(memory.header.version, ins, ops) <= M.OperandDepth(memory.Snapshot())
      modifies memory, memory.bytes
      ensures memory.Valid()
      ensures r == M.OutcomeOf(P.Dispatch(old(memory.Snapshot()), ins, ops))
      ensures r.Pass? ==> memory.Snapshot() == P.Dispatch(old(memory.Snapshot()), ins, ops).value
    {
      if P.IsArithmetic(ins.opcode) {
        r := Arithmetic(ins, ops);
      } else if P.IsComparison(ins.opcode) {
        r := Comparison(ins, ops);
      } else if P.IsCounterOp(ins.opcode) {
        r := Counter(ins, ops);
      } else if ins.opcode == P.Load {
        r := Load(ops[0], ins.destination);
      } else if P.IsStackOp(ins.opcode) {
        r := StackOp(ins, ops);
      } else if P.IsMemoryOp(ins.opcode) {
        r := MemoryOp(ins, ops);
      } else {
        r := Control(ins, ops);
      }
    }

    method Arithmetic(ins: P.Instruction, ops: seq<Word>) returns (r: Outcome<M.Error>)
      requires memory.Valid() && |ops| >= P.Arity(ins.opcode) && P.IsArithmetic(ins.opcode)
      modifies memory, memory.bytes
      ensures memory.Valid()
      ensures r == M.OutcomeOf(P.ArithmeticArm(old(memory.Snapshot()), ins, ops))
      ensures r.Pass? ==> memory.Snapshot() == P.ArithmeticArm(old(memory.Snapshot()), ins, ops).value
    {
      var value := P.Calculate(ins.opcode, ops);
      if value.Err? {
        return Fail(value.error);
      }
      r := StoreResult(ins.destination, value.value);
    }

    method Comparison(ins: P.Instruction, ops: seq<Word>) returns (r: Outcome<M.Error>)
      requires memory.Valid() && |ops| >= P.Arity(ins.opcode) && P.IsComparison(ins.opcode)
      modifies memory, memory.bytes
      ensures memory.Valid()
      ensures var spec := P.Branch(old(memory.Snapshot()), ins.branchTo, ins.branchOn,
                                   P.Condition(old(memory.numArguments), ins.opcode, ops));
              r == M.OutcomeOf(spec) && (r.Pass? ==> memory.Snapshot() == spec.value)
    {
      var op := ins.opcode;
      var result: bool;
      if op == P.Je || op == P.Jg || op == P.Jl {
        var rel := if op == P.Je then P.Equal else if op == P.Jg then P.Greater else P.Less;
        result := Inject(rel, ops[0], ops[1..]);
      } else if op == P.Jz {
        result := ops[0] == 0;
      } else if op == P.Test {
        result := And16(ops[0], ops[1]) == ops[1];
      } else {
        result := memory.numArguments == ops[0];
      }
      r := Branch(ins.branchTo, ins.branchOn, result);
    }

    /** The `inject` loop of JE, JG and JL. */
    method Inject(rel: P.Relation, x: Word, rest: seq<Word>) returns (result: bool)
      ensures result == P.Inject(false, rel, x, rest)
    {
      result := false;
      var j := 0;
      while j < |rest|
        invariant 0 <= j <= |rest|
        invariant P.Inject(result, rel, x, rest[j..]) == P.Inject(false, rel, x, rest)
      {
        assert rest[j..][1..] == rest[j + 1..];
        result := result || P.Holds(rel, x, rest[j]);
        j := j + 1;
      }
    }

    /** INC, DEC and the first half of INC_CHK and DEC_CHK. */
    method Bump(variable: nat, delta: int) returns (r: M.Res<int>)
      requires memory.Valid() && (variable == 0 ==> M.OperandDepth(memory.Snapshot()) > 0)
      modifies memory, memory.bytes
      ensures memory.Valid()
      ensures var spec := P.Bump(old(memory.Snapshot()), variable, delta);
              (spec.Ok? ==> r == Ok(spec.value.0) && memory.Snapshot() == spec.value.1) &&
              (spec.Err? ==> r == Err(spec.error))
    {
      var read := memory.ReadV(variable);
      if read.Err? {
        return Err(read.error);
      }
      var updated := P.Signed(read.value) + delta;
      var written := memory.WriteV(variable, updated);
      if written.Fail? {
        return Err(written.error);
      }
      r := Ok(updated);
    }

    method Counter(ins: P.Instruction, ops: seq<Word>) returns (r: Outcome<M.Error>)
      requires memory.Valid() && |ops| >= P.Arity(ins.opcode) && P.IsCounterOp(ins.opcode)
      requires ops[0] == 0 ==> M.OperandDepth(memory.Snapshot()) > 0
      modifies memory, memory.bytes
      ensures memory.Valid()
      ensures r == M.OutcomeOf(P.CounterArm(old(memory.Snapshot()), ins, ops))
      ensures r.Pass? ==> memory.Snapshot() == P.CounterArm(old(memory.Snapshot()), ins, ops).value
    {
      var op := ins.opcode;
      var bumped := Bump(ops[0], if op == P.Inc || op == P.IncChk then 1 else -1);
      if bumped.Err? {
        r := Fail(bumped.error);
      } else if op == P.IncChk {
        r := Branch(ins.branchTo, ins.branchOn, bumped.value > P.Signed(ops[1]));
      } else if op == P.DecChk {
        r := Branch(ins.branchTo, ins.branchOn, bumped.value < P.Signed(ops[1]));
      } else {
        r := Pass;
      }
    }

    method StackOp(ins: P.Instruction, ops: seq<Word>) returns (r: Outcome<M.Error>)
      requires memory.Valid() && |ops| >= P.Arity(ins.opcode) && P.IsStackOp(ins.opcode)
      requires P.ArmPops(memory.header.version, ins, ops) <= M.OperandDepth(memory.Snapshot())
      modifies memory, memory.bytes
      ensures memory.Valid()
      ensures r == M.OutcomeOf(P.StackArm(old(memory.Snapshot()), ins, ops))
      ensures r.Pass? ==> memory.Snapshot() == P.StackArm(old(memory.Snapshot()), ins, ops).value
    {
      var op := ins.opcode;
      if op == P.Store {
        if ops[0] == 0 {
          var popped := memory.ReadV(0);
        }
        r := memory.WriteV(ops[0], ops[1]);
      } else if op == P.Push {
        r := memory.WriteV(0, ops[0]);
      } else if op == P.Pull {
        r := Pass;
        if memory.header.version != 6 {
          var top := memory.ReadV(0);
          r := memory.WriteV(ops[0], top.value);
        }
      } else {
        var top := memory.ReadV(0);
        r := Pass;
      }
    }

    method Load(source: nat, dest: Option<nat>) returns (r: Outcome<M.Error>)
      requires memory.Valid()
      requires source == 0 && dest != Some(0) ==> M.OperandDepth(memory.Snapshot()) > 0
      modifies memory, memory.bytes
      ensures memory.Valid()
      ensures r == M.OutcomeOf(P.LoadVar(old(memory.Snapshot()), source, dest))
      ensures r.Pass? ==> memory.Snapshot() == P.LoadVar(old(memory.Snapshot()), source, dest).value
    {
      r := Pass;
      if Some(source) != dest {
        var read := memory.ReadV(source);
        if read.Err? {
          return Fail(read.error);
        }
        r := StoreResult(dest, read.value);
        if r.Fail? {
          return;
        }
        if source == 0 {
          var again := memory.ReadV(dest.value);
          if again.Err? {
            return Fail(again.error);
          }
          r := memory.WriteV(0, again.value);
        }
      }
    }

    method MemoryOp(ins: P.Instruction, ops: seq<Word>) returns (r: Outcome<M.Error>)
      requires memory.Valid() && |ops| >= P.Arity(ins.opcode) && P.IsMemoryOp(ins.opcode)
      modifies memory, memory.bytes
      ensures memory.Valid()
      ensures r == M.OutcomeOf(P.MemoryArm(old(memory.Snapshot()), ins, ops))
      ensures r.Pass? ==> memory.Snapshot() == P.MemoryArm(old(memory.Snapshot()), ins, ops).value
    {
      var op := ins.opcode;
      if op == P.Loadb {
        var b := memory.ReadB(ops[0] + P.Signed(ops[1]));
        if b.Err? {
          return Fail(b.error);
        }
        r := StoreResult(ins.destination, b.value);
      } else if op == P.Loadw {
        var w := memory.ReadW(ops[0] + P.Signed(ops[1]) * 2);
        if w.Err? {
          return Fail(w.error);
        }
        r := StoreResult(ins.destination, w.value);
      } else if op == P.Storeb {
        r := memory.WriteB(ops[0] + P.Signed(ops[1]), ops[2]);
      } else {
        r := memory.WriteW(ops[0] + P.Signed(ops[1]) * 2, ops[2]);
      }
    }

    method Control(ins: P.Instruction, ops: seq<Word>) returns (r: Outcome<M.Error>)
      requires memory.Valid() && |ops| >= P.Arity(ins.opcode)
      requires !P.IsArithmetic(ins.opcode) && !P.IsComparison(ins.opcode)
      requires !P.IsCounterOp(ins.opcode) && ins.opcode != P.Load
      requires !P.IsStackOp(ins.opcode) && !P.IsMemoryOp(ins.opcode)
      requires P.ArmPops(memory.header.version, ins, ops) <= M.OperandDepth(memory.Snapshot())
      modifies memory, memory.bytes
      ensures memory.Valid()
      ensures r == M.OutcomeOf(P.ControlArm(old(memory.Snapshot()), ins, ops))
      ensures r.Pass? ==> memory.Snapshot() == P.ControlArm(old(memory.Snapshot()), ins, ops).value
    {
      var op := ins.opcode;
      if op == P.Jump || op == P.Piracy {
        memory.programCounter := memory.programCounter + P.Signed(ops[0]) - 2;
        r := Pass;
      } else if op == P.Ret {
        r := RoutineReturn(ops[0]);
      } else if op == P.Rtrue {
        r := RoutineReturn(1);
      } else if op == P.Rfalse {
        r := RoutineReturn(0);
      } else if op == P.RetPopped {
        var top := memory.ReadV(0);
        r := RoutineReturn(top.value);
      } else if op == P.Call {
        var address := M.PackedToByteAddress(memory.header.version, ops[0]);
        if address.None? {
          r := Fail(M.UnsupportedPackedAddress(memory.header.version));
        } else {
          r := RoutineCall(address.value, ops[1..], ins.destination);
        }
      } else if op == P.Save || op == P.Restore {
        var version := memory.header.version;
        r := Pass;
        if version <= 4 {
          if version >= 4 {
            r := StoreResult(ins.destination, 1);
          }
          if r.Pass? {
            r := Branch(ins.branchTo, ins.branchOn, true);
          }
        }
      } else if op == P.Nop {
        r := Pass;
      } else {
        r := Fail(M.UnimplementedOpcode);
      }
    }
  }
}
