/**
 * The `Memory` class of lib/gruesome/z/memory.rb: a byte array updated in
 * place, plus the program counter, the current stack and the flat call
 * stack, all as mutable fields. Each method is proved against the function
 * of the same name in `MemoryModel`.
 */
module ZMemory {
  import opened Wrappers
  import opened Words
  import M = MemoryModel

  class Memory {
    const header: M.Header
    const bytes: array<Byte>
    var programCounter: int
    var numLocals: nat
    var numArguments: nat
    var stack: seq<int>
    var callStack: seq<M.CallEntry>

    /** The value this object stands for. */
    function Snapshot(): M.State
      reads this, bytes
    {
      M.State(header, bytes[..], programCounter, numLocals, numArguments, stack, callStack)
    }

    ghost predicate Valid()
      reads this, bytes
    {
      M.Valid(Snapshot())
    }

    constructor (contents: array<Byte>, header: M.Header)
      ensures this.bytes == contents && this.header == header
      ensures Snapshot() == M.Initial(header, contents[..])
      ensures Valid()
    {
      this.header := header;
      bytes := contents;
      programCounter := header.entry;
      numLocals := 0;
      numArguments := 0;
      stack := [];
      callStack := [];
    }

    // Reads. Negative addresses are refused (see the findings in README.md).

    method ForceReadB(a: int) returns (r: M.Res<Byte>)
      ensures r == M.ForceReadB(bytes[..], a)
    {
      if 0 <= a < bytes.Length {
        r := Ok(bytes[a]);
      } else {
        r := Err(M.MajorAccessViolation(a));
      }
    }

    method ForceReadW(a: int) returns (r: M.Res<Word>)
      ensures r == M.ForceReadW(bytes[..], a)
    {
      if 0 <= a && a + 1 < bytes.Length {
        r := Ok(WordOf(bytes[a], bytes[a + 1]));
      } else {
        r := Err(M.MajorAccessViolation(a));
      }
    }

    method ReadB(a: int) returns (r: M.Res<Byte>)
      ensures r == M.ReadB(Snapshot(), a)
    {
      if a < header.highBase {
        r := ForceReadB(a);
      } else {
        r := Err(M.AccessViolation(a));
      }
    }

    method ReadW(a: int) returns (r: M.Res<Word>)
      ensures r == M.ReadW(Snapshot(), a)
    {
      if a + 1 < header.highBase {
        r := ForceReadW(a);
      } else {
        r := Err(M.AccessViolation(a));
      }
    }

    // Writes: `setbyte` on the image.

    method ForceWriteB(a: int, v: int) returns (r: Outcome<M.Error>)
      modifies bytes
      ensures r == M.OutcomeOf(M.ForceWriteB(old(bytes[..]), a, v))
      ensures r.Pass? ==> bytes[..] == M.ForceWriteB(old(bytes[..]), a, v).value
      ensures r.Fail? ==> bytes[..] == old(bytes[..])
    {
      if 0 <= a < bytes.Length {
        bytes[a] := Mask8(v);
        r := Pass;
      } else {
        r := Fail(M.MajorWriteAccessViolation(a));
      }
    }

    method ForceWriteW(a: int, v: int) returns (r: Outcome<M.Error>)
      modifies bytes
      ensures r == M.OutcomeOf(M.ForceWriteW(old(bytes[..]), a, v))
      ensures r.Pass? ==> bytes[..] == M.ForceWriteW(old(bytes[..]), a, v).value
      ensures r.Fail? ==> bytes[..] == old(bytes[..])
    {
      if 0 <= a && a + 1 < bytes.Length {
        bytes[a] := HighByte(v);
        bytes[a + 1] := Mask8(v);
        r := Pass;
      } else {
        r := Fail(M.MajorWriteAccessViolation(a));
      }
    }

    method WriteB(a: int, v: int) returns (r: Outcome<M.Error>)
      modifies bytes
      ensures r == M.OutcomeOf(M.WriteB(old(Snapshot()), a, v))
      ensures r.Pass? ==> Snapshot() == M.WriteB(old(Snapshot()), a, v).value
      ensures r.Fail? ==> Snapshot() == old(Snapshot())
    {
      if a < header.staticBase {
        r := ForceWriteB(a, v);
      } else {
        r := Fail(M.WriteAccessViolation(a));
      }
    }

    method WriteW(a: int, v: int) returns (r: Outcome<M.Error>)
      modifies bytes
      ensures r == M.OutcomeOf(M.WriteW(old(Snapshot()), a, v))
      ensures r.Pass? ==> Snapshot() == M.WriteW(old(Snapshot()), a, v).value
      ensures r.Fail? ==> Snapshot() == old(Snapshot())
    {
      if a + 1 < header.staticBase {
        r := ForceWriteW(a, v);
      } else {
        r := Fail(M.WriteAccessViolation(a));
      }
    }

    // Variables.

    method ReadV(i: nat) returns (r: M.Res<Word>)
      requires Valid()
      requires i == 0 ==> M.OperandDepth(Snapshot()) > 0
      modifies this
      ensures M.ReadVar(old(Snapshot()), i).Ok? ==>
                r == Ok(M.ReadVar(old(Snapshot()), i).value.0) &&
                Snapshot() == M.ReadVar(old(Snapshot()), i).value.1
      ensures M.ReadVar(old(Snapshot()), i).Err? ==>
                r == Err(M.ReadVar(old(Snapshot()), i).error) && Snapshot() == old(Snapshot())
      ensures Valid()
    {
      if i == 0 {
        r := Ok(stack[|stack| - 1]);
        stack := stack[..|stack| - 1];
      } else if i >= 16 {
        r := ReadW(header.globalVarAddr + 2 * (i - 16));
      } else if i <= numLocals {
        r := Ok(stack[i]);
      } else {
        r := Err(M.VariableAccessViolation(i));
      }
    }

    method WriteV(i: nat, v: int) returns (r: Outcome<M.Error>)
      requires Valid()
      modifies this, bytes
      ensures r == M.OutcomeOf(M.WriteVar(old(Snapshot()), i, v))
      ensures r.Pass? ==> Snapshot() == M.WriteVar(old(Snapshot()), i, v).value
      ensures r.Fail? ==> Snapshot() == old(Snapshot())
      ensures Valid()
    {
      var value := Mask16(v);
      if i == 0 {
        stack := stack + [value];
        r := Pass;
      } else if i >= 16 {
        r := WriteW(header.globalVarAddr + 2 * (i - 16), value);
      } else if i <= numLocals {
        stack := stack[i := value];
        r := Pass;
      } else {
        r := Pass;
      }
    }

    // Routine frames.

    method PushRoutine(returnAddr: int, n: nat, k: nat, dest: Option<nat>)
      requires Valid()
      modifies this
      ensures Snapshot() == M.PushRoutine(old(Snapshot()), returnAddr, n, k, dest)
      ensures Valid()
    {
      ghost var before := Snapshot();
      callStack := callStack + [M.Number(numLocals)];
      callStack := callStack + [M.Number(numArguments)];
      callStack := callStack + [M.Destination(dest)];
      callStack := callStack + [M.SavedStack(stack)];
      assert callStack == before.callStack + [M.Number(before.numLocals), M.Number(before.numArguments),
                                             M.Destination(dest), M.SavedStack(before.stack)];
      var newStack := [returnAddr];
      var i := 0;
      while i < n
        invariant 0 <= i <= n
        invariant |newStack| == i + 1 && newStack[0] == returnAddr
        invariant forall j :: 1 <= j <= i ==> newStack[j] == 0
      {
        newStack := newStack + [0];
        i := i + 1;
      }
      assert newStack == [returnAddr] + M.Zeros(n);
      stack := newStack;
      numLocals := n;
      numArguments := k;
      assert Snapshot() == M.PushRoutine(before, returnAddr, n, k, dest);
    }

    method PopRoutine() returns (r: M.Res<M.Frame>)
      requires Valid()
      modifies this
      ensures M.PopRoutine(old(Snapshot())).Ok? ==>
                r == Ok(M.PopRoutine(old(Snapshot())).value.0) &&
                Snapshot() == M.PopRoutine(old(Snapshot())).value.1
      ensures M.PopRoutine(old(Snapshot())).Err? ==>
                r == Err(M.CallStackUnderflow) && Snapshot() == old(Snapshot())
      ensures Valid()
    {
      if callStack == [] {
        r := Err(M.CallStackUnderflow);
        return;
      }
      M.PopFrameShape(callStack);
      var returnAddr := stack[0];
      stack := callStack[|callStack| - 1].values;
      callStack := callStack[..|callStack| - 1];
      var destination := callStack[|callStack| - 1].variable;
      callStack := callStack[..|callStack| - 1];
      numArguments := callStack[|callStack| - 1].n;
      callStack := callStack[..|callStack| - 1];
      numLocals := callStack[|callStack| - 1].n;
      callStack := callStack[..|callStack| - 1];
      r := Ok(M.Frame(destination, returnAddr));
    }

    // Packed text.

    method ReadZStr(index: nat, maxLen: int) returns (r: M.Res<(nat, seq<ZChar>)>)
      ensures r == M.ReadZStr(bytes[..], index, maxLen)
    {
      var chrs: seq<ZChar> := [];
      var i := index;
      var more := true;
      M.PrependNothing(M.UnpackFrom(bytes[..], index, index, maxLen));
      while more
        invariant index <= i
        invariant more ==> M.UnpackFrom(bytes[..], index, index, maxLen) == M.Prepend(chrs, M.UnpackFrom(bytes[..], index, i, maxLen))
        invariant !more ==> M.UnpackFrom(bytes[..], index, index, maxLen) == Ok((i, chrs))
        decreases bytes.Length - i
      {
        if maxLen != -1 && i + 2 - index > maxLen {
          assert chrs + [] == chrs;
          assert M.UnpackFrom(bytes[..], index, index, maxLen) == Ok((i, chrs));
          break;
        }
        var b1 := ForceReadB(i);
        if b1.Err? {
          return Err(b1.error);
        }
        var b2 := ForceReadB(i + 1);
        if b2.Err? {
          return Err(b2.error);
        }
        M.PrependTwice(chrs, M.ZCharsOf(b1.value, b2.value), M.UnpackFrom(bytes[..], index, i + 2, maxLen));
        i := i + 2;
        chrs := chrs + M.ZCharsOf(b1.value, b2.value);
        more := b1.value < 0x80;
      }
      r := Ok((i - index, chrs));
    }
  }
}
