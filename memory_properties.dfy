/** What lib/gruesome/z/memory.rb promises, proved about `MemoryModel`. */
module MemoryProperties {
  import opened Wrappers
  import opened Words
  import opened MemoryModel

  // ---------------------------------------------------------------- regions

  /** `readb` succeeds exactly below high memory and inside the image. */
  lemma ReadByteGuard(s: State, a: int)
    ensures ReadB(s, a).Ok? <==> 0 <= a < s.header.highBase && a < |s.mem|
    ensures a >= s.header.highBase ==> ReadB(s, a) == Err(AccessViolation(a))
    ensures ReadB(s, a).Ok? ==> ReadB(s, a).value == s.mem[a]
  {
  }

  /** `writeb` succeeds exactly in dynamic memory (inside the image) and changes that one byte. */
  lemma WriteByteGuard(s: State, a: int, v: int)
    ensures WriteB(s, a, v).Ok? <==> 0 <= a < s.header.staticBase && a < |s.mem|
    ensures a >= s.header.staticBase ==> WriteB(s, a, v) == Err(WriteAccessViolation(a))
    ensures WriteB(s, a, v).Ok? ==>
              var t := WriteB(s, a, v).value;
              |t.mem| == |s.mem| && t.mem[a] == Mask8(v) &&
              (forall j :: 0 <= j < |s.mem| && j != a ==> t.mem[j] == s.mem[j]) &&
              t == s.(mem := t.mem)
  {
  }

  /** `writeb(a, v)` then `readb(a)` gives back `v & 255`. */
  lemma WriteByteThenReadByte(s: State, a: int, v: int)
    requires 0 <= a < s.header.staticBase && a < s.header.highBase && a < |s.mem|
    ensures WriteB(s, a, v).Ok?
    ensures ReadB(WriteB(s, a, v).value, a) == Ok(Mask8(v))
  {
  }

  /** No successful `writeb` touches a byte at or above the static base. */
  lemma WriteByteKeepsStatic(s: State, a: int, v: int)
    requires WriteB(s, a, v).Ok?
    ensures 0 <= a < s.header.staticBase
    ensures forall j :: s.header.staticBase <= j < |s.mem| ==> WriteB(s, a, v).value.mem[j] == s.mem[j]
  {
  }

  /**
   * As written, `writeb(-1, v)` passes the guard and Ruby's `setbyte` stores
   * into the last byte of the image, which is static memory whenever the
   * image extends past the static base.
   */
  lemma NegativeWriteReachesStatic(s: State, v: int)
    requires s.header.staticBase < |s.mem|
    ensures WriteBAsWritten(s, -1, v).Ok?
    ensures var t := WriteBAsWritten(s, -1, v).value;
            t.mem[|s.mem| - 1] == Mask8(v) && |s.mem| - 1 >= s.header.staticBase
    ensures WriteB(s, -1, v) == Err(MajorWriteAccessViolation(-1))
  {
  }

  /** The corrected `writeb` agrees with the Ruby code on every non-negative address. */
  lemma WriteByteAgreesOnNaturals(s: State, a: int, v: int)
    requires a >= 0
    ensures WriteB(s, a, v).Ok? <==> WriteBAsWritten(s, a, v).Ok?
    ensures WriteB(s, a, v).Ok? ==> WriteB(s, a, v) == WriteBAsWritten(s, a, v)
  {
  }

  // ---------------------------------------------------------------- words

  lemma {:induction false} WordBytes(v: int)
    ensures WordOf(HighByte(v), Mask8(v)) == Mask16(v)
  {
    var q := v / 0x1_0000;
    var m := Mask16(v);
    assert v == q * 0x1_0000 + m;
    assert v / 0x100 == q * 0x100 + m / 0x100;
    assert HighByte(v) == m / 0x100;
    assert Mask8(v) == m % 0x100;
  }

  /**
   * `force_writew(a, v)` stores the high byte at `a` and the low byte at
   * `a + 1`, changes nothing else, and `force_readw(a)` then gives `v & 0xFFFF`;
   * both raise when the word does not fit in the image.
   */
  lemma ForceWordRoundTrip(mem: seq<Byte>, a: int, v: int)
    ensures ForceWriteW(mem, a, v).Ok? <==> 0 <= a && a + 1 < |mem|
    ensures ForceReadW(mem, a).Ok? <==> 0 <= a && a + 1 < |mem|
    ensures ForceWriteW(mem, a, v).Ok? ==>
              var m := ForceWriteW(mem, a, v).value;
              |m| == |mem| && m[a] == HighByte(v) && m[a + 1] == Mask8(v) &&
              (forall j :: 0 <= j < |mem| && j != a && j != a + 1 ==> m[j] == mem[j]) &&
              ForceReadW(m, a) == Ok(Mask16(v))
  {
    if 0 <= a && a + 1 < |mem| {
      WordBytes(v);
    }
  }

  /** `readw` and `writew` demand that both bytes lie below high and static memory respectively. */
  lemma GuardedWordAccess(s: State, a: int, v: int)
    ensures a + 1 >= s.header.highBase ==> ReadW(s, a) == Err(AccessViolation(a))
    ensures a + 1 >= s.header.staticBase ==> WriteW(s, a, v) == Err(WriteAccessViolation(a))
    ensures ReadW(s, a).Ok? <==> 0 <= a && a + 1 < s.header.highBase && a + 1 < |s.mem|
    ensures WriteW(s, a, v).Ok? <==> 0 <= a && a + 1 < s.header.staticBase && a + 1 < |s.mem|
    ensures a + 1 < s.header.highBase && WriteW(s, a, v).Ok? ==> ReadW(WriteW(s, a, v).value, a) == Ok(Mask16(v))
  {
    ForceWordRoundTrip(s.mem, a, v);
  }

  // ---------------------------------------------------------------- variables

  /** The value variable `i` holds, looked at without popping; `None` when there is no such variable. */
  ghost function VarValue(s: State, i: nat): Option<Word>
    requires Valid(s)
  {
    if i == 0 then
      if OperandDepth(s) > 0 then Some(s.stack[|s.stack| - 1]) else None
    else if i >= 16 then
      var w := ForceReadW(s.mem, GlobalAddress(s.header, i));
      if w.Ok? then Some(w.value) else None
    else if i <= s.numLocals then Some(s.stack[i])
    else None
  }

  /** Variable 0, a local the routine has, or a global. */
  predicate Exists(s: State, i: nat)
  {
    i == 0 || i <= s.numLocals || i >= 16
  }

  /** After a successful `writev(i, v)` the variable holds `v & 0xFFFF`. */
  lemma WriteVarThenValue(s: State, i: nat, v: int)
    requires Valid(s) && Exists(s, i) && WriteVar(s, i, v).Ok?
    ensures VarValue(WriteVar(s, i, v).value, i) == Some(Mask16(v))
  {
    if i >= 16 {
      ForceWordRoundTrip(s.mem, GlobalAddress(s.header, i), Mask16(v));
      assert Mask16(Mask16(v)) == Mask16(v);
    }
  }

  /** `writev(0, v)` pushes `v & 0xFFFF`; `readv(0)` pops it and restores the state exactly. */
  lemma PushThenPop(s: State, v: int)
    requires Valid(s)
    ensures WriteVar(s, 0, v).Ok?
    ensures var t := WriteVar(s, 0, v).value;
            OperandDepth(t) == OperandDepth(s) + 1 && ReadVar(t, 0) == Ok((Mask16(v), s))
  {
    var t := WriteVar(s, 0, v).value;
    assert t.stack[..|t.stack| - 1] == s.stack;
  }

  /** Two pushes come back in reverse order, and the stack is as it was. */
  lemma PushesPopLastFirst(s: State, v1: int, v2: int)
    requires Valid(s)
    ensures WriteVar(s, 0, v1).Ok? && WriteVar(WriteVar(s, 0, v1).value, 0, v2).Ok?
    ensures var t := WriteVar(WriteVar(s, 0, v1).value, 0, v2).value;
            ReadVar(t, 0).Ok? && ReadVar(t, 0).value.0 == Mask16(v2) &&
            ReadVar(ReadVar(t, 0).value.1, 0) == Ok((Mask16(v1), s))
  {
    PushThenPop(s, v1);
    var t1 := WriteVar(s, 0, v1).value;
    PushThenPop(t1, v2);
  }

  /** Locals the routine has: a write is read back masked and touches no other variable. */
  lemma LocalRoundTrip(s: State, i: nat, v: int)
    requires Valid(s) && 1 <= i <= 15 && i <= s.numLocals
    ensures WriteVar(s, i, v).Ok?
    ensures var t := WriteVar(s, i, v).value;
            ReadVar(t, i) == Ok((Mask16(v), t)) &&
            t.mem == s.mem && |t.stack| == |s.stack| &&
            (forall j :: 0 <= j < |s.stack| && j != i ==> t.stack[j] == s.stack[j])
  {
  }

  /**
   * Locals 1..15 beyond the routine's count: reading raises, writing is a
   * silent no-op that changes nothing.
   */
  lemma MissingLocal(s: State, i: nat, v: int)
    requires Valid(s) && 1 <= i <= 15 && i > s.numLocals
    ensures ReadVar(s, i) == Err(VariableAccessViolation(i))
    ensures WriteVar(s, i, v) == Ok(s)
  {
  }

  /** Variables 16 and up are the word at `global_var_addr + 2*(i-16)`. */
  lemma GlobalVariable(s: State, i: nat, v: int)
    requires Valid(s) && i >= 16
    ensures var a := s.header.globalVarAddr + 2 * (i - 16);
            (ReadVar(s, i).Ok? <==> ReadW(s, a).Ok?) &&
            (ReadVar(s, i).Ok? ==> ReadVar(s, i).value == (ReadW(s, a).value, s)) &&
            (WriteVar(s, i, v).Ok? <==> 0 <= a && a + 1 < s.header.staticBase && a + 1 < |s.mem|) &&
            (WriteVar(s, i, v).Ok? ==>
               var t := WriteVar(s, i, v).value;
               ForceReadW(t.mem, a) == Ok(Mask16(v)) && t.stack == s.stack &&
               forall j :: 0 <= j < |s.mem| && j != a && j != a + 1 ==> t.mem[j] == s.mem[j])
  {
    var a := s.header.globalVarAddr + 2 * (i - 16);
    ForceWordRoundTrip(s.mem, a, Mask16(v));
    assert Mask16(Mask16(v)) == Mask16(v);
  }

  // ---------------------------------------------------------------- frames

  /**
   * `push_routine(r, n, k, d)`: locals 1..n read 0, the counts are `n` and
   * `k`, no operand is on the new stack and the call stack grew by four.
   */
  lemma PushRoutineFrame(s: State, r: int, n: nat, k: nat, d: Option<nat>)
    requires Valid(s)
    ensures var t := PushRoutine(s, r, n, k, d);
            t.numLocals == n && t.numArguments == k && OperandDepth(t) == 0 &&
            |t.callStack| == |s.callStack| + 4 && t.stack[0] == r && t.pc == s.pc && t.mem == s.mem &&
            forall i :: 1 <= i <= n && i <= 15 ==> ReadVar(t, i) == Ok((0, t))
  {
  }

  /**
   * Whatever a routine does to its own stack (return address kept at index
   * 0) and wherever its program counter went, `pop_routine` hands back `d`
   * and that return address and restores the caller's locals count,
   * argument count and stack exactly.
   */
  lemma {:induction false} PopRestoresCaller(s: State, r: int, n: nat, k: nat, d: Option<nat>, st: seq<int>, pc: int)
    requires Valid(s)
    requires StackShape(st, n, true) && st[0] == r
    ensures var t := PushRoutine(s, r, n, k, d).(stack := st, pc := pc);
            Valid(t) && PopRoutine(t) == Ok((Frame(d, r), s.(pc := pc)))
  {
    var t := PushRoutine(s, r, n, k, d).(stack := st, pc := pc);
    var cs := t.callStack;
    assert cs[..|cs| - 4] == s.callStack;
  }

  /** `push_routine` followed at once by `pop_routine` is the identity on the caller. */
  lemma PushThenPopRoutine(s: State, r: int, n: nat, k: nat, d: Option<nat>)
    requires Valid(s)
    ensures PopRoutine(PushRoutine(s, r, n, k, d)) == Ok((Frame(d, r), s))
  {
    var t := PushRoutine(s, r, n, k, d);
    PopRestoresCaller(s, r, n, k, d, t.stack, s.pc);
    assert t.(stack := t.stack, pc := s.pc) == t;
    assert s.(pc := s.pc) == s;
  }

  // ---------------------------------------------------------------- addresses and text

  /**
   * Packed addresses scale by 2 up to version 3 and by 4 in versions 4 and
   * 5; the scaling is invertible, so distinct packed addresses stay distinct.
   */
  lemma PackedAddressScaling(version: nat, a: nat, b: nat)
    ensures PackedToByteAddress(version, a).Some? <==> version <= 5
    ensures version <= 3 ==> PackedToByteAddress(version, a) == Some(2 * a)
    ensures 4 <= version <= 5 ==> PackedToByteAddress(version, a) == Some(4 * a)
    ensures version <= 5 && a != b ==> PackedToByteAddress(version, a) != PackedToByteAddress(version, b)
  {
  }

  /** The three Z-characters of a word are its 5-bit fields 14..10, 9..5 and 4..0. */
  lemma ZCharsAreFields(b1: Byte, b2: Byte)
    ensures var w := WordOf(b1, b2);
            ZCharsOf(b1, b2) == [(w / 0x400) % 32, (w / 32) % 32, w % 32]
  {
    var w := WordOf(b1, b2);
    assert w / 0x400 == b1 / 4;
    assert w / 32 == b1 * 8 + b2 / 32;
    assert (b1 * 8 + b2 / 32) % 32 == (b1 % 4) * 8 + b2 / 32 by {
      assert b1 * 8 == (b1 / 4) * 32 + (b1 % 4) * 8;
    }
  }

  /** The Z-characters of the words from `index` up to `stop`, in order. */
  ghost function Triples(mem: seq<Byte>, index: nat, stop: nat): seq<ZChar>
    requires index <= stop && (stop - index) % 2 == 0 && (index == stop || stop <= |mem|)
    decreases stop - index
  {
    if index == stop then [] else ZCharsOf(mem[index], mem[index + 1]) + Triples(mem, index + 2, stop)
  }

  /** Each word read contributes its three fields, in order. */
  lemma {:induction false} UnpackFromLayout(mem: seq<Byte>, orig: nat, index: nat, maxLen: int)
    requires UnpackFrom(mem, orig, index, maxLen).Ok?
    ensures var (stop, chars) := UnpackFrom(mem, orig, index, maxLen).value;
            chars == Triples(mem, index, stop)
    decreases |mem| - index
  {
    if maxLen != -1 && index + 2 - orig > maxLen {
    } else if mem[index] < 0x80 {
      UnpackFromLayout(mem, orig, index + 2, maxLen);
    } else {
      assert ZCharsOf(mem[index], mem[index + 1]) + [] == ZCharsOf(mem[index], mem[index + 1]);
    }
  }

  /** With a limit, reading never goes past `orig + maxLen`. */
  lemma {:induction false} UnpackFromLimit(mem: seq<Byte>, orig: nat, index: nat, maxLen: int)
    requires orig <= index
    requires UnpackFrom(mem, orig, index, maxLen).Ok?
    ensures var stop := UnpackFrom(mem, orig, index, maxLen).value.0;
            maxLen != -1 ==> stop == index || stop - orig <= maxLen
    decreases |mem| - index
  {
    if maxLen != -1 && index + 2 - orig > maxLen {
    } else if mem[index] < 0x80 {
      UnpackFromLimit(mem, orig, index + 2, maxLen);
    }
  }

  /** Every word but the last has bit 7 clear; without a limit the last one has it set. */
  lemma {:induction false} UnpackFromStop(mem: seq<Byte>, orig: nat, index: nat, maxLen: int)
    requires UnpackFrom(mem, orig, index, maxLen).Ok?
    ensures var stop := UnpackFrom(mem, orig, index, maxLen).value.0;
            (forall w :: index <= w < stop - 2 && (w - index) % 2 == 0 ==> mem[w] < 0x80) &&
            (maxLen == -1 ==> stop >= index + 2 && mem[stop - 2] >= 0x80)
    decreases |mem| - index
  {
    var stop := UnpackFrom(mem, orig, index, maxLen).value.0;
    if maxLen != -1 && index + 2 - orig > maxLen {
    } else if mem[index] < 0x80 {
      UnpackFromStop(mem, orig, index + 2, maxLen);
      var rest := UnpackFrom(mem, orig, index + 2, maxLen);
      assert UnpackFrom(mem, orig, index, maxLen) == Prepend(ZCharsOf(mem[index], mem[index + 1]), rest);
      assert stop == rest.value.0;
      forall w | index < w < stop - 2 && (w - index) % 2 == 0
        ensures mem[w] < 0x80
      {
        assert (w - (index + 2)) % 2 == 0;
      }
    }
  }

  /**
   * Reading ends for one of two reasons only: the last word read carries the
   * terminator bit, or the word after it would take the read past the limit.
   */
  lemma {:induction false} UnpackFromEnds(mem: seq<Byte>, orig: nat, index: nat, maxLen: int)
    requires UnpackFrom(mem, orig, index, maxLen).Ok?
    ensures var stop := UnpackFrom(mem, orig, index, maxLen).value.0;
            (stop >= index + 2 && mem[stop - 2] >= 0x80) || (maxLen != -1 && stop + 2 - orig > maxLen)
    decreases |mem| - index
  {
    if maxLen != -1 && index + 2 - orig > maxLen {
    } else if mem[index] < 0x80 {
      UnpackFromEnds(mem, orig, index + 2, maxLen);
    }
  }

  /**
   * `force_readzstr(index, max_len)` yields `[consumed, chars]` with three
   * 5-bit characters per 2 bytes consumed, the characters being the fields of
   * the words read; every word but the last has bit 7 of its first byte clear;
   * without a limit the last one has it set; with a limit `max_len >= 0` no
   * more than `max_len` bytes are consumed, and a limit below -1 reads nothing;
   * a read that stops on a word without the terminator bit stops because one
   * more word would exceed the limit.
   */
  lemma ReadZStrShape(mem: seq<Byte>, index: nat, maxLen: int)
    requires ReadZStr(mem, index, maxLen).Ok?
    ensures var (consumed, chars) := ReadZStr(mem, index, maxLen).value;
            consumed % 2 == 0 && |chars| == 3 * (consumed / 2) && chars == Triples(mem, index, index + consumed) &&
            (forall w :: 0 <= w < consumed / 2 - 1 ==> mem[index + 2 * w] < 0x80) &&
            (maxLen == -1 ==> consumed >= 2 && mem[index + consumed - 2] >= 0x80) &&
            (maxLen >= 0 ==> consumed <= maxLen) &&
            (maxLen < -1 ==> consumed == 0) &&
            ((consumed >= 2 && mem[index + consumed - 2] >= 0x80) || (maxLen != -1 && consumed + 2 > maxLen))
  {
    UnpackFromEnds(mem, index, index, maxLen);
    UnpackFromLayout(mem, index, index, maxLen);
    UnpackFromLimit(mem, index, index, maxLen);
    UnpackFromStop(mem, index, index, maxLen);
    var (stop, chars) := UnpackFrom(mem, index, index, maxLen).value;
    forall w | 0 <= w < (stop - index) / 2 - 1
      ensures mem[index + 2 * w] < 0x80
    {
      assert index <= index + 2 * w < stop - 2 && (index + 2 * w - index) % 2 == 0;
    }
  }
}
