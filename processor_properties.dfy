/** What lib/gruesome/z/processor.rb promises, proved about `ProcessorModel`. */
module ProcessorProperties {
  import opened Wrappers
  import opened Words
  import opened MemoryModel
  import opened MemoryProperties
  import opened ProcessorModel

  // ---------------------------------------------------------------- signed words

  /** Every number a signed word can hold survives storing and reading back. */
  lemma SignedInverse(x: int)
    requires -0x8000 <= x < 0x8000
    ensures Signed(Mask16(x)) == x
  {
  }

  /** Reading a word as signed and masking it again gives the word back. */
  lemma MaskOfSigned(w: Word)
    ensures Mask16(Signed(w)) == w
  {
  }

  // ---------------------------------------------------------------- division

  /** Truncating division: the quotient of the magnitudes, negative when the signs differ. */
  function TruncDiv(a: int, b: int): int
    requires b != 0
  {
    var q := Abs(a) / Abs(b);
    if (a < 0) == (b < 0) then q else -q
  }

  lemma {:induction false} FloorOfQuotient(n: nat, d: nat)
    requires d > 0
    ensures (n as real / d as real).Floor == n / d
  {
    var k := n / d;
    var m := n % d;
    var q := n as real / d as real;
    assert n == k * d + m;
    assert q == k as real + m as real / d as real;
    assert 0.0 <= m as real / d as real < 1.0;
  }

  lemma QuotientOfNegated(x: real, y: real)
    requires y != 0.0
    ensures (-x) / y == -(x / y) && x / (-y) == -(x / y) && (-x) / (-y) == x / y
  {
  }

  /** The float quotient of DIV, floored in absolute value, is truncating division. */
  lemma {:induction false} FloatDivTruncates(a: int, b: int)
    requires b != 0
    ensures FloatDiv(a, b) == TruncDiv(a, b)
  {
    var x, y := Abs(a) as real, Abs(b) as real;
    var m := x / y;
    FloorOfQuotient(Abs(a), Abs(b));
    QuotientOfNegated(x, y);
    assert 0.0 <= m;
    if a >= 0 && b > 0 {
      assert a as real / b as real == m;
    } else if a < 0 && b < 0 {
      assert a as real == -x && b as real == -y;
      assert a as real / b as real == m;
    } else if a < 0 {
      assert a as real == -x && b as real == y;
      assert a as real / b as real == -m;
    } else {
      assert a as real == x && b as real == -y;
      assert a as real / b as real == -m;
    }
  }

  /**
   * DIV and MOD as the Standard wants them: the quotient truncates toward
   * zero, the remainder has the sign of the dividend and is smaller than the
   * divisor, and the two recombine into the dividend.
   */
  lemma DivModIdentity(a: int, b: int)
    requires b != 0
    ensures a == FloatDiv(a, b) * b + RubyMod(a, b)
    ensures Abs(RubyMod(a, b)) < Abs(b)
    ensures RubyMod(a, b) == 0 || (RubyMod(a, b) < 0 <==> a < 0)
    ensures Abs(FloatDiv(a, b) * b) <= Abs(a)
  {
    FloatDivTruncates(a, b);
    TruncDivModIdentity(a, b);
  }

  /** The same identity for the integer quotient. */
  lemma TruncDivModIdentity(a: int, b: int)
    requires b != 0
    ensures a == TruncDiv(a, b) * b + RubyMod(a, b)
    ensures Abs(TruncDiv(a, b) * b) <= Abs(a)
  {
    Euclid(Abs(a), Abs(b));
    SignedRecombine(a, b, Abs(a) / Abs(b), Abs(a) % Abs(b));
  }

  lemma Euclid(n: nat, d: nat)
    requires d > 0
    ensures n == (n / d) * d + n % d && 0 <= n / d && 0 <= n % d
  {
  }

  /** Restoring the signs of `|a| == q * |b| + m`, with no division in sight. */
  lemma SignedRecombine(a: int, b: int, q: int, m: int)
    requires b != 0 && 0 <= q && 0 <= m && Abs(a) == q * Abs(b) + m
    ensures a == (if (a < 0) == (b < 0) then q else -q) * b + (if a < 0 then -m else m)
    ensures Abs((if (a < 0) == (b < 0) then q else -q) * b) <= Abs(a)
  {
    var k := q * Abs(b);
    if b > 0 {
      assert q * b == k;
      assert (-q) * b == -k;
    } else {
      assert q * b == -k;
      assert (-q) * b == k;
    }
  }

  /** `7 / -2` gives -3 and `7 % -2` gives 1; `-7 / 2` gives -3 and `-7 % 2` gives -1. */
  lemma DivModExamples()
    ensures FloatDiv(7, -2) == -3 && RubyMod(7, -2) == 1
    ensures FloatDiv(-7, 2) == -3 && RubyMod(-7, 2) == -1
  {
    FloatDivTruncates(7, -2);
    FloatDivTruncates(-7, 2);
  }

  // ---------------------------------------------------------------- comparisons

  /** `inject(acc) { |r, e| r | rel(x, e) }` holds iff `acc` or the relation holds for some element. */
  lemma {:induction false} InjectIsExists(acc: bool, rel: Relation, x: Word, rest: seq<Word>)
    ensures Inject(acc, rel, x, rest) <==> acc || exists j :: 0 <= j < |rest| && Holds(rel, x, rest[j])
    decreases |rest|
  {
    if rest != [] {
      InjectIsExists(acc || Holds(rel, x, rest[0]), rel, x, rest[1..]);
      if exists j :: 0 <= j < |rest[1..]| && Holds(rel, x, rest[1..][j]) {
        var j :| 0 <= j < |rest[1..]| && Holds(rel, x, rest[1..][j]);
        assert Holds(rel, x, rest[j + 1]);
      }
      if exists j :: 0 <= j < |rest| && Holds(rel, x, rest[j]) {
        var j :| 0 <= j < |rest| && Holds(rel, x, rest[j]);
        if j > 0 {
          assert Holds(rel, x, rest[1..][j - 1]);
        }
      }
    }
  }

  /** JE, JG and JL branch on whether operand 0 relates to some later operand. */
  lemma ComparisonBranches(s: State, ins: Instruction, ops: seq<Word>)
    requires Valid(s) && |ops| >= 1
    requires ins.opcode == Je || ins.opcode == Jg || ins.opcode == Jl
    ensures var rel := if ins.opcode == Je then Equal else if ins.opcode == Jg then Greater else Less;
            Dispatch(s, ins, ops) ==
            Branch(s, ins.branchTo, ins.branchOn, exists j :: 1 <= j < |ops| && Holds(rel, ops[0], ops[j]))
  {
    var rel := if ins.opcode == Je then Equal else if ins.opcode == Jg then Greater else Less;
    InjectIsExists(false, rel, ops[0], ops[1..]);
    if exists j :: 0 <= j < |ops[1..]| && Holds(rel, ops[0], ops[1..][j]) {
      var j :| 0 <= j < |ops[1..]| && Holds(rel, ops[0], ops[1..][j]);
      assert Holds(rel, ops[0], ops[j + 1]);
    }
    if exists j :: 1 <= j < |ops| && Holds(rel, ops[0], ops[j]) {
      var j :| 1 <= j < |ops| && Holds(rel, ops[0], ops[j]);
      assert Holds(rel, ops[0], ops[1..][j - 1]);
    }
  }

  /**
   * JZ branches on a zero operand, CHECK_ARG_COUNT on the routine having
   * been given exactly operand 0 arguments, and TEST on every bit of
   * operand 1 being set in operand 0.
   */
  lemma TestBranches(s: State, ins: Instruction, ops: seq<Word>)
    requires Valid(s) && |ops| >= Arity(ins.opcode)
    requires ins.opcode == Jz || ins.opcode == CheckArgCount || ins.opcode == Test
    ensures ins.opcode == Jz ==> Dispatch(s, ins, ops) == Branch(s, ins.branchTo, ins.branchOn, ops[0] == 0)
    ensures ins.opcode == CheckArgCount ==>
              Dispatch(s, ins, ops) == Branch(s, ins.branchTo, ins.branchOn, s.numArguments == ops[0])
    ensures ins.opcode == Test ==>
              Dispatch(s, ins, ops) == Branch(s, ins.branchTo, ins.branchOn, And16(ops[0], ops[1]) == ops[1])
    ensures ins.opcode == Test && ops[1] == 0 ==>
              Dispatch(s, ins, ops) == Branch(s, ins.branchTo, ins.branchOn, true)
    ensures ins.opcode == Test && ops[0] == 0 && ops[1] != 0 ==>
              Dispatch(s, ins, ops) == Branch(s, ins.branchTo, ins.branchOn, false)
  {
    if ins.opcode == Test {
      And16Cases(ops[0], ops[1]);
    }
  }

  /** A zero operand makes `a & b` zero. */
  lemma And16Cases(a: Word, b: Word)
    ensures And16(a, 0) == 0 && And16(0, b) == 0
  {
    assert (a as bv16) & 0 == 0 && 0 & (b as bv16) == 0;
  }

  /**
   * SAVE and RESTORE never touch a file: up to version 4 they take the
   * success branch (version 4 storing 1 first), and from version 5 they
   * change nothing.
   */
  lemma SaveRestoreSucceed(s: State, ins: Instruction, ops: seq<Word>)
    requires Valid(s) && (ins.opcode == Save || ins.opcode == Restore)
    ensures s.header.version <= 3 ==> Dispatch(s, ins, ops) == Branch(s, ins.branchTo, ins.branchOn, true)
    ensures s.header.version <= 3 && ins.branchOn && ins.branchTo >= 2 ==>
              Dispatch(s, ins, ops) == Ok(s.(pc := ins.branchTo))
    ensures s.header.version <= 3 && !ins.branchOn ==> Dispatch(s, ins, ops) == Ok(s)
    ensures s.header.version == 4 && ins.destination.None? ==> Dispatch(s, ins, ops) == Err(MissingDestination)
    ensures s.header.version == 4 && ins.destination.Some? && WriteVar(s, ins.destination.value, 1).Ok? ==>
              Dispatch(s, ins, ops) == Branch(WriteVar(s, ins.destination.value, 1).value, ins.branchTo, ins.branchOn, true)
    ensures s.header.version >= 5 ==> Dispatch(s, ins, ops) == Ok(s)
  {
  }

  // ---------------------------------------------------------------- operands

  /** The first step of `ResolveFrom`: operand `idx` becomes `v`, and resolution goes on from `t`. */
  lemma ResolveHead(s: State, ins: Instruction, byRef: bool, idx: nat) returns (v: Word, t: State)
    requires Valid(s) && idx < |ins.operands| && PopsFrom(ins, byRef, idx) <= OperandDepth(s)
    requires ResolveFrom(s, ins, byRef, idx).Ok?
    ensures Valid(t) && PopsFrom(ins, byRef, idx + 1) <= OperandDepth(t)
    ensures Resolved(ins, byRef, idx) ==> ReadVar(s, ins.operands[idx]) == Ok((v, t))
    ensures !Resolved(ins, byRef, idx) ==> v == ins.operands[idx] && t == s
    ensures ResolveFrom(t, ins, byRef, idx + 1).Ok?
    ensures ResolveFrom(s, ins, byRef, idx).value.0 == [v] + ResolveFrom(t, ins, byRef, idx + 1).value.0
  {
    if Resolved(ins, byRef, idx) {
      v, t := ReadVar(s, ins.operands[idx]).value.0, ReadVar(s, ins.operands[idx]).value.1;
    } else {
      v, t := ins.operands[idx], s;
    }
  }

  /** Operands that are not resolved reach the arm unchanged. */
  lemma {:induction false} ResolvePassesThrough(s: State, ins: Instruction, byRef: bool, idx: nat)
    requires Valid(s) && idx <= |ins.operands| && PopsFrom(ins, byRef, idx) <= OperandDepth(s)
    requires ResolveFrom(s, ins, byRef, idx).Ok?
    ensures forall j :: idx <= j < |ins.operands| && !Resolved(ins, byRef, j) ==>
              ResolveFrom(s, ins, byRef, idx).value.0[j - idx] == ins.operands[j]
    decreases |ins.operands| - idx
  {
    if idx < |ins.operands| {
      var v, t := ResolveHead(s, ins, byRef, idx);
      ResolvePassesThrough(t, ins, byRef, idx + 1);
      var r := ResolveFrom(s, ins, byRef, idx).value.0;
      var rest := ResolveFrom(t, ins, byRef, idx + 1).value.0;
      forall j | idx < j < |ins.operands| && !Resolved(ins, byRef, j)
        ensures r[j - idx] == ins.operands[j]
      {
        assert r[j - idx] == rest[j - (idx + 1)];
      }
    }
  }

  /** A variable other than the stack top is read without changing the state. */
  lemma ReadVarIsValue(s: State, i: nat)
    requires Valid(s) && i != 0 && ReadVar(s, i).Ok?
    ensures ReadVar(s, i).value.1 == s && VarValue(s, i) == Some(ReadVar(s, i).value.0)
  {
  }

  /** When nothing is popped, each resolved operand is the value of the variable it names. */
  lemma {:induction false} ResolveReadsVariables(s: State, ins: Instruction, byRef: bool, idx: nat)
    requires Valid(s) && idx <= |ins.operands| && PopsFrom(ins, byRef, idx) == 0
    requires ResolveFrom(s, ins, byRef, idx).Ok?
    ensures forall j :: idx <= j < |ins.operands| && Resolved(ins, byRef, j) ==>
              VarValue(s, ins.operands[j]) == Some(ResolveFrom(s, ins, byRef, idx).value.0[j - idx])
    decreases |ins.operands| - idx
  {
    if idx < |ins.operands| {
      var v := ResolveHeadInPlace(s, ins, byRef, idx);
      ResolveReadsVariables(s, ins, byRef, idx + 1);
      var r := ResolveFrom(s, ins, byRef, idx).value.0;
      var rest := ResolveFrom(s, ins, byRef, idx + 1).value.0;
      forall j | idx < j < |ins.operands| && Resolved(ins, byRef, j)
        ensures VarValue(s, ins.operands[j]) == Some(r[j - idx])
      {
        assert r[j - idx] == rest[j - (idx + 1)];
      }
    }
  }

  /** `ResolveHead` when nothing is popped: the state stays put and a resolved operand is its variable's value. */
  lemma ResolveHeadInPlace(s: State, ins: Instruction, byRef: bool, idx: nat) returns (v: Word)
    requires Valid(s) && idx < |ins.operands| && PopsFrom(ins, byRef, idx) == 0
    requires ResolveFrom(s, ins, byRef, idx).Ok?
    ensures PopsFrom(ins, byRef, idx + 1) == 0 && ResolveFrom(s, ins, byRef, idx + 1).Ok?
    ensures Resolved(ins, byRef, idx) ==> VarValue(s, ins.operands[idx]) == Some(v)
    ensures ResolveFrom(s, ins, byRef, idx).value.0 == [v] + ResolveFrom(s, ins, byRef, idx + 1).value.0
  {
    var t;
    v, t := ResolveHead(s, ins, byRef, idx);
    if Resolved(ins, byRef, idx) {
      ReadVarIsValue(s, ins.operands[idx]);
    }
  }

  /** An instruction without variable operands executes its arm on the operands as decoded. */
  lemma ExecuteImmediate(s: State, ins: Instruction, byRef: bool)
    requires Valid(s) && Ready(s, ins, byRef)
    requires forall j :: 0 <= j < |ins.types| ==> ins.types[j] != Variable
    ensures ArmPops(s.header.version, ins, ins.operands) <= OperandDepth(s)
    ensures Execute(s, ins, byRef) == Dispatch(s, ins, ins.operands)
  {
    NoPopsWithoutVariables(ins, byRef, 0);
    ResolveNothing(s, ins, byRef, 0);
    assert ins.operands[0..] == ins.operands;
  }

  lemma {:induction false} ResolveNothing(s: State, ins: Instruction, byRef: bool, idx: nat)
    requires Valid(s) && idx <= |ins.operands|
    requires forall j :: !Resolved(ins, byRef, j)
    requires PopsFrom(ins, byRef, idx) == 0
    ensures ResolveFrom(s, ins, byRef, idx) == Ok((ins.operands[idx..], s))
    decreases |ins.operands| - idx
  {
    if idx < |ins.operands| {
      ResolveNothing(s, ins, byRef, idx + 1);
      assert [ins.operands[idx]] + ins.operands[idx + 1..] == ins.operands[idx..];
    }
  }

  lemma {:induction false} NoPopsWithoutVariables(ins: Instruction, byRef: bool, idx: nat)
    requires forall j :: 0 <= j < |ins.types| ==> ins.types[j] != Variable
    ensures PopsFrom(ins, byRef, idx) == 0
    ensures forall j :: !Resolved(ins, byRef, j)
    decreases |ins.operands| - idx
  {
    if idx < |ins.operands| {
      NoPopsWithoutVariables(ins, byRef, idx + 1);
    }
  }

  // ---------------------------------------------------------------- branches

  /**
   * `branch` does nothing unless the result matches `branch_on`; then target
   * 0 returns false, target 1 returns true and any other target becomes the
   * program counter, nothing else changing.
   */
  lemma BranchCases(s: State, branchTo: int, branchOn: bool, result: bool)
    requires Valid(s)
    ensures result != branchOn ==> Branch(s, branchTo, branchOn, result) == Ok(s)
    ensures result == branchOn && branchTo == 0 ==> Branch(s, branchTo, branchOn, result) == RoutineReturn(s, 0)
    ensures result == branchOn && branchTo == 1 ==> Branch(s, branchTo, branchOn, result) == RoutineReturn(s, 1)
    ensures result == branchOn && branchTo != 0 && branchTo != 1 ==>
              Branch(s, branchTo, branchOn, result).Ok? &&
              Branch(s, branchTo, branchOn, result).value == s.(pc := branchTo)
  {
  }

  /** JUMP and PIRACY move the program counter by the signed offset less 2 and change nothing else. */
  lemma JumpIsRelative(s: State, ins: Instruction, ops: seq<Word>)
    requires Valid(s) && |ops| >= 1 && (ins.opcode == Jump || ins.opcode == Piracy)
    ensures Dispatch(s, ins, ops).Ok?
    ensures var t := Dispatch(s, ins, ops).value;
            t.pc - s.pc == Signed(ops[0]) - 2 && t == s.(pc := t.pc)
  {
  }

  // ---------------------------------------------------------------- stores

  /** An arithmetic arm whose number is `x` stores `x` at its destination. */
  lemma StoresCalculated(s: State, ins: Instruction, ops: seq<Word>, d: nat, x: int)
    requires Valid(s) && IsArithmetic(ins.opcode) && |ops| >= Arity(ins.opcode)
    requires ins.destination == Some(d) && Calculate(ins.opcode, ops) == Ok(x)
    ensures Dispatch(s, ins, ops) == WriteVar(s, d, x)
  {
  }

  /** The exact result of ADD, SUB and MUL on the signed operands, before storing. */
  function Exact(op: Opcode, x: int, y: int): int
    requires op == Add || op == Sub || op == Mul
  {
    if op == Add then x + y else if op == Sub then x - y else x * y
  }

  /** A number masked to a word and read back as signed is congruent to it, and equal when it fits. */
  lemma Wrapped(x: int)
    ensures Signed(Mask16(x)) % 0x1_0000 == x % 0x1_0000
    ensures -0x8000 <= x < 0x8000 ==> Signed(Mask16(x)) == x
  {
  }

  /**
   * ADD, SUB and MUL store the signed result reduced to 16 bits: the stored
   * word read as signed is congruent to the exact result, and equal to it
   * when it fits.
   */
  lemma ArithmeticStoresWrapped(s: State, ins: Instruction, ops: seq<Word>, d: nat)
    requires Valid(s) && |ops| >= 2 && (ins.opcode == Add || ins.opcode == Sub || ins.opcode == Mul)
    requires ins.destination == Some(d) && Exists(s, d)
    ensures d < 16 ==> Dispatch(s, ins, ops).Ok?
    ensures var x := Exact(ins.opcode, Signed(ops[0]), Signed(ops[1]));
            Dispatch(s, ins, ops).Ok? ==>
              var v := VarValue(Dispatch(s, ins, ops).value, d);
              v == Some(Mask16(x)) && Signed(v.value) % 0x1_0000 == x % 0x1_0000 &&
              (-0x8000 <= x < 0x8000 ==> Signed(v.value) == x)
  {
    var x := Exact(ins.opcode, Signed(ops[0]), Signed(ops[1]));
    StoresCalculated(s, ins, ops, d, x);
    if WriteVar(s, d, x).Ok? {
      WriteVarThenValue(s, d, x);
      Wrapped(x);
    }
  }

  /** A storing opcode decoded without a destination raises. */
  lemma MissingDestinationRaises(s: State, ins: Instruction, ops: seq<Word>)
    requires Valid(s) && |ops| >= 2 && ins.destination == None
    requires ins.opcode in {Add, Sub, Mul, And, Or, Not, ArtShift, LogShift}
    ensures Dispatch(s, ins, ops) == Err(MissingDestination)
  {
  }

  /** DIV and MOD by zero raise; otherwise they store the truncated quotient and the remainder. */
  lemma DivModStore(s: State, ins: Instruction, ops: seq<Word>, d: nat)
    requires Valid(s) && |ops| >= 2 && (ins.opcode == Div || ins.opcode == Mod)
    requires ins.destination == Some(d) && Exists(s, d)
    ensures ops[1] == 0 ==> Dispatch(s, ins, ops) == Err(DivisionByZero)
    ensures ops[1] != 0 && Dispatch(s, ins, ops).Ok? ==>
              var a, b := Signed(ops[0]), Signed(ops[1]);
              VarValue(Dispatch(s, ins, ops).value, d) ==
                Some(Mask16(if ins.opcode == Div then TruncDiv(a, b) else RubyMod(a, b)))
  {
    if ops[1] != 0 {
      var a, b := Signed(ops[0]), Signed(ops[1]);
      var x := if ins.opcode == Div then FloatDiv(a, b) else RubyMod(a, b);
      StoresCalculated(s, ins, ops, d, x);
      if WriteVar(s, d, x).Ok? {
        FloatDivTruncates(a, b);
        WriteVarThenValue(s, d, x);
      }
    }
  }

  /** NOT stores the 16-bit complement: operand and result add up to 0xFFFF. */
  lemma NotComplements(s: State, ins: Instruction, ops: seq<Word>, d: nat)
    requires Valid(s) && |ops| >= 1 && ins.opcode == Not
    requires ins.destination == Some(d) && Exists(s, d)
    ensures d < 16 ==> Dispatch(s, ins, ops).Ok?
    ensures Dispatch(s, ins, ops).Ok? ==>
              var v := VarValue(Dispatch(s, ins, ops).value, d);
              v.Some? && v.value + ops[0] == 0xFFFF
  {
    var x := -(ops[0] as int) - 1;
    StoresCalculated(s, ins, ops, d, x);
    assert x == -1 * 0x1_0000 + (0xFFFF - (ops[0] as int));
    assert Mask16(x) == 0xFFFF - ops[0];
    if WriteVar(s, d, x).Ok? {
      WriteVarThenValue(s, d, x);
    }
  }

  lemma {:induction false} Pow2Split(k: nat)
    requires k >= 16
    ensures Pow2(k) == 0x1_0000 * Pow2(k - 16)
    decreases k
  {
    if k > 16 {
      Pow2Split(k - 1);
    } else {
      assert Pow2(2) == 4;
      assert Pow2(4) == 16;
      assert Pow2(6) == 64;
      assert Pow2(8) == 256;
      assert Pow2(10) == 1024;
      assert Pow2(12) == 4096;
      assert Pow2(14) == 16384;
    }
  }

  lemma ScaleKeepsSign(a: int, p: int)
    requires p >= 1
    ensures a >= 0 ==> a * p >= a
    ensures a <= 0 ==> a * p <= a
  {
    assert a * p - a == a * (p - 1);
  }

  lemma {:induction false} FloorDivStaysSigned(x: int, p: nat)
    requires -0x8000 <= x < 0x8000 && p >= 1
    ensures -0x8000 <= x / p < 0x8000
  {
    var q, r := x / p, x % p;
    assert x == q * p + r && 0 <= r < p;
    if x >= 0 {
      ScaleKeepsSign(q, p);
      if q < 0 {
        ScaleKeepsSign(q + 1, p);
        assert (q + 1) * p == q * p + p;
      }
    } else {
      ScaleKeepsSign(q + 1, p);
      assert (q + 1) * p == q * p + p;
      if q >= 0 {
        ScaleKeepsSign(q, p);
      }
    }
  }

  /** ART_SHIFT by a negative count is a sign-preserving floor shift to the right. */
  lemma ArithmeticShiftRight(s: State, ins: Instruction, ops: seq<Word>, d: nat)
    requires Valid(s) && |ops| >= 2 && ins.opcode == ArtShift && Signed(ops[1]) < 0
    requires ins.destination == Some(d) && Exists(s, d)
    ensures d < 16 ==> Dispatch(s, ins, ops).Ok?
    ensures Dispatch(s, ins, ops).Ok? ==>
              var v := VarValue(Dispatch(s, ins, ops).value, d);
              v.Some? && Signed(v.value) == Signed(ops[0]) / Pow2(-Signed(ops[1]))
  {
    var x := Signed(ops[0]) / Pow2(-Signed(ops[1]));
    StoresCalculated(s, ins, ops, d, x);
    if WriteVar(s, d, x).Ok? {
      WriteVarThenValue(s, d, x);
      FloorDivStaysSigned(Signed(ops[0]), Pow2(-Signed(ops[1])));
      SignedInverse(x);
    }
  }

  lemma DivShrinks(a: nat, p: nat)
    requires p >= 1
    ensures 0 <= a / p <= a
  {
    var q := a / p;
    assert q * p <= a;
    ScaleKeepsSign(q, p);
  }

  /** A word divided by a positive number is still a word, so masking keeps it. */
  lemma QuotientOfWord(w: Word, p: nat)
    requires p >= 1
    ensures Mask16(w / p) == w / p
  {
    DivShrinks(w, p);
  }

  /** LOG_SHIFT by a negative count shifts the unsigned word right. */
  lemma LogicalShiftRight(s: State, ins: Instruction, ops: seq<Word>, d: nat)
    requires Valid(s) && |ops| >= 2 && ins.opcode == LogShift && Signed(ops[1]) < 0
    requires ins.destination == Some(d) && Exists(s, d)
    ensures d < 16 ==> Dispatch(s, ins, ops).Ok?
    ensures Dispatch(s, ins, ops).Ok? ==>
              VarValue(Dispatch(s, ins, ops).value, d) == Some(ops[0] / Pow2(-Signed(ops[1])))
  {
    var p := Pow2(-Signed(ops[1]));
    var x := ops[0] / p;
    StoresCalculated(s, ins, ops, d, x);
    if WriteVar(s, d, x).Ok? {
      WriteVarThenValue(s, d, x);
      QuotientOfWord(ops[0], p);
    }
  }

  lemma MultipleOfWordSize(m: int)
    ensures Mask16(m * 0x1_0000) == 0
  {
  }

  lemma MaskOfShiftedOut(a: int, k: nat)
    requires k >= 16
    ensures Mask16(a * Pow2(k)) == 0
  {
    Pow2Split(k);
    var p := Pow2(k - 16);
    var m := a * p;
    assert a * Pow2(k) == a * (0x1_0000 * p);
    assert a * (0x1_0000 * p) == m * 0x1_0000;
    MultipleOfWordSize(m);
  }

  /** Shifting left, arithmetic or logical, by 16 places or more leaves 0. */
  lemma ShiftLeftPastWidth(s: State, ins: Instruction, ops: seq<Word>, d: nat)
    requires Valid(s) && |ops| >= 2 && (ins.opcode == ArtShift || ins.opcode == LogShift)
    requires Signed(ops[1]) >= 16
    requires ins.destination == Some(d) && Exists(s, d)
    ensures d < 16 ==> Dispatch(s, ins, ops).Ok?
    ensures Dispatch(s, ins, ops).Ok? ==> VarValue(Dispatch(s, ins, ops).value, d) == Some(0)
  {
    var k := Signed(ops[1]);
    var x := ops[0] * Pow2(k);
    StoresCalculated(s, ins, ops, d, x);
    if WriteVar(s, d, x).Ok? {
      WriteVarThenValue(s, d, x);
      MaskOfShiftedOut(ops[0], k);
    }
  }

  // ---------------------------------------------------------------- variables and the stack

  /** LOAD goes straight to `LoadVar`. */
  lemma LoadDispatch(s: State, ins: Instruction, ops: seq<Word>)
    requires Valid(s) && |ops| >= 1 && ins.opcode == Load
    requires ArmPops(s.header.version, ins, ops) <= OperandDepth(s)
    ensures Dispatch(s, ins, ops) == LoadVar(s, ops[0], ins.destination)
  {
  }

  /** The stack opcodes go to their own group of arms. */
  lemma StackDispatch(s: State, ins: Instruction, ops: seq<Word>)
    requires Valid(s) && |ops| >= Arity(ins.opcode) && IsStackOp(ins.opcode)
    requires ArmPops(s.header.version, ins, ops) <= OperandDepth(s)
    ensures Dispatch(s, ins, ops) == StackArm(s, ins, ops)
  {
  }

  /**
   * INC_CHK and DEC_CHK on a local: the local receives its signed value
   * plus or minus one, wrapped to 16 bits, while the branch compares the
   * unwrapped new value with signed operand 1.
   */
  lemma CheckedStepOnLocal(s: State, ins: Instruction, ops: seq<Word>)
    requires Valid(s) && |ops| >= 2 && (ins.opcode == IncChk || ins.opcode == DecChk)
    requires 1 <= ops[0] <= s.numLocals && ops[0] <= 15
    requires ins.branchTo != 0 && ins.branchTo != 1
    ensures Dispatch(s, ins, ops).Ok?
    ensures var before := Signed(VarValue(s, ops[0]).value);
            var updated := if ins.opcode == IncChk then before + 1 else before - 1;
            var taken := if ins.opcode == IncChk then updated > Signed(ops[1]) else updated < Signed(ops[1]);
            var t := Dispatch(s, ins, ops).value;
            VarValue(t, ops[0]) == Some(Mask16(updated)) &&
            t.pc == (if taken == ins.branchOn then ins.branchTo else s.pc) &&
            t.stack == s.stack[ops[0] := Mask16(updated)]
  {
    var i := ops[0];
    var delta := if ins.opcode == IncChk then 1 else -1;
    var updated := Signed(s.stack[i]) + delta;
    var t := s.(stack := s.stack[i := Mask16(updated)]);
    BumpLocal(s, i, delta);
    CounterDispatch(s, ins, ops);
    var taken := if ins.opcode == IncChk then updated > Signed(ops[1]) else updated < Signed(ops[1]);
    assert CounterArm(s, ins, ops) == Branch(t, ins.branchTo, ins.branchOn, taken);
    LocalValue(s, i);
    LocalValue(Dispatch(s, ins, ops).value, i);
  }

  /** The counter opcodes go to their own group of arms. */
  lemma CounterDispatch(s: State, ins: Instruction, ops: seq<Word>)
    requires Valid(s) && |ops| >= Arity(ins.opcode) && IsCounterOp(ins.opcode)
    requires ArmPops(s.header.version, ins, ops) <= OperandDepth(s)
    ensures Dispatch(s, ins, ops) == CounterArm(s, ins, ops)
  {
  }

  /** Adding `delta` to a local the routine has. */
  lemma BumpLocal(s: State, i: nat, delta: int)
    requires Valid(s) && 1 <= i <= s.numLocals && i <= 15
    ensures var updated := Signed(s.stack[i]) + delta;
            Bump(s, i, delta) == Ok((updated, s.(stack := s.stack[i := Mask16(updated)])))
  {
  }

  /** Adding `delta` to variable 0 replaces the top of the stack. */
  lemma BumpTop(s: State, delta: int)
    requires Valid(s) && OperandDepth(s) > 0
    ensures var updated := Signed(s.stack[|s.stack| - 1]) + delta;
            Bump(s, 0, delta) == Ok((updated, s.(stack := s.stack[|s.stack| - 1 := Mask16(updated)])))
  {
    var popped := s.(stack := s.stack[..|s.stack| - 1]);
    var updated := Signed(s.stack[|s.stack| - 1]) + delta;
    assert popped.stack + [Mask16(updated)] == s.stack[|s.stack| - 1 := Mask16(updated)];
  }

  /** What a local the routine has holds. */
  lemma LocalValue(s: State, i: nat)
    requires Valid(s) && 1 <= i <= s.numLocals && i <= 15
    ensures VarValue(s, i) == Some(s.stack[i])
  {
  }

  /** At 32767, INC_CHK stores -32768 (0x8000) yet still sees 32768, which exceeds every signed limit. */
  lemma IncChkAtMaximum(s: State, ins: Instruction, ops: seq<Word>)
    requires Valid(s) && |ops| >= 2 && ins.opcode == IncChk && ins.branchOn
    requires 1 <= ops[0] <= s.numLocals && ops[0] <= 15 && VarValue(s, ops[0]) == Some(0x7FFF)
    requires ins.branchTo != 0 && ins.branchTo != 1
    ensures Dispatch(s, ins, ops).Ok?
    ensures var t := Dispatch(s, ins, ops).value;
            VarValue(t, ops[0]) == Some(0x8000) && Signed(0x8000) == -0x8000 && t.pc == ins.branchTo
  {
    CheckedStepOnLocal(s, ins, ops);
  }

  /** INC and DEC of variable 0 replace the top of the stack instead of pushing. */
  lemma IncDecOnStackReplacesTop(s: State, ins: Instruction, ops: seq<Word>)
    requires Valid(s) && |ops| >= 1 && (ins.opcode == Inc || ins.opcode == Dec)
    requires ops[0] == 0 && OperandDepth(s) > 0
    ensures Dispatch(s, ins, ops).Ok?
    ensures var top := Signed(VarValue(s, 0).value);
            var t := Dispatch(s, ins, ops).value;
            OperandDepth(t) == OperandDepth(s) &&
            t == s.(stack := s.stack[|s.stack| - 1 := Mask16(if ins.opcode == Inc then top + 1 else top - 1)])
  {
    BumpTop(s, if ins.opcode == Inc then 1 else -1);
    CounterDispatch(s, ins, ops);
  }

  /** STORE to variable 0 replaces the top of the stack instead of pushing. */
  lemma StoreToStackReplacesTop(s: State, ins: Instruction, ops: seq<Word>)
    requires Valid(s) && |ops| >= 2 && ins.opcode == Store && ops[0] == 0 && OperandDepth(s) > 0
    ensures Dispatch(s, ins, ops) == Ok(s.(stack := s.stack[|s.stack| - 1 := ops[1]]))
  {
    StackDispatch(s, ins, ops);
    StoreArmOnStack(s, ins, ops);
  }

  lemma StoreArmOnStack(s: State, ins: Instruction, ops: seq<Word>)
    requires Valid(s) && |ops| >= 2 && ins.opcode == Store && ops[0] == 0 && OperandDepth(s) > 0
    ensures StackArm(s, ins, ops) == Ok(s.(stack := s.stack[|s.stack| - 1 := ops[1]]))
  {
    var popped := PopOperand(s).1;
    assert StackArm(s, ins, ops) == WriteVar(popped, 0, ops[1]);
    assert popped.stack + [ops[1]] == s.stack[|s.stack| - 1 := ops[1]];
  }

  /** LOAD into the variable it reads from changes nothing. */
  lemma LoadToItselfIsNoop(s: State, ins: Instruction, ops: seq<Word>)
    requires Valid(s) && |ops| >= 1 && ins.opcode == Load && ins.destination == Some(ops[0])
    ensures Dispatch(s, ins, ops) == Ok(s)
  {
  }

  /** LOAD from variable 0 into a local leaves the stack as deep as it was, top included. */
  lemma LoadFromStackKeepsDepth(s: State, ins: Instruction, ops: seq<Word>, d: nat)
    requires Valid(s) && |ops| >= 1 && ins.opcode == Load && ops[0] == 0 && OperandDepth(s) > 0
    requires ins.destination == Some(d) && 1 <= d <= s.numLocals && d <= 15
    ensures Dispatch(s, ins, ops).Ok?
    ensures var t := Dispatch(s, ins, ops).value;
            OperandDepth(t) == OperandDepth(s) && VarValue(t, 0) == VarValue(s, 0) &&
            VarValue(t, d) == VarValue(s, 0) && t == s.(stack := s.stack[d := s.stack[|s.stack| - 1]])
  {
    LoadDispatch(s, ins, ops);
    var top := s.stack[|s.stack| - 1];
    var popped := s.(stack := s.stack[..|s.stack| - 1]);
    var stored := popped.(stack := popped.stack[d := top]);
    assert stored.stack + [top] == s.stack[d := top];
  }

  /** PUSH then PULL into a local moves the value into the local and leaves the stack as it was. */
  lemma PushThenPull(s: State, push: Instruction, pull: Instruction, v: Word, d: nat)
    requires Valid(s) && push.opcode == Push && pull.opcode == Pull && s.header.version != 6
    requires 1 <= d <= s.numLocals && d <= 15
    ensures Dispatch(s, push, [v]).Ok?
    ensures var t := Dispatch(s, push, [v]).value;
            OperandDepth(t) == OperandDepth(s) + 1 &&
            Dispatch(t, pull, [d]) == Ok(s.(stack := s.stack[d := v]))
  {
    StackDispatch(s, push, [v]);
    PushArm(s, push, v);
    var t := s.(stack := s.stack + [v]);
    StackDispatch(t, pull, [d]);
    PullAfterPush(s, pull, v, d);
  }

  lemma PushArm(s: State, push: Instruction, v: Word)
    requires Valid(s) && push.opcode == Push
    ensures StackArm(s, push, [v]) == Ok(s.(stack := s.stack + [v]))
  {
  }

  lemma PullArm(s: State, pull: Instruction, d: Word)
    requires Valid(s) && pull.opcode == Pull && s.header.version != 6 && OperandDepth(s) > 0
    ensures StackArm(s, pull, [d]) == WriteVar(PopOperand(s).1, d, PopOperand(s).0)
  {
  }

  /** PULL of a value just pushed: the stack is as before, with the value in local `d`. */
  lemma PullAfterPush(s: State, pull: Instruction, v: Word, d: nat)
    requires Valid(s) && pull.opcode == Pull && s.header.version != 6
    requires 1 <= d <= s.numLocals && d <= 15
    ensures var t := s.(stack := s.stack + [v]);
            Valid(t) && StackArm(t, pull, [d]) == Ok(s.(stack := s.stack[d := v]))
  {
    var t := s.(stack := s.stack + [v]);
    assert WriteVar(s, 0, v) == Ok(t);
    PullArm(t, pull, d);
    assert t.stack[..|t.stack| - 1] == s.stack;
    assert PopOperand(t) == (v, s);
  }

  /** POP discards exactly what PUSH pushed. */
  lemma PushThenPop(s: State, push: Instruction, pop: Instruction, v: Word)
    requires Valid(s) && push.opcode == Push && pop.opcode == Pop
    ensures Dispatch(s, push, [v]).Ok?
    ensures Dispatch(Dispatch(s, push, [v]).value, pop, []) == Ok(s)
  {
    var t := Dispatch(s, push, [v]).value;
    assert t.stack[..|t.stack| - 1] == s.stack;
  }

  // ---------------------------------------------------------------- memory opcodes

  /** The memory opcodes go to their own group of arms. */
  lemma MemoryDispatch(s: State, ins: Instruction, ops: seq<Word>)
    requires Valid(s) && |ops| >= Arity(ins.opcode) && IsMemoryOp(ins.opcode)
    requires ArmPops(s.header.version, ins, ops) <= OperandDepth(s)
    ensures Dispatch(s, ins, ops) == MemoryArm(s, ins, ops)
  {
  }

  lemma StoreArms(s: State, ins: Instruction, ops: seq<Word>)
    requires Valid(s) && (ins.opcode == Storeb || ins.opcode == Storew) && |ops| == 3
    ensures ins.opcode == Storeb ==> MemoryArm(s, ins, ops) == WriteB(s, ops[0] + Signed(ops[1]), ops[2])
    ensures ins.opcode == Storew ==> MemoryArm(s, ins, ops) == WriteW(s, ops[0] + Signed(ops[1]) * 2, ops[2])
  {
  }

  lemma LoadArms(s: State, ins: Instruction, ops: seq<Word>)
    requires Valid(s) && (ins.opcode == Loadb || ins.opcode == Loadw) && |ops| == 2
    ensures ins.opcode == Loadb && ReadB(s, ops[0] + Signed(ops[1])).Ok? ==>
              MemoryArm(s, ins, ops) == StoreResult(s, ins.destination, ReadB(s, ops[0] + Signed(ops[1])).value)
    ensures ins.opcode == Loadw && ReadW(s, ops[0] + Signed(ops[1]) * 2).Ok? ==>
              MemoryArm(s, ins, ops) == StoreResult(s, ins.destination, ReadW(s, ops[0] + Signed(ops[1]) * 2).value)
  {
  }

  /** STOREB then LOADB at the same base and signed offset yields the stored byte. */
  lemma StorebThenLoadb(s: State, storeb: Instruction, loadb: Instruction, base: Word, offset: Word, v: Word, d: nat)
    requires Valid(s) && storeb.opcode == Storeb && loadb.opcode == Loadb
    requires loadb.destination == Some(d) && 1 <= d <= s.numLocals && d <= 15
    requires var a := base + Signed(offset); 0 <= a < s.header.staticBase && a < s.header.highBase && a < |s.mem|
    ensures Dispatch(s, storeb, [base, offset, v]).Ok?
    ensures var t := Dispatch(s, storeb, [base, offset, v]).value;
            Dispatch(t, loadb, [base, offset]).Ok? &&
            VarValue(Dispatch(t, loadb, [base, offset]).value, d) == Some(Mask8(v))
  {
    var t := StoredByte(s, storeb, base, offset, v);
    LoadArms(t, loadb, [base, offset]);
    MemoryDispatch(s, storeb, [base, offset, v]);
    MemoryDispatch(t, loadb, [base, offset]);
    LocalHolds(t, d, Mask8(v));
  }

  /** STOREW then LOADW at the same base and signed word index yields the stored word. */
  lemma StorewThenLoadw(s: State, storew: Instruction, loadw: Instruction, base: Word, index: Word, v: Word, d: nat)
    requires Valid(s) && storew.opcode == Storew && loadw.opcode == Loadw
    requires loadw.destination == Some(d) && 1 <= d <= s.numLocals && d <= 15
    requires var a := base + Signed(index) * 2;
             0 <= a && a + 1 < s.header.staticBase && a + 1 < s.header.highBase && a + 1 < |s.mem|
    ensures Dispatch(s, storew, [base, index, v]).Ok?
    ensures var t := Dispatch(s, storew, [base, index, v]).value;
            Dispatch(t, loadw, [base, index]).Ok? &&
            VarValue(Dispatch(t, loadw, [base, index]).value, d) == Some(v)
  {
    var t := StoredWord(s, storew, base, index, v);
    LoadArms(t, loadw, [base, index]);
    MemoryDispatch(s, storew, [base, index, v]);
    MemoryDispatch(t, loadw, [base, index]);
    LocalHolds(t, d, v);
  }

  /** A word written to a local the routine has is what the local then holds. */
  lemma LocalHolds(s: State, d: nat, x: Word)
    requires Valid(s) && 1 <= d <= s.numLocals && d <= 15
    ensures WriteVar(s, d, x).Ok? && VarValue(WriteVar(s, d, x).value, d) == Some(x)
  {
    WriteVarThenValue(s, d, x);
  }

  /** The STOREB arm writes one byte, which LOADB at the same address then reads. */
  lemma StoredByte(s: State, store: Instruction, base: Word, offset: Word, v: Word) returns (t: State)
    requires Valid(s) && store.opcode == Storeb
    requires var a := base + Signed(offset); 0 <= a < s.header.staticBase && a < |s.mem|
    ensures Valid(t) && MemoryArm(s, store, [base, offset, v]) == Ok(t)
    ensures base + Signed(offset) < s.header.highBase ==> ReadB(t, base + Signed(offset)) == Ok(Mask8(v))
  {
    var a := base + Signed(offset);
    t := s.(mem := s.mem[a := Mask8(v)]);
    StoreArms(s, store, [base, offset, v]);
  }

  /** `writew` of a word in dynamic memory succeeds, and `readw` there gives the word back. */
  lemma WordStored(s: State, a: int, v: Word) returns (t: State)
    requires 0 <= a && a + 1 < s.header.staticBase && a + 1 < |s.mem|
    ensures WriteW(s, a, v) == Ok(t) && t == s.(mem := t.mem)
    ensures a + 1 < s.header.highBase ==> ReadW(t, a) == Ok(v)
  {
    ForceWordRoundTrip(s.mem, a, v);
    t := s.(mem := ForceWriteW(s.mem, a, v).value);
    assert Mask16(v) == v;
  }

  /** The STOREW arm writes one word, which LOADW at the same address then reads. */
  lemma StoredWord(s: State, store: Instruction, base: Word, index: Word, v: Word) returns (t: State)
    requires Valid(s) && store.opcode == Storew
    requires var a := base + Signed(index) * 2; 0 <= a && a + 1 < s.header.staticBase && a + 1 < |s.mem|
    ensures Valid(t) && MemoryArm(s, store, [base, index, v]) == Ok(t)
    ensures base + Signed(index) * 2 + 1 < s.header.highBase ==> ReadW(t, base + Signed(index) * 2) == Ok(v)
  {
    var a := base + Signed(index) * 2;
    t := WordStored(s, a, v);
    StoreArms(s, store, [base, index, v]);
  }

  // ---------------------------------------------------------------- routine calls

  /**
   * `t` is `s` with only its program counter and current stack values
   * changed, the stack keeping its length and its return address.
   */
  predicate SameFrame(s: State, t: State)
  {
    t == s.(pc := t.pc, stack := t.stack) && |t.stack| == |s.stack| && |s.stack| > 0 && t.stack[0] == s.stack[0]
  }

  /** The stack after locals `i..n` take the words at `pc`, `pc + 2`, and so on. */
  ghost function HeaderStack(stack: seq<int>, mem: seq<Byte>, pc: int, i: nat, n: nat): seq<int>
    requires 1 <= i <= n + 1 && n < |stack| && 0 <= pc && pc + 2 * (n + 1 - i) <= |mem|
    decreases n + 1 - i
  {
    if i > n then stack else HeaderStack(stack[i := WordOf(mem[pc], mem[pc + 1])], mem, pc + 2, i + 1, n)
  }

  lemma {:induction false} HeaderStackContents(stack: seq<int>, mem: seq<Byte>, pc: int, i: nat, n: nat)
    requires 1 <= i <= n + 1 && n < |stack| && 0 <= pc && pc + 2 * (n + 1 - i) <= |mem|
    ensures var t := HeaderStack(stack, mem, pc, i, n);
            |t| == |stack| &&
            (forall j :: 0 <= j < |stack| && !(i <= j <= n) ==> t[j] == stack[j]) &&
            (forall j :: i <= j <= n ==> t[j] == WordOf(mem[pc + 2 * (j - i)], mem[pc + 2 * (j - i) + 1]))
    decreases n + 1 - i
  {
    if i <= n {
      var next := stack[i := WordOf(mem[pc], mem[pc + 1])];
      HeaderStackContents(next, mem, pc + 2, i + 1, n);
      var t := HeaderStack(next, mem, pc + 2, i + 1, n);
      forall j | i < j <= n
        ensures t[j] == WordOf(mem[pc + 2 * (j - i)], mem[pc + 2 * (j - i) + 1])
      {
        assert pc + 2 * (j - i) == (pc + 2) + 2 * (j - (i + 1));
      }
    }
  }

  /** `LocalsFromHeader` writes `HeaderStack` and advances the PC past the words it read. */
  lemma {:induction false} LocalsFromHeaderIs(s: State, i: nat, n: nat)
    requires Valid(s) && s.callStack != [] && s.numLocals == n && n <= 15 && 1 <= i <= n + 1
    requires 0 <= s.pc && s.pc + 2 * (n + 1 - i) <= |s.mem|
    ensures LocalsFromHeader(s, i, n) ==
              Ok(s.(stack := HeaderStack(s.stack, s.mem, s.pc, i, n), pc := s.pc + 2 * (n + 1 - i)))
    decreases n + 1 - i
  {
    if i <= n {
      var w := WordOf(s.mem[s.pc], s.mem[s.pc + 1]);
      assert ForceReadW(s.mem, s.pc) == Ok(w) && Mask16(w) == w;
      assert WriteVar(s, i, w) == Ok(s.(stack := s.stack[i := w]));
      var u := s.(stack := s.stack[i := w], pc := s.pc + 2);
      assert LocalsFromHeader(s, i, n) == LocalsFromHeader(u, i + 1, n);
      LocalsFromHeaderIs(u, i + 1, n);
    }
  }

  lemma LocalsFromHeaderEffect(s: State, i: nat, n: nat)
    requires Valid(s) && s.callStack != [] && s.numLocals == n && n <= 15 && 1 <= i <= n + 1
    requires 0 <= s.pc && s.pc + 2 * (n + 1 - i) <= |s.mem|
    ensures LocalsFromHeader(s, i, n).Ok?
    ensures var t := LocalsFromHeader(s, i, n).value;
            SameFrame(s, t) && t.pc == s.pc + 2 * (n + 1 - i) &&
            (forall j :: 0 <= j < |s.stack| && !(i <= j <= n) ==> t.stack[j] == s.stack[j]) &&
            (forall j :: i <= j <= n ==> t.stack[j] == WordOf(s.mem[s.pc + 2 * (j - i)], s.mem[s.pc + 2 * (j - i) + 1]))
  {
    LocalsFromHeaderIs(s, i, n);
    HeaderStackContents(s.stack, s.mem, s.pc, i, n);
  }

  lemma {:induction false} ZeroLocalsEffect(s: State, i: nat, n: nat)
    requires Valid(s) && s.callStack != [] && s.numLocals == n && n <= 15 && 1 <= i <= n + 1
    ensures ZeroLocals(s, i, n).Ok?
    ensures var t := ZeroLocals(s, i, n).value;
            SameFrame(s, t) && t.pc == s.pc &&
            forall j :: 0 <= j < |s.stack| ==> t.stack[j] == (if i <= j <= n then 0 else s.stack[j])
    decreases n + 1 - i
  {
    if i <= n {
      var t := WriteVar(s, i, 0).value;
      assert t == s.(stack := s.stack[i := 0]);
      ZeroLocalsEffect(t, i + 1, n);
    }
  }

  lemma {:induction false} CopyArgsEffect(s: State, args: seq<Word>, idx: nat)
    requires Valid(s) && s.callStack != [] && 1 <= idx && idx + |args| <= 16
    ensures CopyArgs(s, args, idx).Ok?
    ensures var t := CopyArgs(s, args, idx).value;
            SameFrame(s, t) && t.pc == s.pc &&
            forall j :: 0 <= j < |s.stack| ==>
              t.stack[j] == (if idx <= j < idx + |args| && j <= s.numLocals then args[j - idx] else s.stack[j])
    decreases |args|
  {
    if args != [] {
      var t := WriteVar(s, idx, args[0]).value;
      assert t == s.(stack := if idx <= s.numLocals then s.stack[idx := args[0]] else s.stack);
      CopyArgsEffect(t, args[1..], idx + 1);
    }
  }

  /** What local `i` starts as before the arguments are copied: a header word up to version 4, else 0. */
  function InitialLocal(s: State, address: nat, i: nat): Word
    requires 1 <= i && (s.header.version <= 4 ==> address + 2 * i < |s.mem|)
  {
    if s.header.version <= 4 then WordOf(s.mem[address + 2 * i - 1], s.mem[address + 2 * i]) else 0
  }

  /** The conditions under which a call touches locals only: at most 15 locals and 15 arguments, header words present. */
  predicate CallableRoutine(s: State, address: nat, args: seq<Word>)
  {
    address != 0 && address < |s.mem| && s.mem[address] <= 15 && |args| <= 15 &&
    (s.header.version <= 4 ==> address + 1 + 2 * s.mem[address] <= |s.mem|)
  }

  /** The state after `push_routine` and the initialisation of the locals, before the arguments. */
  lemma {:induction false} CallInitialisesLocals(s: State, address: nat, args: seq<Word>, dest: Option<nat>)
    returns (init: State)
    requires Valid(s) && CallableRoutine(s, address, args)
    ensures var n := s.mem[address];
            var framed := PushRoutine(s.(pc := address + 1), s.pc, n, |args|, dest);
            Valid(init) && init.callStack != [] && SameFrame(framed, init) &&
            (if s.header.version <= 4 then LocalsFromHeader(framed, 1, n) else ZeroLocals(framed, 1, n)) == Ok(init) &&
            init.pc == address + 1 + (if s.header.version <= 4 then 2 * n else 0) &&
            forall i :: 1 <= i <= n ==> init.stack[i] == InitialLocal(s, address, i)
  {
    var n := s.mem[address];
    var framed := PushRoutine(s.(pc := address + 1), s.pc, n, |args|, dest);
    assert framed.pc == address + 1 && framed.mem == s.mem && framed.numLocals == n;
    assert Valid(framed) && framed.callStack != [];
    if s.header.version <= 4 {
      init := HeaderLocalsOfCall(s, address, framed);
    } else {
      ZeroLocalsEffect(framed, 1, n);
      init := ZeroLocals(framed, 1, n).value;
    }
  }

  /** Up to version 4 the locals of a new frame come from the words after the local count. */
  lemma HeaderLocalsOfCall(s: State, address: nat, framed: State) returns (init: State)
    requires address < |s.mem| && s.mem[address] <= 15 && s.header.version <= 4
    requires address + 1 + 2 * s.mem[address] <= |s.mem|
    requires Valid(framed) && framed.callStack != [] && framed.numLocals == s.mem[address]
    requires framed.pc == address + 1 && framed.mem == s.mem && framed.header == s.header
    ensures var n := s.mem[address];
            SameFrame(framed, init) && LocalsFromHeader(framed, 1, n) == Ok(init) && init.pc == address + 1 + 2 * n &&
            forall i :: 1 <= i <= n ==> init.stack[i] == InitialLocal(s, address, i)
  {
    var n := s.mem[address];
    var stack := HeaderStack(framed.stack, framed.mem, framed.pc, 1, n);
    init := framed.(stack := stack, pc := framed.pc + 2 * n);
    assert LocalsFromHeader(framed, 1, n) == Ok(init) by {
      LocalsFromHeaderIs(framed, 1, n);
    }
    assert |stack| == |framed.stack| && stack[0] == framed.stack[0] &&
           forall j :: 1 <= j <= n ==>
             stack[j] == WordOf(s.mem[address + 1 + 2 * (j - 1)], s.mem[address + 1 + 2 * (j - 1) + 1]) by {
      HeaderStackContents(framed.stack, framed.mem, framed.pc, 1, n);
    }
    HeaderWordsAsLocals(s, address, stack, n);
  }

  lemma HeaderWordsAsLocals(s: State, address: nat, stack: seq<int>, n: nat)
    requires s.header.version <= 4 && address + 1 + 2 * n <= |s.mem| && n < |stack|
    requires forall j :: 1 <= j <= n ==>
               stack[j] == WordOf(s.mem[address + 1 + 2 * (j - 1)], s.mem[address + 1 + 2 * (j - 1) + 1])
    ensures forall i :: 1 <= i <= n ==> stack[i] == InitialLocal(s, address, i)
  {
    forall i | 1 <= i <= n
      ensures stack[i] == InitialLocal(s, address, i)
    {
      assert address + 1 + 2 * (i - 1) == address + 2 * i - 1;
    }
  }

  /**
   * `routine_call(address, args, d)`: the routine's byte gives its local
   * count `n`; the PC ends past the header (and its initial values up to
   * version 4); locals 1..n hold the arguments, then the header words or 0;
   * surplus arguments are dropped; the call stack grows by one frame and no
   * operand is on the new stack.
   */
  lemma CallSetsUpFrame(s: State, address: nat, args: seq<Word>, dest: Option<nat>)
    requires Valid(s) && CallableRoutine(s, address, args)
    ensures RoutineCall(s, address, args, dest).Ok?
    ensures var n := s.mem[address];
            var t := RoutineCall(s, address, args, dest).value;
            t.pc == address + 1 + (if s.header.version <= 4 then 2 * n else 0) &&
            t.numLocals == n && t.numArguments == |args| && t.mem == s.mem &&
            |t.callStack| == |s.callStack| + 4 && OperandDepth(t) == 0 && t.stack[0] == s.pc &&
            forall i :: 1 <= i <= n ==>
              VarValue(t, i) == Some(if i <= |args| then args[i - 1] else InitialLocal(s, address, i))
  {
    var n := s.mem[address];
    var init := CallInitialisesLocals(s, address, args, dest);
    CopyArgsEffect(init, args, 1);
    assert RoutineCall(s, address, args, dest) == CopyArgs(init, args, 1);
    var t := CopyArgs(init, args, 1).value;
    forall i | 1 <= i <= n
      ensures VarValue(t, i) == Some(if i <= |args| then args[i - 1] else InitialLocal(s, address, i))
    {
      assert VarValue(t, i) == Some(t.stack[i]);
    }
  }

  /** A call to packed address 0 calls nothing: it stores 0 in the destination, if any. */
  lemma NullCall(s: State, args: seq<Word>, dest: Option<nat>)
    requires Valid(s)
    ensures dest.None? ==> RoutineCall(s, 0, args, dest) == Ok(s)
    ensures dest.Some? && Exists(s, dest.value) && RoutineCall(s, 0, args, dest).Ok? ==>
              var t := RoutineCall(s, 0, args, dest).value;
              VarValue(t, dest.value) == Some(0) && t.pc == s.pc && t.callStack == s.callStack &&
              t.numLocals == s.numLocals && t.numArguments == s.numArguments
  {
    if dest.Some? && Exists(s, dest.value) && RoutineCall(s, 0, args, dest).Ok? {
      WriteVarThenValue(s, dest.value, 0);
    }
  }

  lemma WriteVarIgnoresPc(s: State, i: nat, v: int, pc: int)
    requires Valid(s)
    ensures WriteVar(s.(pc := pc), i, v).Ok? == WriteVar(s, i, v).Ok?
    ensures WriteVar(s, i, v).Ok? ==> WriteVar(s.(pc := pc), i, v).value == WriteVar(s, i, v).value.(pc := pc)
    ensures WriteVar(s, i, v).Err? ==> WriteVar(s.(pc := pc), i, v) == WriteVar(s, i, v)
  {
  }

  /** After a call, the state is the pushed frame with only the routine's PC and stack values moved on. */
  lemma {:induction false} CalledFrame(s: State, address: nat, args: seq<Word>, dest: Option<nat>)
    requires Valid(s) && CallableRoutine(s, address, args)
    ensures RoutineCall(s, address, args, dest).Ok?
    ensures var t := RoutineCall(s, address, args, dest).value;
            t == PushRoutine(s.(pc := address + 1), s.pc, s.mem[address], |args|, dest).(stack := t.stack, pc := t.pc) &&
            StackShape(t.stack, s.mem[address], true) && t.stack[0] == s.pc
  {
    var init := CallInitialisesLocals(s, address, args, dest);
    CopyArgsEffect(init, args, 1);
    assert RoutineCall(s, address, args, dest) == CopyArgs(init, args, 1);
  }

  /** Returning into a caller that `pop_routine` restores stores the result and resumes at its PC. */
  lemma {:induction false} ReturnResumes(s: State, t: State, dest: Option<nat>, result: int, pc: int)
    requires Valid(s) && Valid(t)
    requires PopRoutine(t) == Ok((Frame(dest, s.pc), s.(pc := pc)))
    ensures RoutineReturn(t, result) == (if dest.Some? then WriteVar(s, dest.value, result) else Ok(s))
  {
    if dest.Some? {
      WriteVarIgnoresPc(s, dest.value, result, pc);
      if WriteVar(s, dest.value, result).Ok? {
        var u := WriteVar(s, dest.value, result).value;
        assert u.(pc := pc).(pc := s.pc) == u;
      }
    } else {
      assert s.(pc := pc).(pc := s.pc) == s;
    }
  }

  /**
   * `routine_call` then `routine_return(r)`: the caller resumes at its own
   * PC with its stack, locals, argument count and frames as they were, and
   * `r` (masked) is stored in the call's destination when one was given.
   */
  lemma CallThenReturn(s: State, address: nat, args: seq<Word>, dest: Option<nat>, result: int)
    requires Valid(s) && CallableRoutine(s, address, args)
    ensures RoutineCall(s, address, args, dest).Ok?
    ensures RoutineReturn(RoutineCall(s, address, args, dest).value, result) ==
            (if dest.Some? then WriteVar(s, dest.value, result) else Ok(s))
  {
    CalledFrame(s, address, args, dest);
    var t := RoutineCall(s, address, args, dest).value;
    var s1 := s.(pc := address + 1);
    PopRestoresCaller(s1, s.pc, s.mem[address], |args|, dest, t.stack, t.pc);
    assert s1.(pc := t.pc) == s.(pc := t.pc);
    ReturnResumes(s, t, dest, result, t.pc);
  }

  /** RTRUE and RFALSE are RET of 1 and 0; RET_POPPED returns the value it pops. */
  lemma ReturnOpcodes(s: State, ins: Instruction, ops: seq<Word>)
    requires Valid(s) && |ops| >= Arity(ins.opcode)
    requires ins.opcode == Rtrue || ins.opcode == Rfalse || ins.opcode == Ret || ins.opcode == RetPopped
    requires ins.opcode == RetPopped ==> OperandDepth(s) > 0
    ensures ins.opcode == Rtrue ==> Dispatch(s, ins, ops) == RoutineReturn(s, 1)
    ensures ins.opcode == Rfalse ==> Dispatch(s, ins, ops) == RoutineReturn(s, 0)
    ensures ins.opcode == Ret ==> Dispatch(s, ins, ops) == RoutineReturn(s, ops[0])
    ensures ins.opcode == RetPopped ==>
              Dispatch(s, ins, ops) == RoutineReturn(s.(stack := s.stack[..|s.stack| - 1]), s.stack[|s.stack| - 1])
  {
  }

  /** Outside every routine, any return raises instead of resuming anything. */
  lemma ReturnAtTopLevelRaises(s: State, result: int)
    requires Valid(s) && s.callStack == []
    ensures RoutineReturn(s, result) == Err(CallStackUnderflow)
  {
  }
}
