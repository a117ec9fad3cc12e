/**
 * Value-level model of `Processor` (lib/gruesome/z/processor.rb): routine
 * call and return, branching, operand resolution and the arms of `execute`
 * that act on memory alone. Every operation maps a memory `State` to the
 * next one or to the error the Ruby code raises; the class in processor.dfy
 * is proved against these functions.
 */
module ProcessorModel {
  import opened Wrappers
  import opened Words
  import opened MemoryModel

  datatype OperandType = Large | Small | Variable | Omitted

  /**
   * The opcodes whose `execute` arm is modelled. `Call` stands for all eight
   * CALL spellings (they share one arm); `NoArm` for an opcode whose arm is
   * not modelled (or that `execute` has no arm for at all).
   */
  datatype Opcode =
    | Add | Sub | Mul | Div | Mod | And | Or | Not | ArtShift | LogShift
    | Je | Jg | Jl | Jz | Test | CheckArgCount
    | Inc | Dec | IncChk | DecChk | Load | Store | Push | Pull | Pop
    | Loadb | Loadw | Storeb | Storew
    | Jump | Piracy | Ret | Rtrue | Rfalse | RetPopped | Call
    | Save | Restore | Nop | NoArm

  /** A decoded instruction: `destination` is nil for opcodes that store nothing. */
  datatype Instruction = Instruction(
    opcode: Opcode,
    operands: seq<Word>,
    types: seq<OperandType>,
    destination: Option<nat>,
    branchTo: int,
    branchOn: bool)

  /** How many operands the arm of `opcode` reads (`operands[k]` for k below this). */
  function Arity(op: Opcode): nat
  {
    match op
    case Storeb | Storew => 3
    case Add | Sub | Mul | Div | Mod | And | Or | ArtShift | LogShift
      | Test | IncChk | DecChk | Store | Loadb | Loadw => 2
    case Not | Je | Jg | Jl | Jz | CheckArgCount | Inc | Dec | Load | Push | Pull
      | Jump | Piracy | Ret | Call => 1
    case Rtrue | Rfalse | RetPopped | Pop | Save | Restore | Nop | NoArm => 0
  }

  // ---------------------------------------------------------------- signed words

  /** `unsigned_to_signed`: a word read as a two's complement 16-bit number. */
  function Signed(w: Word): (r: int)
    ensures -0x8000 <= r < 0x8000
    ensures r % 0x1_0000 == w
    ensures (r < 0) == (w >= 0x8000)
  {
    if w >= 0x8000 then -(0x1_0000 - w) else w
  }

  /**
   * DIV as written: both operands go through `to_f`, the quotient is
   * floored in absolute value. Floats are modelled by exact reals; for
   * 16-bit operands the double quotient is never close enough to an integer
   * for rounding to change the floor.
   */
  function FloatDiv(a: int, b: int): int
    requires b != 0
  {
    var q := a as real / b as real;
    if q < 0.0 then -((-q).Floor) else q.Floor
  }

  /** MOD as written: `a.abs % b.abs`, negated when `a` is negative. */
  function RubyMod(a: int, b: int): int
    requires b != 0
  {
    var m := Abs(a) % Abs(b);
    if a < 0 then -m else m
  }

  function Abs(x: int): nat { if x < 0 then -x else x }

  // ---------------------------------------------------------------- comparisons

  datatype Relation = Equal | Greater | Less

  predicate Holds(rel: Relation, x: Word, y: Word)
  {
    match rel
    case Equal => x == y
    case Greater => Signed(x) > Signed(y)
    case Less => Signed(x) < Signed(y)
  }

  /** `operands[1..-1].inject(acc) { |result, e| result | rel(x, e) }` */
  function Inject(acc: bool, rel: Relation, x: Word, rest: seq<Word>): bool
    decreases |rest|
  {
    if rest == [] then acc else Inject(acc || Holds(rel, x, rest[0]), rel, x, rest[1..])
  }

  // ---------------------------------------------------------------- operands

  /**
   * Whether operand `idx` is replaced by the value of the variable it names:
   * it is variable-typed and not the by-reference first operand.
   */
  predicate Resolved(ins: Instruction, byRef: bool, idx: nat)
  {
    !(idx == 0 && byRef) && idx < |ins.types| && ins.types[idx] == Variable
  }

  /** How many stack pops resolving operands `idx..` performs. */
  function PopsFrom(ins: Instruction, byRef: bool, idx: nat): nat
    decreases |ins.operands| - idx
  {
    if idx >= |ins.operands| then 0
    else (if Resolved(ins, byRef, idx) && ins.operands[idx] == 0 then 1 else 0) + PopsFrom(ins, byRef, idx + 1)
  }

  /**
   * The `each_with_index.map` at the top of `execute`, from operand `idx` on:
   * variable operands are read (popping the stack for variable 0), the rest
   * pass through unchanged.
   */
  function ResolveFrom(s: State, ins: Instruction, byRef: bool, idx: nat): (r: Res<(seq<Word>, State)>)
    requires Valid(s) && idx <= |ins.operands|
    requires PopsFrom(ins, byRef, idx) <= OperandDepth(s)
    ensures r.Ok? ==> |r.value.0| == |ins.operands| - idx
    ensures r.Ok? ==> Valid(r.value.1) && r.value.1 == s.(stack := r.value.1.stack)
    ensures r.Ok? ==> OperandDepth(r.value.1) == OperandDepth(s) - PopsFrom(ins, byRef, idx)
    decreases |ins.operands| - idx
  {
    if idx == |ins.operands| then Ok(([], s))
    else if Resolved(ins, byRef, idx) then
      var vt :- ReadVar(s, ins.operands[idx]);
      var rest :- ResolveFrom(vt.1, ins, byRef, idx + 1);
      Ok(([vt.0] + rest.0, rest.1))
    else
      var rest :- ResolveFrom(s, ins, byRef, idx + 1);
      Ok(([ins.operands[idx]] + rest.0, rest.1))
  }

  // ---------------------------------------------------------------- routines

  /** `writev(destination, v)`; a storing opcode without a destination fails on nil. */
  function StoreResult(s: State, dest: Option<nat>, v: int): (r: Res<State>)
    requires Valid(s)
    ensures r.Ok? ==> Valid(r.value)
  {
    match dest
    case None => Err(MissingDestination)
    case Some(d) => WriteVar(s, d, v)
  }

  /** Locals `i..n` from the words after the local count (versions 1 to 4), advancing the PC. */
  function LocalsFromHeader(s: State, i: nat, n: nat): (r: Res<State>)
    requires Valid(s) && 1 <= i <= n + 1
    ensures r.Ok? ==> Valid(r.value)
    decreases n + 1 - i
  {
    if i > n then Ok(s)
    else
      var w :- ForceReadW(s.mem, s.pc);
      var t :- WriteVar(s, i, w);
      LocalsFromHeader(t.(pc := t.pc + 2), i + 1, n)
  }

  /** Locals `i..n` set to 0 (versions 5 and later). */
  function ZeroLocals(s: State, i: nat, n: nat): (r: Res<State>)
    requires Valid(s) && 1 <= i <= n + 1
    ensures r.Ok? ==> Valid(r.value)
    decreases n + 1 - i
  {
    if i > n then Ok(s)
    else
      var t :- WriteVar(s, i, 0);
      ZeroLocals(t, i + 1, n)
  }

  /** The arguments written to locals `idx`, `idx + 1`, ... */
  function CopyArgs(s: State, args: seq<Word>, idx: nat): (r: Res<State>)
    requires Valid(s)
    ensures r.Ok? ==> Valid(r.value)
    decreases |args|
  {
    if args == [] then Ok(s)
    else
      var t :- WriteVar(s, idx, args[0]);
      CopyArgs(t, args[1..], idx + 1)
  }

  /**
   * `routine_call`: address 0 stores 0 and calls nothing; otherwise the
   * routine's local count is read, a frame is pushed, the locals are
   * initialised and the arguments copied over them.
   */
  function RoutineCall(s: State, address: nat, args: seq<Word>, dest: Option<nat>): (r: Res<State>)
    requires Valid(s)
    ensures r.Ok? ==> Valid(r.value)
  {
    if address == 0 then
      if dest.Some? then WriteVar(s, dest.value, 0) else Ok(s)
    else
      var n :- ForceReadB(s.mem, address);
      var framed := PushRoutine(s.(pc := address + 1), s.pc, n, |args|, dest);
      var initialised :- if s.header.version <= 4 then LocalsFromHeader(framed, 1, n) else ZeroLocals(framed, 1, n);
      CopyArgs(initialised, args, 1)
  }

  /** `routine_return`: pop the frame, store the result if asked to, resume the caller. */
  function RoutineReturn(s: State, result: int): (r: Res<State>)
    requires Valid(s)
    ensures r.Ok? ==> Valid(r.value)
  {
    var popped :- PopRoutine(s);
    var frame := popped.0;
    var t :- if frame.destination.Some? then WriteVar(popped.1, frame.destination.value, result) else Ok(popped.1);
    Ok(t.(pc := frame.returnAddress))
  }

  /** `branch`: when the condition matches, target 0 and 1 return false and true, others jump. */
  function Branch(s: State, branchTo: int, branchOn: bool, result: bool): (r: Res<State>)
    requires Valid(s)
    ensures r.Ok? ==> Valid(r.value)
  {
    if result == branchOn then
      if branchTo == 0 then RoutineReturn(s, 0)
      else if branchTo == 1 then RoutineReturn(s, 1)
      else Ok(s.(pc := branchTo))
    else Ok(s)
  }

  // ---------------------------------------------------------------- execute

  /**
   * How many values the arm itself pops from the stack, given the resolved
   * operands: variable 0 named by reference, POP, PULL and RET_POPPED.
   */
  function ArmPops(version: nat, ins: Instruction, ops: seq<Word>): nat
    requires |ops| >= Arity(ins.opcode)
  {
    match ins.opcode
    case Pop | RetPopped => 1
    case Pull => if version == 6 then 0 else 1
    case Store | Inc | Dec | IncChk | DecChk => if ops[0] == 0 then 1 else 0
    case Load => if ops[0] == 0 && ins.destination != Some(0) then 1 else 0
    case _ => 0
  }

  /** INC and DEC: the variable named by operand 0 becomes its signed value plus `delta`. */
  function Bump(s: State, variable: nat, delta: int): (r: Res<(int, State)>)
    requires Valid(s)
    requires variable == 0 ==> OperandDepth(s) > 0
    ensures r.Ok? ==> Valid(r.value.1)
  {
    var vt :- ReadVar(s, variable);
    var updated := Signed(vt.0) + delta;
    var t :- WriteVar(vt.1, variable, updated);
    Ok((updated, t))
  }

  /** LOAD: copy a variable to the destination; a value popped for it is pushed back. */
  function LoadVar(s: State, source: nat, dest: Option<nat>): (r: Res<State>)
    requires Valid(s)
    requires source == 0 && dest != Some(0) ==> OperandDepth(s) > 0
    ensures r.Ok? ==> Valid(r.value)
  {
    if Some(source) == dest then Ok(s)
    else
      var vt :- ReadVar(s, source);
      match dest
      case None => Err(MissingDestination)
      case Some(d) =>
        var t :- WriteVar(vt.1, d, vt.0);
        if source == 0 then
          var ut :- ReadVar(t, d);
          WriteVar(ut.1, 0, ut.0)
        else Ok(t)
  }

  /** The opcodes whose arm computes a number and hands it to `writev` at the destination. */
  predicate IsArithmetic(op: Opcode)
  {
    op.Add? || op.Sub? || op.Mul? || op.Div? || op.Mod? || op.And? || op.Or? || op.Not? || op.ArtShift? || op.LogShift?
  }

  /**
   * The number an arithmetic arm computes before storing it. DIV and MOD by
   * zero raise before anything is written: the float quotient's `floor`
   * fails on an infinity or NaN, and Ruby's `%` refuses a zero divisor.
   */
  function Calculate(op: Opcode, ops: seq<Word>): (r: Res<int>)
    requires IsArithmetic(op) && |ops| >= Arity(op)
    ensures r.Err? <==> (op == Div || op == Mod) && ops[1] == 0
    ensures r.Err? ==> r.error == DivisionByZero
  {
    if op == Add then Ok(Signed(ops[0]) + Signed(ops[1]))
    else if op == Sub then Ok(Signed(ops[0]) - Signed(ops[1]))
    else if op == Mul then Ok(Signed(ops[0]) * Signed(ops[1]))
    else if op == Div || op == Mod then
      if Signed(ops[1]) == 0 then Err(DivisionByZero)
      else if op == Div then Ok(FloatDiv(Signed(ops[0]), Signed(ops[1])))
      else Ok(RubyMod(Signed(ops[0]), Signed(ops[1])))
    else if op == And then Ok(And16(ops[0], ops[1]))
    else if op == Or then Ok(Or16(ops[0], ops[1]))
    else if op == Not then Ok(-(ops[0] as int) - 1)
    else
      // ART_SHIFT shifts the signed word, LOG_SHIFT the unsigned one.
      var places := Signed(ops[1]);
      if places < 0 then Ok((if op == ArtShift then Signed(ops[0]) else ops[0]) / Pow2(-places))
      else Ok(ops[0] * Pow2(places))
  }

  /** The comparison opcodes: each branches on a condition of its operands. */
  predicate IsComparison(op: Opcode)
  {
    op.Je? || op.Jg? || op.Jl? || op.Jz? || op.Test? || op.CheckArgCount?
  }

  /** INC, DEC, INC_CHK and DEC_CHK: add one to a variable or take one away. */
  predicate IsCounterOp(op: Opcode)
  {
    op.Inc? || op.Dec? || op.IncChk? || op.DecChk?
  }

  /** STORE, PUSH, PULL and POP: write a variable or move values on and off the stack. */
  predicate IsStackOp(op: Opcode)
  {
    op.Store? || op.Push? || op.Pull? || op.Pop?
  }

  /** The opcodes that load and store bytes and words of memory. */
  predicate IsMemoryOp(op: Opcode)
  {
    op.Loadb? || op.Loadw? || op.Storeb? || op.Storew?
  }

  /** ADD to LOG_SHIFT: compute the number, then `writev` it at the destination. */
  function ArithmeticArm(s: State, ins: Instruction, ops: seq<Word>): (r: Res<State>)
    requires Valid(s) && IsArithmetic(ins.opcode) && |ops| >= Arity(ins.opcode)
    ensures r.Ok? ==> Valid(r.value)
  {
    var v :- Calculate(ins.opcode, ops);
    StoreResult(s, ins.destination, v)
  }

  /** What JE, JG, JL, JZ, TEST and CHECK_ARG_COUNT branch on. */
  function Condition(numArguments: nat, op: Opcode, ops: seq<Word>): bool
    requires IsComparison(op) && |ops| >= Arity(op)
  {
    if op == Je then Inject(false, Equal, ops[0], ops[1..])
    else if op == Jg then Inject(false, Greater, ops[0], ops[1..])
    else if op == Jl then Inject(false, Less, ops[0], ops[1..])
    else if op == Jz then ops[0] == 0
    else if op == Test then And16(ops[0], ops[1]) == ops[1]
    else numArguments == ops[0]
  }

  /** INC, DEC, INC_CHK and DEC_CHK. */
  function CounterArm(s: State, ins: Instruction, ops: seq<Word>): (r: Res<State>)
    requires Valid(s) && IsCounterOp(ins.opcode) && |ops| >= Arity(ins.opcode)
    requires ops[0] == 0 ==> OperandDepth(s) > 0
    ensures r.Ok? ==> Valid(r.value)
  {
    var op := ins.opcode;
    var bumped :- Bump(s, ops[0], if op == Inc || op == IncChk then 1 else -1);
    if op == IncChk then Branch(bumped.1, ins.branchTo, ins.branchOn, bumped.0 > Signed(ops[1]))
    else if op == DecChk then Branch(bumped.1, ins.branchTo, ins.branchOn, bumped.0 < Signed(ops[1]))
    else Ok(bumped.1)
  }

  /** STORE, PUSH, PULL and POP. */
  function StackArm(s: State, ins: Instruction, ops: seq<Word>): (r: Res<State>)
    requires Valid(s) && IsStackOp(ins.opcode) && |ops| >= Arity(ins.opcode)
    requires ArmPops(s.header.version, ins, ops) <= OperandDepth(s)
    ensures r.Ok? ==> Valid(r.value)
  {
    var op := ins.opcode;
    if op == Store then
      if ops[0] == 0 then
        WriteVar(PopOperand(s).1, 0, ops[1])
      else WriteVar(s, ops[0], ops[1])
    else if op == Push then WriteVar(s, 0, ops[0])
    else if op == Pull then
      if s.header.version == 6 then Ok(s)
      else
        var vt := PopOperand(s);
        WriteVar(vt.1, ops[0], vt.0)
    else
      // POP
      Ok(PopOperand(s).1)
  }

  /** LOADB, LOADW, STOREB and STOREW: the offset is signed, in bytes or in words. */
  function MemoryArm(s: State, ins: Instruction, ops: seq<Word>): (r: Res<State>)
    requires Valid(s) && IsMemoryOp(ins.opcode) && |ops| >= Arity(ins.opcode)
    ensures r.Ok? ==> Valid(r.value)
  {
    var op := ins.opcode;
    if op == Loadb then
      var b :- ReadB(s, ops[0] + Signed(ops[1]));
      StoreResult(s, ins.destination, b)
    else if op == Loadw then
      var w :- ReadW(s, ops[0] + Signed(ops[1]) * 2);
      StoreResult(s, ins.destination, w)
    else if op == Storeb then WriteB(s, ops[0] + Signed(ops[1]), ops[2])
    else
      // STOREW
      WriteW(s, ops[0] + Signed(ops[1]) * 2, ops[2])
  }

  /** Jumps, returns, calls, SAVE and RESTORE, NOP, and the opcodes whose arm is not modelled. */
  function ControlArm(s: State, ins: Instruction, ops: seq<Word>): (r: Res<State>)
    requires Valid(s) && |ops| >= Arity(ins.opcode)
    requires !IsArithmetic(ins.opcode) && !IsComparison(ins.opcode)
    requires !IsCounterOp(ins.opcode) && ins.opcode != Load && !IsStackOp(ins.opcode) && !IsMemoryOp(ins.opcode)
    requires ArmPops(s.header.version, ins, ops) <= OperandDepth(s)
    ensures r.Ok? ==> Valid(r.value)
  {
    match ins.opcode
    case Jump | Piracy => Ok(s.(pc := s.pc + Signed(ops[0]) - 2))
    case Ret => RoutineReturn(s, ops[0])
    case Rtrue => RoutineReturn(s, 1)
    case Rfalse => RoutineReturn(s, 0)
    case RetPopped =>
      var vt := PopOperand(s);
      RoutineReturn(vt.1, vt.0)
    case Call =>
      var address := PackedToByteAddress(s.header.version, ops[0]);
      if address.None? then Err(UnsupportedPackedAddress(s.header.version))
      else RoutineCall(s, address.value, ops[1..], ins.destination)
    case Save | Restore =>
      // The file operations are commented out: up to version 4 the arms
      // report success (storing 1 in version 4), later versions do nothing.
      if s.header.version <= 4 then
        var t :- if s.header.version >= 4 then StoreResult(s, ins.destination, 1) else Ok(s);
        Branch(t, ins.branchTo, ins.branchOn, true)
      else Ok(s)
    case Nop => Ok(s)
    case _ => Err(UnimplementedOpcode)
  }

  /** The `case` of `execute`, on operands already resolved, one group of arms at a time. */
  function Dispatch(s: State, ins: Instruction, ops: seq<Word>): (r: Res<State>)
    requires Valid(s) && |ops| >= Arity(ins.opcode)
    requires ArmPops(s.header.version, ins, ops) <= OperandDepth(s)
    ensures r.Ok? ==> Valid(r.value)
  {
    var op := ins.opcode;
    if IsArithmetic(op) then ArithmeticArm(s, ins, ops)
    else if IsComparison(op) then Branch(s, ins.branchTo, ins.branchOn, Condition(s.numArguments, op, ops))
    else if IsCounterOp(op) then CounterArm(s, ins, ops)
    else if op == Load then LoadVar(s, ops[0], ins.destination)
    else if IsStackOp(op) then StackArm(s, ins, ops)
    else if IsMemoryOp(op) then MemoryArm(s, ins, ops)
    else ControlArm(s, ins, ops)
  }

  /**
   * What `execute` needs to stay within the current routine's operands: the
   * instruction carries the operands its arm reads, and neither operand
   * resolution nor the arm pops more values than instructions pushed.
   */
  predicate Ready(s: State, ins: Instruction, byRef: bool)
    requires Valid(s)
  {
    |ins.operands| >= Arity(ins.opcode) &&
    PopsFrom(ins, byRef, 0) <= OperandDepth(s) &&
    (ResolveFrom(s, ins, byRef, 0).Ok? ==>
       ArmPops(s.header.version, ins, ResolveFrom(s, ins, byRef, 0).value.0) <= OperandDepth(s) - PopsFrom(ins, byRef, 0))
  }

  /**
   * `execute(instruction)`; `byRef` is what `Opcode.is_variable_by_reference?`
   * answers for this opcode and version.
   */
  function Execute(s: State, ins: Instruction, byRef: bool): (r: Res<State>)
    requires Valid(s) && Ready(s, ins, byRef)
    ensures r.Ok? ==> Valid(r.value)
  {
    var resolved :- ResolveFrom(s, ins, byRef, 0);
    Dispatch(resolved.1, ins, resolved.0)
  }
}
