/**
 * Value-level model of `Memory` (lib/gruesome/z/memory.rb): the story image,
 * its three regions, the variable address space and the stack of routine
 * stacks. Every operation is a function from a `State` to a new `State` (or
 * to the error the Ruby code raises); the class in memory.dfy is proved
 * against these functions.
 */
module MemoryModel {
  import opened Wrappers
  import opened Words

  /** The header fields the core consumes (the header parser is not part of this model). */
  datatype Header = Header(
    version: nat,
    staticBase: nat,
    highBase: nat,
    globalVarAddr: nat,
    objectTblAddr: nat,
    entry: nat)

  /** What the Ruby code raises, one kind per `raise` (or per nil it fails on). */
  datatype Error =
    | AccessViolation(address: int)            // readb/readw at or above high memory
    | WriteAccessViolation(address: int)       // writeb/writew at or above static memory
    | MajorAccessViolation(address: int)       // force_read* outside the image
    | MajorWriteAccessViolation(address: int)  // force_write* outside the image
    | IndexError(address: int)                 // String#setbyte before the start of the image
    | VariableAccessViolation(index: nat)      // readv of a local the routine does not have
    | CallStackUnderflow                       // pop_routine with no frame to pop
    | MissingDestination                       // a storing opcode decoded without a destination
    | DivisionByZero                           // DIV (Float#floor of Infinity/NaN) or MOD by 0
    | UnsupportedPackedAddress(version: nat)   // packed addresses of versions 6 and later
    | UnimplementedOpcode                      // `execute` has no arm for the opcode
    | NoSuchAttribute(attribute: nat)          // attribute byte beyond the entry's attributes
    | NoSuchProperty(property: nat)            // object_property of a property the list lacks

  type Res<T> = Result<T, Error>

  /** Forgets the value of a result, keeping whether (and what) it raised. */
  function OutcomeOf<T>(r: Res<T>): Outcome<Error>
  {
    if r.Ok? then Pass else Fail(r.error)
  }

  /**
   * One entry of the flat `@call_stack`; each routine call pushes four:
   * the caller's local count, its argument count, the result destination
   * and the caller's whole stack.
   */
  datatype CallEntry = Number(n: nat) | Destination(variable: Option<nat>) | SavedStack(values: seq<int>)

  /** Everything `Memory` holds. `stack` is the current routine's `@stack`. */
  datatype State = State(
    header: Header,
    mem: seq<Byte>,
    pc: int,
    numLocals: nat,
    numArguments: nat,
    stack: seq<int>,
    callStack: seq<CallEntry>)

  /** What `pop_routine` hands back. */
  datatype Frame = Frame(destination: Option<nat>, returnAddress: int)

  /** A fresh memory: program counter at the entry point, no frames, empty stack. */
  function Initial(header: Header, mem: seq<Byte>): State
  {
    State(header, mem, header.entry, 0, 0, [], [])
  }

  // ---------------------------------------------------------------- bytes and words

  function ForceReadB(mem: seq<Byte>, a: int): Res<Byte>
  {
    if 0 <= a < |mem| then Ok(mem[a]) else Err(MajorAccessViolation(a))
  }

  /** Big-endian word at `a`, `a + 1`. */
  function ForceReadW(mem: seq<Byte>, a: int): Res<Word>
  {
    if 0 <= a && a + 1 < |mem| then Ok(WordOf(mem[a], mem[a + 1])) else Err(MajorAccessViolation(a))
  }

  function ForceWriteB(mem: seq<Byte>, a: int, v: int): Res<seq<Byte>>
  {
    if 0 <= a < |mem| then Ok(mem[a := Mask8(v)]) else Err(MajorWriteAccessViolation(a))
  }

  /** High byte at `a`, low byte at `a + 1`. */
  function ForceWriteW(mem: seq<Byte>, a: int, v: int): Res<seq<Byte>>
  {
    if 0 <= a && a + 1 < |mem| then Ok(mem[a := HighByte(v)][a + 1 := Mask8(v)])
    else Err(MajorWriteAccessViolation(a))
  }

  /** `readb`: high memory is out of reach of load instructions. */
  function ReadB(s: State, a: int): Res<Byte>
  {
    if a < s.header.highBase then ForceReadB(s.mem, a) else Err(AccessViolation(a))
  }

  /** `readw`: both bytes must lie below high memory. */
  function ReadW(s: State, a: int): Res<Word>
  {
    if a + 1 < s.header.highBase then ForceReadW(s.mem, a) else Err(AccessViolation(a))
  }

  /** `writeb`: only dynamic memory is writable. */
  function WriteB(s: State, a: int, v: int): Res<State>
  {
    if a < s.header.staticBase then
      var mem :- ForceWriteB(s.mem, a, v);
      Ok(s.(mem := mem))
    else Err(WriteAccessViolation(a))
  }

  /** `writew`: both bytes must lie in dynamic memory. */
  function WriteW(s: State, a: int, v: int): Res<State>
  {
    if a + 1 < s.header.staticBase then
      var mem :- ForceWriteW(s.mem, a, v);
      Ok(s.(mem := mem))
    else Err(WriteAccessViolation(a))
  }

  /**
   * Ruby's `String#setbyte` counts a negative index from the end of the
   * string; `force_writeb` only rejects indices at or beyond the end.
   */
  function RubyIndex(size: nat, a: int): Option<nat>
  {
    if 0 <= a < size then Some(a) else if a < 0 && 0 <= size + a then Some(size + a) else None
  }

  /** `writeb` exactly as the Ruby code has it, negative addresses included. */
  function WriteBAsWritten(s: State, a: int, v: int): Res<State>
  {
    if a < s.header.staticBase then
      if a < |s.mem| then
        match RubyIndex(|s.mem|, a)
        case Some(k) => Ok(s.(mem := s.mem[k := Mask8(v)]))
        case None => Err(IndexError(a))
      else Err(MajorWriteAccessViolation(a))
    else Err(WriteAccessViolation(a))
  }

  // ---------------------------------------------------------------- the stack of stacks

  /** Values below this index of the current stack are the return address and the locals. */
  function OperandBase(s: State): nat
  {
    if s.callStack == [] then 0 else s.numLocals + 1
  }

  /** How many values instructions have pushed onto the current stack. */
  function OperandDepth(s: State): int
  {
    |s.stack| - OperandBase(s)
  }

  predicate WordsFrom(values: seq<int>, k: nat)
  {
    forall i :: k <= i < |values| ==> 0 <= values[i] < 0x1_0000
  }

  /**
   * The layout of one routine's `@stack`: the return address at index 0,
   * the locals at 1..numLocals, then pushed words. Outside every routine the
   * stack holds pushed words only and there are no locals.
   */
  predicate StackShape(stack: seq<int>, numLocals: nat, inRoutine: bool)
  {
    if inRoutine then |stack| > numLocals && WordsFrom(stack, 1)
    else numLocals == 0 && WordsFrom(stack, 0)
  }

  /**
   * Frame `f` of a flat call stack: the saved number of locals, the saved
   * number of arguments, the destination of the result and the saved stack,
   * shaped for the routine it belongs to (the outermost frame saves the
   * stack outside every routine).
   */
  predicate FrameShape(cs: seq<CallEntry>, f: nat)
  {
    4 * f + 3 < |cs| &&
    cs[4 * f].Number? && cs[4 * f + 1].Number? &&
    cs[4 * f + 2].Destination? && cs[4 * f + 3].SavedStack? &&
    StackShape(cs[4 * f + 3].values, cs[4 * f].n, f > 0)
  }

  /** Four entries per frame, each frame shaped. */
  ghost predicate CallStackShape(cs: seq<CallEntry>)
  {
    |cs| % 4 == 0 && forall f: nat :: 4 * f < |cs| ==> FrameShape(cs, f)
  }

  /** Saving one more well-shaped frame keeps the call stack shaped. */
  lemma PushFrameShape(cs: seq<CallEntry>, frame: seq<CallEntry>)
    requires CallStackShape(cs) && |frame| == 4
    requires frame[0].Number? && frame[1].Number? && frame[2].Destination? && frame[3].SavedStack?
    requires StackShape(frame[3].values, frame[0].n, cs != [])
    ensures CallStackShape(cs + frame)
  {
    var pushed := cs + frame;
    forall f: nat | 4 * f < |pushed| ensures FrameShape(pushed, f) {
      if 4 * f < |cs| {
        assert FrameShape(cs, f);
      } else {
        assert 4 * f == |cs|;
      }
    }
  }

  /** Dropping the innermost frame keeps the call stack shaped; that frame is shaped too. */
  lemma PopFrameShape(cs: seq<CallEntry>)
    requires CallStackShape(cs) && cs != []
    ensures |cs| >= 4 && CallStackShape(cs[..|cs| - 4])
    ensures FrameShape(cs, (|cs| - 4) / 4)
  {
    var caller := cs[..|cs| - 4];
    forall f: nat | 4 * f < |caller| ensures FrameShape(caller, f) {
      assert FrameShape(cs, f);
    }
    assert FrameShape(cs, (|cs| - 4) / 4);
  }

  /** The invariant every operation below preserves. */
  ghost predicate Valid(s: State)
  {
    CallStackShape(s.callStack) && StackShape(s.stack, s.numLocals, s.callStack != [])
  }

  function GlobalAddress(h: Header, i: nat): int
  {
    h.globalVarAddr + 2 * (i - 16)
  }

  /** `@stack.pop`: the operand on top of the current stack and the state without it. */
  function PopOperand(s: State): (r: (Word, State))
    requires Valid(s) && OperandDepth(s) > 0
    ensures Valid(r.1) && OperandDepth(r.1) == OperandDepth(s) - 1
  {
    (s.stack[|s.stack| - 1], s.(stack := s.stack[..|s.stack| - 1]))
  }

  /**
   * `readv`: variable 0 pops the current stack, 1..15 are locals, 16 and
   * above are global words. The Ruby code lets a pop reach into the locals;
   * the model demands that an operand is there.
   */
  function ReadVar(s: State, i: nat): (r: Res<(Word, State)>)
    requires Valid(s)
    requires i == 0 ==> OperandDepth(s) > 0
    ensures r.Ok? ==> Valid(r.value.1)
  {
    if i == 0 then
      Ok(PopOperand(s))
    else if i >= 16 then
      var w :- ReadW(s, GlobalAddress(s.header, i));
      Ok((w, s))
    else if i <= s.numLocals then
      Ok((s.stack[i], s))
    else
      Err(VariableAccessViolation(i))
  }

  /**
   * `writev`: the value is masked to 16 bits; variable 0 pushes, locals are
   * overwritten, globals go through `writew`. A local the routine does not
   * have is silently ignored.
   */
  function WriteVar(s: State, i: nat, v: int): (r: Res<State>)
    requires Valid(s)
    ensures r.Ok? ==> Valid(r.value)
  {
    var value := Mask16(v);
    if i == 0 then
      Ok(s.(stack := s.stack + [value]))
    else if i >= 16 then
      WriteW(s, GlobalAddress(s.header, i), value)
    else if i <= s.numLocals then
      Ok(s.(stack := s.stack[i := value]))
    else
      Ok(s)
  }

  function Zeros(n: nat): (z: seq<int>)
    ensures |z| == n && forall i :: 0 <= i < n ==> z[i] == 0
  {
    seq(n, _ => 0)
  }

  /** `push_routine`: save the caller's context, start a stack of return address and zeroed locals. */
  function PushRoutine(s: State, returnAddr: int, n: nat, k: nat, dest: Option<nat>): (r: State)
    requires Valid(s)
    ensures Valid(r)
  {
    var cs := s.callStack + [Number(s.numLocals), Number(s.numArguments), Destination(dest), SavedStack(s.stack)];
    PushFrameShape(s.callStack, cs[|s.callStack|..]);
    assert s.callStack + cs[|s.callStack|..] == cs;
    s.(callStack := cs, stack := [returnAddr] + Zeros(n), numLocals := n, numArguments := k)
  }

  /** `pop_routine`: restore the caller's context; report where the result goes and where to resume. */
  function PopRoutine(s: State): (r: Res<(Frame, State)>)
    requires Valid(s)
    ensures r.Ok? ==> Valid(r.value.1)
  {
    if s.callStack == [] then Err(CallStackUnderflow)
    else
      var cs := s.callStack;
      var n := |cs|;
      PopFrameShape(cs);
      Ok((Frame(cs[n - 2].variable, s.stack[0]),
          s.(stack := cs[n - 1].values, numArguments := cs[n - 3].n,
             numLocals := cs[n - 4].n, callStack := cs[..n - 4])))
  }

  /** `packed_address_to_byte_address`; Ruby returns nil from version 6 on. */
  function PackedToByteAddress(version: nat, a: nat): Option<nat>
  {
    if version <= 3 then Some(2 * a)
    else if version <= 5 then Some(4 * a)
    else None
  }

  // ---------------------------------------------------------------- packed text

  /** The three 5-bit Z-characters of the story word whose bytes are `b1`, `b2`. */
  function ZCharsOf(b1: Byte, b2: Byte): seq<ZChar>
  {
    [(b1 / 4) % 32, (b1 % 4) * 8 + b2 / 32, b2 % 32]
  }

  /**
   * The `until` loop of `force_readzstr` from `index` on: it stops before a
   * word that would exceed `maxLen` bytes (unless `maxLen` is -1) and after
   * the first word whose top bit is set. Yields where reading stopped and the
   * Z-characters read from `index` on.
   */
  function UnpackFrom(mem: seq<Byte>, orig: nat, index: nat, maxLen: int): (r: Res<(nat, seq<ZChar>)>)
    ensures r.Ok? ==> index <= r.value.0 && (r.value.0 - index) % 2 == 0
    ensures r.Ok? ==> r.value.0 == index || r.value.0 <= |mem|
    ensures r.Ok? ==> |r.value.1| == 3 * ((r.value.0 - index) / 2)
    decreases |mem| - index
  {
    if maxLen != -1 && index + 2 - orig > maxLen then Ok((index, []))
    else if index >= |mem| then Err(MajorAccessViolation(index))
    else if index + 1 >= |mem| then Err(MajorAccessViolation(index + 1))
    else
      var chars := ZCharsOf(mem[index], mem[index + 1]);
      if mem[index] >= 0x80 then Ok((index + 2, chars))
      else Prepend(chars, UnpackFrom(mem, orig, index + 2, maxLen))
  }

  /** Puts `chars` in front of the characters of a successful read. */
  function Prepend(chars: seq<ZChar>, r: Res<(nat, seq<ZChar>)>): Res<(nat, seq<ZChar>)>
  {
    match r
    case Ok((stop, rest)) => Ok((stop, chars + rest))
    case Err(e) => Err(e)
  }

  lemma PrependNothing(r: Res<(nat, seq<ZChar>)>)
    ensures Prepend([], r) == r
  {
    if r.Ok? {
      assert [] + r.value.1 == r.value.1;
    }
  }

  lemma PrependTwice(a: seq<ZChar>, b: seq<ZChar>, r: Res<(nat, seq<ZChar>)>)
    ensures Prepend(a, Prepend(b, r)) == Prepend(a + b, r)
  {
    if r.Ok? {
      assert a + (b + r.value.1) == (a + b) + r.value.1;
    }
  }

  /** `force_readzstr`: the number of bytes consumed and the Z-characters read. */
  function ReadZStr(mem: seq<Byte>, index: nat, maxLen: int): Res<(nat, seq<ZChar>)>
  {
    var r :- UnpackFrom(mem, index, index, maxLen);
    Ok((r.0 - index, r.1))
  }
}
