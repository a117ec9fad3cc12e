# Gruesome Z-machine core in Dafny

This project models the core of Gruesome, a Ruby interpreter for Infocom's
Z-machine story files:

- **Memory** (`lib/gruesome/z/memory.rb`) holds the story image. It has three
  regions: dynamic, static and high. It also holds the variable address space:
  stack top, locals and globals, and the stack of routine frames that
  `push_routine` and `pop_routine` maintain. It unpacks Z-character strings.
- **Processor** (`lib/gruesome/z/processor.rb`) covers operand resolution, the
  routine call and return, branching, and the arms of `execute` that act on
  memory alone:
  - arithmetic, bitwise and shift;
  - comparison;
  - increment and decrement;
  - load and store, stack and memory access;
  - jump, return and call.
- **ObjectTable** (`lib/gruesome/z/object_table.rb`) covers object entries,
  attribute tests and updates, and the property list scan.
- **ZSCII** (`lib/gruesome/z/zscii.rb`) translates Z-characters into text.

Each Ruby class is modelled twice:

- **A value model.** The modules `MemoryModel`, `ProcessorModel` and
  `ObjectTableModel` are functions from a state, or from the byte image, to a
  new state or to the error the Ruby code raises.
- **An imperative class.** `ZMemory.Memory` has the image as an `array<Byte>`
  and the stack and call stack as fields. `ZProcessor.Processor` and
  `ZObjectTable.ObjectTable` operate on that memory object in place. Each
  method is proved to do exactly what its value-model function says:
  - on success, it leaves the new state;
  - on failure, it reports the same error.

Properties of the value model sit in `MemoryProperties`,
`ProcessorProperties`, `ObjectTableProperties` and `ZsciiProperties`.

Ruby integers are unbounded, so the model writes out every truncation the
interpreter performs:

- `Mask8` and `Mask16` stand for `& 255` and `& 65535`.
- `Signed` is `unsigned_to_signed`.
- `FloatDiv` is `(a.to_f / b.to_f).to_i` on reals.
- `RubyMod` is the truncated remainder of DIV/MOD's own sign handling.

## Model

| member | source | states |
|---|---|---|
| ZMemory.Memory.constructor | lib/gruesome/z/memory.rb:44-75 | a fresh memory holds the story image with an empty stack and call stack, no locals and the program counter at the header's entry point |
| ZMemory.Memory.ForceReadB | lib/gruesome/z/memory.rb:160-168 | the byte at an address inside the image, an access violation outside it |
| ZMemory.Memory.ForceReadW | lib/gruesome/z/memory.rb:170-182 | the big-endian word at an address whose two bytes are inside the image, an access violation otherwise |
| ZMemory.Memory.ReadB | lib/gruesome/z/memory.rb:120-128 | reads outside high memory only; at or above the high-memory base it raises an access violation |
| ZMemory.Memory.ReadW | lib/gruesome/z/memory.rb:130-138 | reads a word only when both its bytes lie below high memory |
| ZMemory.Memory.ForceWriteB | lib/gruesome/z/memory.rb:184-192 | stores the low eight bits of the value at an address inside the image; outside it raises and leaves the image untouched |
| ZMemory.Memory.ForceWriteW | lib/gruesome/z/memory.rb:194-212 | stores the value's high byte then low byte; outside the image it raises and the image is unchanged |
| ZMemory.Memory.WriteB | lib/gruesome/z/memory.rb:140-148 | writes dynamic memory only: at or above the static base it raises a write access violation and nothing changes |
| ZMemory.Memory.WriteW | lib/gruesome/z/memory.rb:150-158 | writes a word only when both bytes are in dynamic memory |
| ZMemory.Memory.ReadV | lib/gruesome/z/memory.rb:219-232 | variable 0 pops the stack, 1-15 read locals (a local the routine lacks raises), 16 and up read the global table |
| ZMemory.Memory.WriteV | lib/gruesome/z/memory.rb:235-248 | variable 0 pushes, 1-15 overwrite a local (silently ignored when the routine lacks it), 16 and up write the global table through writew |
| ZMemory.Memory.PushRoutine | lib/gruesome/z/memory.rb:86-106 | the caller's stack, local and argument counts and destination are saved as one frame, and the new stack holds the return address and zeroed locals |
| ZMemory.Memory.PopRoutine | lib/gruesome/z/memory.rb:109-118 | restores the caller's stack and counts from the last frame and returns its destination and return address; with no frame it raises |
| ZMemory.Memory.ReadZStr | lib/gruesome/z/memory.rb:250-273 | unpacks three Z-characters per word until the terminator bit or the length limit, returning bytes consumed and characters |
| MemoryProperties.ReadByteGuard | lib/gruesome/z/memory.rb:120-128 | readb succeeds exactly below high memory and inside the image, and then yields the stored byte |
| MemoryProperties.WriteByteGuard | lib/gruesome/z/memory.rb:140-148 | writeb succeeds exactly below the static base and inside the image; it changes that one byte to the value's low eight bits and nothing else |
| MemoryProperties.WriteByteThenReadByte | lib/gruesome/z/memory.rb:120-148 | a byte written to dynamic memory reads back as its low eight bits |
| MemoryProperties.WriteByteKeepsStatic | lib/gruesome/z/memory.rb:140-148 | a successful writeb never changes static or high memory |
| MemoryProperties.NegativeWriteReachesStatic | lib/gruesome/z/memory.rb:140-148 | as written, writeb(-1) passes the guard and stores into the last byte of the image, which is static memory; the corrected write refuses it |
| MemoryProperties.WriteByteAgreesOnNaturals | lib/gruesome/z/memory.rb:140-148 | for non-negative addresses the corrected writeb is the writeb as written |
| MemoryProperties.WordBytes | lib/gruesome/z/memory.rb:194-212 | the high and low bytes a word is split into recombine to the value modulo 2^16 |
| MemoryProperties.ForceWordRoundTrip | lib/gruesome/z/memory.rb:170-212 | force_writew then force_readw at the same address gives back the value modulo 2^16 and only the two bytes change; both succeed exactly when the word lies in the image |
| MemoryProperties.GuardedWordAccess | lib/gruesome/z/memory.rb:130-158 | readw succeeds exactly when both bytes are below high memory; writew succeeds exactly when both bytes are below static memory; a word written below high memory reads back |
| MemoryProperties.WriteVarThenValue | lib/gruesome/z/memory.rb:219-248 | after writev to an existing variable, the variable holds the value modulo 2^16 |
| MemoryProperties.PushThenPop | lib/gruesome/z/memory.rb:219-248 | writev(0) pushes one value and readv(0) pops it back, restoring the state |
| MemoryProperties.PushesPopLastFirst | lib/gruesome/z/memory.rb:219-248 | two pushes pop in reverse order and return to the original state |
| MemoryProperties.LocalRoundTrip | lib/gruesome/z/memory.rb:219-248 | a local the routine has reads back what was written, and no other stack slot or byte changes |
| MemoryProperties.MissingLocal | lib/gruesome/z/memory.rb:219-248 | reading a local beyond the routine's count raises; writing one is silently ignored |
| MemoryProperties.GlobalVariable | lib/gruesome/z/memory.rb:219-248 | global i is the word at the global table plus 2*(i-16): reads and writes go through readw/writew and change only those two bytes |
| MemoryProperties.PushRoutineFrame | lib/gruesome/z/memory.rb:86-106 | after push_routine the new routine has the given local and argument counts, an empty evaluation stack, the return address in slot 0 and all locals zero |
| MemoryProperties.PopRestoresCaller | lib/gruesome/z/memory.rb:86-118 | whatever the called routine did to its own stack, pop_routine restores the caller's stack, counts and frames exactly and returns the saved destination and return address; the pc is left as it was |
| MemoryProperties.PushThenPopRoutine | lib/gruesome/z/memory.rb:86-118 | pop_routine undoes push_routine |
| MemoryProperties.PackedAddressScaling | lib/gruesome/z/memory.rb:77-83 | packed addresses double in versions 1-3, quadruple in 4-5, are refused from 6 on, and the mapping is injective |
| MemoryProperties.ZCharsAreFields | lib/gruesome/z/memory.rb:250-273 | the three Z-characters of a word are its 5-bit fields from the most significant down |
| MemoryProperties.UnpackFromLayout | lib/gruesome/z/memory.rb:250-273 | the characters produced are exactly the 5-bit fields of the consumed words in order |
| MemoryProperties.UnpackFromLimit | lib/gruesome/z/memory.rb:250-273 | with a length limit, the bytes consumed never exceed the limit |
| MemoryProperties.UnpackFromStop | lib/gruesome/z/memory.rb:250-273 | every word before the last lacks the terminator bit, and without a limit the last word carries it |
| MemoryProperties.ReadZStrShape | lib/gruesome/z/memory.rb:250-273 | force_readzstr consumes whole words and yields three characters per word. Without a limit it stops at the first terminator word. With a limit it stays within the limit, and it stops on a word without the terminator bit only when one more word would exceed the limit |
| MemoryProperties.UnpackFromEnds | lib/gruesome/z/memory.rb:255-270 | the loop ends either after a word with the terminator bit or because the next word would pass the length limit |
| ProcessorModel.Signed | lib/gruesome/z/processor.rb:419-426 | unsigned_to_signed maps a word to the signed value in [-2^15, 2^15) congruent to it, negative exactly when bit 15 is set |
| ProcessorProperties.SignedInverse | lib/gruesome/z/processor.rb:419-426 | signed values in range survive a round trip through the 16-bit word |
| ProcessorProperties.MaskOfSigned | lib/gruesome/z/processor.rb:419-426 | a word survives a round trip through its signed reading |
| ProcessorModel.ResolveFrom | lib/gruesome/z/processor.rb:89-97 | resolving operands yields one value per operand, touches only the stack, and pops exactly once per variable-0 operand that is not by reference |
| ProcessorProperties.ResolvePassesThrough | lib/gruesome/z/processor.rb:89-97 | operands that are not variable-typed (or are the by-reference first operand) pass through unchanged |
| ProcessorProperties.ResolveReadsVariables | lib/gruesome/z/processor.rb:89-97 | when no operand pops the stack, each variable operand is replaced by the current value of the variable it names |
| ProcessorProperties.ExecuteImmediate | lib/gruesome/z/processor.rb:86-97 | an instruction with no variable operands is executed on its literal operands |
| ProcessorProperties.ResolveNothing | lib/gruesome/z/processor.rb:89-97 | when no operand is resolved, resolution returns the operands and the state unchanged |
| ZProcessor.Processor.RoutineCall | lib/gruesome/z/processor.rb:24-62 | the call updates memory exactly as the value model's routine call does |
| ZProcessor.Processor.LocalsFromHeader | lib/gruesome/z/processor.rb:42-47 | the header-initialised locals loop agrees with its value model |
| ZProcessor.Processor.ZeroLocals | lib/gruesome/z/processor.rb:48-53 | the zeroing loop agrees with its value model |
| ZProcessor.Processor.CopyArguments | lib/gruesome/z/processor.rb:55-60 | the argument-copy loop agrees with its value model |
| ZProcessor.Processor.RoutineReturn | lib/gruesome/z/processor.rb:64-71 | the return agrees with its value model |
| ZProcessor.Processor.Branch | lib/gruesome/z/processor.rb:73-84 | the branch agrees with its value model |
| ZProcessor.Processor.ResolveOperands | lib/gruesome/z/processor.rb:89-97 | the resolution loop returns the operand values of the value model and leaves the stack it leaves |
| ZProcessor.Processor.Execute | lib/gruesome/z/processor.rb:86-417 | one instruction changes memory exactly as the value model's execute does, or raises the same error |
| ZProcessor.Processor.Inject | lib/gruesome/z/processor.rb:163-180 | the inject loop over the remaining operands is the disjunction the value model computes |
| ProcessorProperties.LocalsFromHeaderEffect | lib/gruesome/z/processor.rb:42-47 | in versions up to 4, local j is the j-th header word after the routine's local count; pc moves past the header words; no other slot changes |
| ProcessorProperties.ZeroLocalsEffect | lib/gruesome/z/processor.rb:48-53 | in versions 5 and later, every local of the routine is zero and nothing else changes |
| ProcessorProperties.CopyArgsEffect | lib/gruesome/z/processor.rb:55-60 | each argument overwrites its local when the routine has that local; the rest of the stack is kept |
| ProcessorProperties.CallInitialisesLocals | lib/gruesome/z/processor.rb:24-62 | before the arguments are copied, every local holds its initial value: the header word up to version 4, zero from version 5 |
| ProcessorProperties.CallSetsUpFrame | lib/gruesome/z/processor.rb:24-62 | a call to a routine pushes one frame, sets pc past the routine header, empties the evaluation stack, saves the return pc, and local i is argument i or else its initial value |
| ProcessorProperties.CalledFrame | lib/gruesome/z/processor.rb:24-62 | the state after a call is the pushed frame with a well-formed routine stack whose slot 0 is the return pc |
| ProcessorProperties.NullCall | lib/gruesome/z/processor.rb:25-29 | calling address 0 pushes no frame and stores 0 in the destination (or does nothing without one) |
| ProcessorProperties.ReturnResumes | lib/gruesome/z/processor.rb:64-71 | returning from a frame restores the caller and stores the result in the saved destination |
| ProcessorProperties.CallThenReturn | lib/gruesome/z/processor.rb:24-71 | a call followed by a return is the caller's state with the result stored in the destination: the caller's stack, locals and pc are restored |
| ProcessorProperties.ReturnAtTopLevelRaises | lib/gruesome/z/processor.rb:64-71 | returning with no frame raises a call stack underflow |
| ProcessorProperties.BranchCases | lib/gruesome/z/processor.rb:73-84 | no branch when the condition differs from the branch sense; otherwise offset 0 returns false, 1 returns true, and any other target becomes the new pc |
| ProcessorProperties.InjectIsExists | lib/gruesome/z/processor.rb:163-180 | the inject fold is true exactly when some later operand stands in the relation to the first |
| ProcessorProperties.ComparisonBranches | lib/gruesome/z/processor.rb:163-180 | JE, JG and JL branch exactly when some later operand equals, is below, or is above the first (signed) |
| ProcessorProperties.TestBranches | lib/gruesome/z/processor.rb:368-370 | TEST branches exactly when every bit of the second operand is set in the first, so a zero mask always branches and a zero first operand with a non-zero mask never does; JZ (181-183) branches on a zero operand and CHECK_ARG_COUNT (110-112) on the argument count equalling the operand |
| ProcessorProperties.SaveRestoreSucceed | lib/gruesome/z/processor.rb:269-292 | SAVE and RESTORE touch no file: up to version 3 they only take the success branch, version 4 first stores 1 (raising without a destination), and from version 5 they change nothing |
| ProcessorProperties.JumpIsRelative | lib/gruesome/z/processor.rb:160-162 | JUMP and PIRACY only move pc, by the signed offset minus two |
| ProcessorProperties.StoresCalculated | lib/gruesome/z/processor.rb:374-413 | an arithmetic opcode whose computation succeeds stores the result in its destination |
| ProcessorProperties.ArithmeticStoresWrapped | lib/gruesome/z/processor.rb:374-382 | ADD, SUB and MUL store the exact signed result modulo 2^16, which reads back as that result when it fits in 16 bits |
| ProcessorProperties.MissingDestinationRaises | lib/gruesome/z/processor.rb:374-404 | a storing opcode decoded without a destination raises |
| ProcessorProperties.FloatDivTruncates | lib/gruesome/z/processor.rb:383-390 | dividing as floats and truncating is integer division rounded toward zero |
| ProcessorProperties.DivModIdentity | lib/gruesome/z/processor.rb:383-398 | quotient times divisor plus remainder is the dividend; the remainder is smaller than the divisor and takes the dividend's sign |
| ProcessorProperties.TruncDivModIdentity | lib/gruesome/z/processor.rb:383-398 | the same identity for the truncated quotient |
| ProcessorProperties.DivModExamples | lib/gruesome/z/processor.rb:383-398 | 7 DIV -2 is -3 and 7 MOD -2 is 1; -7 DIV 2 is -3 and -7 MOD 2 is -1 |
| ProcessorProperties.DivModStore | lib/gruesome/z/processor.rb:383-398 | DIV and MOD by zero raise; otherwise they store the truncated quotient or the remainder modulo 2^16 |
| ProcessorProperties.NotComplements | lib/gruesome/z/processor.rb:399-400 | NOT stores the 16-bit complement: operand plus result is 0xFFFF |
| ProcessorProperties.ArithmeticShiftRight | lib/gruesome/z/processor.rb:100-106 | ART_SHIFT by a negative count stores the signed value floor-divided by the power of two |
| ProcessorProperties.LogicalShiftRight | lib/gruesome/z/processor.rb:198-204 | LOG_SHIFT by a negative count stores the unsigned word divided by the power of two |
| ProcessorProperties.ShiftLeftPastWidth | lib/gruesome/z/processor.rb:100-106 | either shift left by 16 or more stores zero |
| ProcessorProperties.CheckedStepOnLocal | lib/gruesome/z/processor.rb:119-128 | INC_CHK/DEC_CHK on a local step it by one (signed, wrapped) and branch on updated above (below) the signed bound |
| ProcessorProperties.IncChkAtMaximum | lib/gruesome/z/processor.rb:119-123 | INC_CHK on 0x7FFF wraps to -32768 and branches |
| ProcessorProperties.IncDecOnStackReplacesTop | lib/gruesome/z/processor.rb:115-118 | INC/DEC of variable 0 replaces the stack top in place, keeping the depth |
| ProcessorProperties.StoreToStackReplacesTop | lib/gruesome/z/processor.rb:405-409 | STORE to variable 0 replaces the top of the stack instead of pushing |
| ProcessorProperties.LoadToItselfIsNoop | lib/gruesome/z/processor.rb:184-193 | LOAD whose destination is its own variable changes nothing |
| ProcessorProperties.LoadFromStackKeepsDepth | lib/gruesome/z/processor.rb:184-193 | LOAD of variable 0 reads the top without popping it and copies it to the destination |
| ProcessorProperties.PushThenPull | lib/gruesome/z/processor.rb:227-239 | PUSH then PULL into a local moves the value into the local and restores the stack depth |
| ProcessorProperties.PushThenPop | lib/gruesome/z/processor.rb:208-239 | PUSH then POP is the identity |
| ProcessorProperties.ReturnOpcodes | lib/gruesome/z/processor.rb:277-284 | RTRUE returns 1, RFALSE 0, RET its operand and RET_POPPED the popped top of stack |
| ProcessorProperties.StoreArms | lib/gruesome/z/processor.rb:410-413 | STOREB writes at base plus signed offset; STOREW writes at base plus twice the signed index |
| ProcessorProperties.StorebThenLoadb | lib/gruesome/z/processor.rb:194-195 | a byte stored with STOREB in dynamic memory is what LOADB then loads into a local |
| ProcessorProperties.StorewThenLoadw | lib/gruesome/z/processor.rb:196-197 | a word stored with STOREW in dynamic memory is what LOADW then loads into a local |
| ZObjectTable.ObjectTable.constructor | lib/gruesome/z/object_table.rb:8-50 | the table reads through the given memory with the version's layout |
| ZObjectTable.ObjectTable.ReadBytes | lib/gruesome/z/object_table.rb:68-73 | the byte-reading loop agrees with its value model |
| ZObjectTable.ObjectTable.ObjectEntry | lib/gruesome/z/object_table.rb:61-96 | the entry read by the method is the value model's entry |
| ZObjectTable.ObjectTable.HasAttribute | lib/gruesome/z/object_table.rb:126-134 | agrees with the attribute test of the value model |
| ZObjectTable.ObjectTable.SetAttribute | lib/gruesome/z/object_table.rb:136-147 | changes memory exactly as the value model's set does; on error nothing changes |
| ZObjectTable.ObjectTable.ClearAttribute | lib/gruesome/z/object_table.rb:149-160 | changes memory exactly as the value model's clear does; on error nothing changes |
| ZObjectTable.ObjectTable.Properties | lib/gruesome/z/object_table.rb:162-239 | the scanning loop returns the value model's property map (terminated scan) |
| ZObjectTable.ObjectTable.Property | lib/gruesome/z/object_table.rb:241-253 | the property data read by the method is the value model's |
| ObjectTableModel.AttributeByteBit | lib/gruesome/z/object_table.rb:108-123 | attribute n is bit 7 - n%8 of byte n/8: byte and reversed bit recombine to n |
| ObjectTableProperties.AttributeExamples | lib/gruesome/z/object_table.rb:114-115 | attribute 7 is byte 0 bit 0 and attribute 17 is byte 2 bit 6 |
| ObjectTableProperties.ReadBytesSlice | lib/gruesome/z/object_table.rb:68-73 | reading count bytes succeeds exactly when they lie in the image and yields that slice |
| ObjectTableProperties.ObjectEntryLayout | lib/gruesome/z/object_table.rb:61-96 | entry i starts at the table plus 64 (or 128) bytes of defaults plus (i-1) entries of 9 (or 14) bytes; attributes, byte or word ids and the properties address follow in order |
| ObjectTableProperties.EntryAttributes | lib/gruesome/z/object_table.rb:61-73 | a read entry lies in the image and its attributes are the 4 (or 6) bytes at its start |
| ObjectTableProperties.HasAttributeReads | lib/gruesome/z/object_table.rb:126-134 | attribute n is the reversed bit of the entry's byte n/8, and attributes beyond 32 (48) raise |
| ObjectTableProperties.ChangedEntry | lib/gruesome/z/object_table.rb:136-160 | setting or clearing an attribute rewrites exactly byte n/8 of the entry with bit 7 - n%8 changed |
| ObjectTableProperties.ChangedBits | lib/gruesome/z/object_table.rb:141-156 | `|= mask` sets the chosen bit, `&= ~mask` clears it, and neither touches another bit |
| ObjectTableProperties.ChangeAttributeEffect | lib/gruesome/z/object_table.rb:126-160 | after setting or clearing attribute n, attribute n reads as set or clear and every other attribute of the object is unchanged |
| ObjectTableProperties.SetThenHas | lib/gruesome/z/object_table.rb:126-147 | after object_set_attribute the attribute is set |
| ObjectTableProperties.ClearThenHasNot | lib/gruesome/z/object_table.rb:126-160 | after object_clear_attribute the attribute is clear |
| ObjectTableProperties.ChangeAttributeIsolation | lib/gruesome/z/object_table.rb:136-160 | only one byte of the image changes, and in it only the attribute's bit |
| ObjectTableProperties.ChangedEntryRead | lib/gruesome/z/object_table.rb:61-160 | re-reading the entry after a change gives the old entry with just that attribute byte updated |
| ObjectTableModel.ReadPropertyHeader | lib/gruesome/z/object_table.rb:176-230 | a read header lies in the image, and its data starts after the header with a size of at least one |
| ObjectTableProperties.EarlyPropertyHeader | lib/gruesome/z/object_table.rb:177-191 | up to version 3, a zero size byte ends the list; otherwise the byte is 32*(size-1)+number, so sizes run 1 to 8 and numbers below 32 |
| ObjectTableProperties.LaterPropertyHeader | lib/gruesome/z/object_table.rb:193-230 | from version 4 the number is the low 6 bits of the first byte; with bit 7 set the size is the second byte's low 6 bits (0 meaning 64) and data follows two header bytes, otherwise the size is 1 or 2 by bit 6 |
| ObjectTableModel.PropertiesStart | lib/gruesome/z/object_table.rb:166-172 | the list starts after the length byte and the text length rounded up to even |
| ObjectTableProperties.ScanIsChain | lib/gruesome/z/object_table.rb:176-236 | the scan succeeds with a list of entries exactly when those entries are chained: each header read where the last one's data ends, up to a terminator |
| ObjectTableProperties.ToMapLast | lib/gruesome/z/object_table.rb:234 | when a property number repeats, the later entry is the one kept in the hash |
| ObjectTableProperties.ToMapAbsent | lib/gruesome/z/object_table.rb:234 | a number is missing from the hash exactly when no entry has it |
| ObjectTableProperties.PropertyTableIsChain | lib/gruesome/z/object_table.rb:162-239 | object_properties succeeds exactly when a chain of headers exists from the list start, and it is then that chain's hash |
| ObjectTableProperties.LaterScanNeverEnds | lib/gruesome/z/object_table.rb:193-236 | as written, the version 4+ scan has no terminator test and always runs off the end of the image |
| ObjectTableProperties.PropertiesAsWrittenFail | lib/gruesome/z/object_table.rb:162-239 | as written, object_properties raises for every object in versions 4 and later |
| ObjectTableProperties.UnterminatedScanExample | lib/gruesome/z/object_table.rb:193-236 | on a one-property list, the corrected version 4 scan returns that property while the scan as written raises |
| ObjectTableProperties.EarlyScanUnchanged | lib/gruesome/z/object_table.rb:177-191 | up to version 3 the corrected scan is the scan as written |
| ObjectTableProperties.PropertyData | lib/gruesome/z/object_table.rb:241-253 | object_property of a missing property raises; otherwise its data is the size bytes at the property's data address |
| Zscii.Character | lib/gruesome/z/zscii.rb:40-61 | a character code emits at most one character |
| Zscii.Step | lib/gruesome/z/zscii.rb:29-66 | one Z-character emits at most one character, and any code below 2 or above 5 puts the alphabet back to the initial one |
| Zscii.Translate | lib/gruesome/z/zscii.rb:25-70 | the translation loop returns the value model's translation |
| ZsciiProperties.FoldAppends | lib/gruesome/z/zscii.rb:25-70 | the loop only appends to the string built so far |
| ZsciiProperties.OutputLength | lib/gruesome/z/zscii.rb:25-70 | the text is never longer than the Z-characters |
| ZsciiProperties.SpaceAlwaysEmitted | lib/gruesome/z/zscii.rb:44-46 | Z-character 0 is a space in every alphabet and resets the alphabet |
| ZsciiProperties.ShiftsRotate | lib/gruesome/z/zscii.rb:30-35 | shift up moves to the next alphabet and shift down to the previous one; either undoes the other |
| ZsciiProperties.AbbreviationsEmitNothing | lib/gruesome/z/zscii.rb:36-37 | abbreviation codes emit nothing; code 1 resets the alphabet and 2 and 3 keep it |
| ZsciiProperties.RegularCharacters | lib/gruesome/z/zscii.rb:53-57 | a code of 6 and up is letter c-6 of the current alphabet, except A2 code 6 (the 10-bit escape), and resets the alphabet |
| ZsciiProperties.VersionOneCharacters | lib/gruesome/z/zscii.rb:47-52 | in version 1, code 1 is a newline and A2 uses the version 1 table |
| ZsciiProperties.TableSuppressesCharacters | lib/gruesome/z/zscii.rb:58-60 | from version 5 with a custom table, letters emit nothing |
| ZsciiProperties.PlainText | lib/gruesome/z/zscii.rb:53-57 | a run of letter codes in A0 or A1 translates letter for letter |
| ZsciiProperties.StepDrawsFromTables | lib/gruesome/z/zscii.rb:8-14 | every character emitted comes from the alphabet tables, the version 1 table, a space or a newline |
| ZsciiProperties.OutputFromTables | lib/gruesome/z/zscii.rb:8-70 | the whole translation is drawn from those tables |

## Left out

- `Memory#save` and `Memory#restore` (`memory.rb` 275-342) are not modelled. They serialise the state to a file, which is I/O, and the SAVE and RESTORE arms of `execute` never call them.
- These `execute` arms are not modelled:
  - the object-tree opcodes (GET_PARENT, INSERT_OBJ and the like, `processor.rb` 113-114, 129-159, 173-175, 240-245, 267-268, 293-294, 371-373);
  - the print opcodes (206-226);
  - RANDOM (246-260), which is randomness;
  - READ_CHAR and SREAD (261-266, 295-367), which are input.

  An instruction for any of them is `NoArm` and is reported as `UnimplementedOpcode`.
- These parts of `object_table.rb` are left out:
  - `property_default` (52-59) raises `NameError` before it reads anything: line 53 uses `num_properties`, which is a local variable of `initialize` and not defined in the method, so the `force_readw` at line 58 is never reached;
  - `object_short_text` (98-106) needs the abbreviation table, which is not part of this model.
- `header.rb`, the abbreviation table, `machine.rb`, the CLI, the runner and the web front end are not part of this model:
  - the header fields the core reads are a `Header` value;
  - `Opcode.is_variable_by_reference?` is the `byRef` parameter;
  - the instruction decoder is not modelled: instructions arrive already decoded.
- Ruby raises exceptions part-way through an instruction. The model reports the exception, and the state left behind after an error is not modelled beyond "the class methods change nothing on a failing write".
- DIV divides as Ruby floats. The model divides exact reals, which is the same for 16-bit operands.
- Errors Ruby raises by calling a method on `nil` are named errors:
  - a missing destination (`MissingDestination`);
  - a missing property (`NoSuchProperty`);
  - CALL in version 6 and later (`UnsupportedPackedAddress`): `packed_address_to_byte_address` returns nil there, and `routine_call` then fails in `force_readb(nil)` (`memory.rb` 161).
- An attribute number past the object's attribute bytes is the error `NoSuchAttribute`. In Ruby the byte is `nil`, and `nil & mask` is `false`. So `object_has_attribute?` raises on `false > 0` (`object_table.rb` 130-133). Set and clear compute `true` or `false` and pass it to `force_writeb`. There `setbyte` raises a `TypeError`, or the access-violation branch raises when the address is past the image (`memory.rb` 184-192).
- `pop_routine` with an empty call stack is modelled as `CallStackUnderflow`.
- PULL in version 6 reads a stack operand the interpreter never implemented. It is modelled as doing nothing.
- Zscii.Translation: the model requires `version >= 1`. Version 0 and an initial alphabet outside 0..2 do not exist in story files, and Ruby would index its tables from the end for them.
- Zscii.Translate: the custom alphabet table is a flag. The source only tests it against nil.
- MemoryModel.ForceReadB: a negative address raises `MajorAccessViolation`, as in the corrected writes. Ruby's `getbyte` would count it from the end of the image. The same applies to `ForceReadW`, `ReadB` and `ReadW`. It also applies to `ForceWriteB` and `ForceWriteW`, where Ruby's `setbyte` would write the byte counted from the end.
- ZObjectTable.ObjectTable.Properties: the class uses the corrected scan, which stops at a zero byte in versions 4 and later. The as-written scan is the value function `ObjectTableModel.PropertiesAsWritten`; see Findings.
- ZObjectTable.ObjectTable.Property: it reads through the corrected scan, so in versions 4 and later it returns the property's data. Ruby's `object_property` raises there, because `object_properties` never returns. The same holds for `ObjectTableModel.ObjectProperty`.
- ProcessorModel.Ready: it requires that an instruction carries at least as many operands as its arm reads (`Arity`). `ProcessorModel.Dispatch`, `ProcessorModel.Execute`, `ZProcessor.Processor.Execute` and `ZProcessor.Processor.Dispatch` require the same. A variable-form instruction can encode fewer operands, and the Ruby arm then runs on `nil`. The model does not cover those instructions. Examples:
  - JZ with no operand branches on `nil == 0`, which is false;
  - PUSH with no operand pushes `false`;
  - JE with no operand raises on `nil.inject`;
  - ADD with one operand raises a `TypeError` in `unsigned_to_signed`.
- ProcessorModel.ResolveFrom: the contract states the operand count, the depth popped and that only the stack changes. The exact values are stated by the lemmas beside it only when the operands pop nothing.
- `force_readw` and `force_writew` have a branch for little-endian hosts. Its host test compares a one-character string with the integer 1, so it never holds. Only the big-endian branch is modelled.

## Findings

| source | as written | input that shows it | evidently intended | confidence | as-written member | corrected member |
|---|---|---|---|---|---|---|
| lib/gruesome/z/object_table.rb:176-236 | in versions 4 and later the property loop has no exit: only the version 1-3 branch breaks on a zero size byte | any object in a version 4+ story, e.g. the list `12 AA 00` at address 0 of a 3-byte image: the scan reads past the end and raises | stop at a zero header byte in every version | not executed | ObjectTableModel.PropertiesAsWritten (ObjectTableProperties.LaterScanNeverEnds, ObjectTableProperties.PropertiesAsWrittenFail, ObjectTableProperties.UnterminatedScanExample) | ObjectTableModel.Properties (ObjectTableProperties.PropertyTableIsChain, ObjectTableProperties.PropertyData) |
| lib/gruesome/z/memory.rb:140-148 | writeb guards only `address >= static_base`, then uses Ruby's `setbyte`, which counts a negative index from the end of the string | `writeb(-1, v)` with a non-empty static region: it passes the guard and overwrites the image's last byte, which is in static or high memory | refuse addresses outside 0 up to the static base | not executed | MemoryModel.WriteBAsWritten (MemoryProperties.NegativeWriteReachesStatic) | MemoryModel.WriteB (MemoryProperties.WriteByteKeepsStatic, MemoryProperties.WriteByteAgreesOnNaturals) |
