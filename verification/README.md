# Klartext: the diagnostic VM, its transmit seam and its session, in Dafny

Klartext runs BEST/2 diagnostic jobs against a car's ECUs. This project models the four
parts of it that carry its safety and states what holds of them on every input, every run
and every interleaving.

- **The BEST/2 virtual machine** (`crates/best`). `Bytecode`, `Decode` and `Assemble` are
  the instruction format, the decoder and an assembler inverse to it. `MachineState`, `Alu`
  and `Text` are machine state, integer arithmetic and text conversions as values; the
  `Exec*` modules and `Executor` are the opcode handlers and `step` over them; `Engine` is
  the bounded fetch, step and exchange loop. `Machine`, `ExecMachine`, `ExecDataMachine`,
  `Interpreter` and `EngineMachine` are the same machine, handlers and loop as the source
  runs them, on arrays and fields changed in place, each proved to do what its value
  counterpart says. The `*Laws` modules hold what is then proved about those; `FormatLaws`
  and the `Step*Laws` modules in numbers, over the code's own bytes and over `step` for every
  opcode byte.
- **The transmit seam**: `Telegram` (the codec), `Bridge` (telegrams onto bare requests)
  and `Gate` (the policy veto), composed with the run loop in `EngineLaws`.
- **The demultiplexed UDS session**: `Session` models every lock-held section as one
  atomic step over a shared table and per-request channels, beside a class with the same
  sections as methods; `SessionLaws` proves what every interleaving keeps.
- **HSFZ framing and the clear-then-reset sweep**: `Hsfz`, `Scan` and `ScanLaws`.

A transport, a car, a set of SGBD tables, a float unit and the order of events are
parameters, so a statement about a run is about every transport, car, table set, float
library and schedule. Bytes and words are integers with their bounds written out; every
wrap-around, truncation and saturation of the source is explicit.

Handlers that can fail return `Out`: the state they leave and what they yield, or the fault
they stop on. A run stops at its first fault and drops its machine, so no state is specified
after one, except that a failing store of `Machine` is proved to change nothing.

The rows of `Machine.Machine`, `ExecMachine`, `ExecDataMachine` and `Interpreter` say what a
method does in place; each contract equates the machine it leaves, or the fault it stops on,
with the value counterpart named in it, about which the law rows speak. Handlers without a row
are tied the same way to a function whose meaning is a law's.

## Where natural claims are false

Each has its exact condition in a lemma below: an empty payload does not survive a telegram
(`Telegram.DecodeOfEncode`); the signed branches after `comp` and `subb` are wrong exactly
when arg1 reads as the width's minimum and arg0 does not (`AluLaws.SignedBranches`); integer
operands are not masked to arg0's width, which makes the unsigned branches wrong exactly as
`AluLaws.UnsignedBranches` says; `mult` at width 4 is exact only for products from 0 to
2^32 - 1 (`AluLaws.WideProductLosesHighWord`); `a2fix` saturates above 0x7FFFFFFF
(`TextOpcodeLaws.HexPrintedThenParsed`); text survives a string register only if CP1252 can
hold it (`TextLaws.TextSurvives`); swapping twice restores a buffer only under a condition on
its tail (`MachineLaws.SwapTwice`); a reset outcome means a successful clear exactly for lists
that repeat no address but the gateway's (`ScanLaws.OutcomesAreHonest`).

## Where the code and its documentation disagree

The model follows the code.

- `crates/best/src/decode.rs:32-34` says decoding never produces a float register; selector
  bytes 0x24 to 0x2B do (`Bytecode.RegisterTableIsBijective`).
- `crates/client/src/session.rs:182-187` promises a closed-connection error once the reader
  has ended; exactly the requests registered before that are told, a later one times out
  (`SessionLaws.ClosedMeansToldUnlessLate`, `SessionLaws.LateRequestExists`).
- `crates/client/src/scan.rs:48-52` says a failed clear is never followed by a reset; with a
  repeated address the failed report still gets the other one's outcome
  (`ScanLaws.RepeatMisleads`).

## Model

| member | source | states |
|---|---|---|
| `EngineLaws.CarIsOnlyAskedWhatPolicyAdmits` | crates/best/src/engine.rs:168-244 | For every job, argument buffer, table set and transport, under either policy: what the bare transport was handed is exactly the run's admissible requests, in order; each goes to the run's target, none starts with 0x34..0x37, and under the read-only policy every non-empty one starts with a session or read service; every other request was answered with an error carrying its own telegram |
| `EngineLaws.EveryRunConcludes` | crates/best/src/engine.rs:168-244 | Every run of a decoded job executes at most 2,000,000 instructions, each a decoded one reached at its own offset; it reports the bound exactly when it meets it; however it ends, its results are exactly the entries its erg instructions pushed, in order, committed sets are non-empty and a selected row lies in a selected table; it ends Ok at its first eoj, and a bad row reported by tabget is a ragged one |
| `EngineLaws.RunIsLawful` | crates/best/src/engine.rs:196-244 | The same from any lawful point, for any bound and any instruction semantics that behaves as step does: path, context and exchange history stay in order turn after turn |
| `EngineLaws.StepBehaves` | crates/best/src/exec.rs:243-408 | step is such a semantics: it hands control on to the next instruction or a branch target, ends only at eoj, keeps the cursor and the committed sets in order and appends exactly what an erg pushes, in order |
| `EngineLaws.ExecuteIsLawful` | crates/best/src/engine.rs:197-239 | One fetched instruction keeps the run lawful or ends it in a way its result describes |
| `EngineLaws.UnmaskedFaultEndsRun` | crates/best/src/engine.rs:209-226 | Behind the gate a run ends with an exchange error if and only if its last exchange failed with that very error while trap bit 19 was unmasked, every earlier failed one having found it masked; a last request that was not admissible was rejected with itself |
| `RangeLaws.NoRunIsOutOfRange` | crates/best/src/engine.rs:196-239 | No run of any job ever ends with a register out of range |
| `RangeLaws.StepStaysInRange` | crates/best/src/exec.rs:243-408 | No instruction whose registers exist faults out of range, and the destination an exchange names exists |
| `RangeLaws.AccessIsInRange` | crates/best/src/machine.rs:195-502 | Reading, resolving, storing, indexed storing and swapping through operands that exist never fault out of range |
| `RangeLaws.DecodedOpExists` | crates/best/src/decode.rs:248-271 | Every register a decoded instruction names, as operand, base, index or length, exists |
| `EngineLaws.MaskedFaultDelivers` | crates/best/src/engine.rs:214-226 | A masked exchange failure leaves trap bit 19 recorded and the destination written with no bytes, or faults on that store; nothing else changes |
| `EngineLaws.JobReceivesResponse` | crates/best/src/engine.rs:204-212 | Behind the gate, a turn that fetches an xsend of an allowed telegram leaves in the destination register a telegram that parses to exactly the transport's own response, from the ECU to tester 0xF1; nothing else of the machine changes but the counter |
| `EngineLaws.AnswerDelivers` | crates/best/src/engine.rs:208-212 | After any successful exchange the turn goes on with exactly that response stored at the destination and the trap untouched, or ends on that store's error |
| `EngineLaws.BadPcOrigin` | crates/best/src/engine.rs:197 | A program counter off every boundary comes only from a job without instructions, a taken branch, or running off the end of the last decoded instruction |
| `EngineLaws.RunIsSealed` | crates/best/src/engine.rs:204-228 | From any sealed point, for any job, bound and instruction semantics whatever: nothing the interpreter computes gets an unadmitted request past the gate |
| `EngineLaws.PerformIsSealed` | crates/best/src/engine.rs:204-228 | One exchange through the gate and the bridge keeps the log equal to the admissible requests and every entry admitted |
| `EngineMachine.RunJob` | crates/best/src/engine.rs:166-245 | The loop over one mutable machine and context returns the specified result, and its transport log is the specified run's |
| `EngineMachine.Execute` | crates/best/src/engine.rs:197-239 | One turn in place: machine, context and log end up as the specified turn leaves them |
| `EngineMachine.Perform` | crates/best/src/engine.rs:204-228 | An exchange in place: response, masked failure or abort, as specified |
| `EngineMachine.BuildIndex` | crates/best/src/engine.rs:180-181 | The map filled instruction by instruction is the specified offset-to-index map |
| `Engine.IndexMap` | crates/best/src/engine.rs:180-181 | The index holds every decoded offset, and each entry points back at an instruction with that offset |
| `Gate.StackTransmits` | crates/best/src/gate.rs:165-194 | One telegram through gate and bridge: an admissible one hands exactly its own payload to the transport, although the gate only peeked, and fails exactly as the transport fails; any other reaches nothing and is answered with an error carrying it |
| `Gate.VetoIsExact` | crates/best/src/gate.rs:165-194 | In numbers and both ways: a request for the run's ECU reaches the transport, once and as it is, if and only if its first byte is 0x10, 0x19, 0x22, 0x2C or 0x3E, or with writes confirmed any but 0x34 to 0x37; otherwise it is refused by that byte |
| `Gate.ClassesAre` | crates/best/src/gate.rs:91-104 | Exactly those five services pass and exactly 0x34 to 0x37 are always refused |
| `Bridge.ReplyCarriesResponse` | crates/best/src/bridge.rs:107-126 | The reply a job parses is the ECU's response addressed to the tester, if and only if the response has 1 to 65535 bytes |
| `Telegram.DecodeOfEncode` | crates/best/src/telegram.rs:153-177 | Decoding an encoded payload gives the telegram back if and only if it has 1 to 65535 bytes, across all three length forms |
| `Telegram.WireFormat` | crates/best/src/telegram.rs:93-129 | Byte by byte: length form, addresses, payload, and the sum of all before it, in each of the three forms |
| `Telegram.DecodesAsDeclared` | crates/best/src/telegram.rs:253-270 | How any bytes are read: payload, addresses and checksum stand where the declared form puts them, and each failure is reported with its own numbers |
| `Telegram.DecodeRequestOfBody` | crates/best/src/telegram.rs:195-211 | The request decode yields the same telegram with and without the checksum byte |
| `Telegram.PeekAgreesWithDecode` | crates/best/src/telegram.rs:226-231 | The peeked byte is the first payload byte of every accepted request whose payload is non-empty, and exactly when it can differ |
| `Telegram.TamperIsDetected` | crates/best/src/telegram.rs:238-240 | Changing any one address, payload or checksum byte of an exactly sized accepted frame is reported as a bad checksum |
| `Telegram.BuildFrame` | crates/best/src/telegram.rs:93-129 | The frame grown push by push is the header, payload and checksum of the specified form |
| `Telegram.SumBytes` | crates/best/src/telegram.rs:238-240 | The wrapping fold is the specified checksum |
| `Telegram.ChecksumIsSum` | crates/best/src/telegram.rs:238-240 | The checksum is the unbounded byte sum modulo 256 |
| `Bytecode.RegisterTableIsBijective` | crates/best/src/decode.rs:366-380 | The selector table is a bijection between its valid bytes and B0..31, I0..15, L0..7, S0..15, F0..7; every other byte is a bad register |
| `FormatLaws.InstructionFormat` | crates/best/src/decode.rs:248-271 | The whole format, both ways and over the bytes themselves: an instruction decodes if and only if its opcode byte is one of the decodable ones, its mode byte holds arg0's mode high and arg1's low, and both operands stand as their nibbles 0 to 15 spell them |
| `FormatLaws.OperandIsSpelled` | crates/best/src/decode.rs:391-455 | The same for one operand of each of the sixteen nibbles, selectors and little-endian numbers included |
| `FormatLaws.BadOpcode` | crates/best/src/decode.rs:248-271 | Unknown above 0xB7, unimplemented for the thirteen, whatever follows |
| `Assemble.DecodeOneInverse` | crates/best/src/decode.rs:248-271 | Decoding at a position yields an instruction if and only if that instruction's own encoding stands there |
| `Assemble.OperandSound` | crates/best/src/decode.rs:391-455 | A decoded operand is one its mode can encode, and re-encodes to exactly the bytes read |
| `Assemble.OperandComplete` | crates/best/src/decode.rs:391-455 | The bytes of any operand a mode can encode are read back as that operand |
| `Assemble.DecodeJobSucceeds` | crates/best/src/decode.rs:215-236 | A list is a job's decode if and only if its instructions, re-encoded, tile the code from 0 and the tiling ends at the end of the code or at an undecodable instruction behind an eoj |
| `Assemble.DecodeJobFails` | crates/best/src/decode.rs:215-236 | Decoding fails with an error if and only if an instruction failing with it precedes every eoj |
| `Assemble.AssembledJobDecodes` | crates/best/src/decode.rs:215-236 | Any well-formed list of instructions laid out from 0 assembles to bytes that decode back to it |
| `Assemble.TiledSuccessor` | crates/best/src/decode.rs:215-236 | Every instruction is at least two bytes and ends where the next one, or the decoded range, begins or ends |
| `Assemble.TiledIncreases` | crates/best/src/decode.rs:215-236 | Decoded offsets are strictly increasing, so the index map loses none |
| `Decode.DecodeOneAdvances` | crates/best/src/decode.rs:248-271 | A decoded instruction records its own position, is at least two bytes long and stays inside the code |
| `Decode.RunDecoder` | crates/best/src/decode.rs:215-236 | The cursor loop with its seen-eoj flag collects the specified instructions or error |
| `Decode.Reader.ReadU8` | crates/best/src/decode.rs:317-321 | Reads at the cursor and advances it by exactly what was read, or reports truncation |
| `Decode.Reader.ReadBytes` | crates/best/src/decode.rs:327-333 | Reads at the cursor and advances it by exactly what was read, or reports truncation |
| `Decode.Reader.ReadU16` | crates/best/src/decode.rs:339-343 | Reads at the cursor and advances it by exactly what was read, or reports truncation |
| `Decode.Reader.ReadU32` | crates/best/src/decode.rs:349-355 | Reads at the cursor and advances it by exactly what was read, or reports truncation |
| `Decode.Reader.constructor` | crates/best/src/decode.rs:309-311 | A cursor at the start of the code |
| `Decode.Reader.ReadRegister` | crates/best/src/decode.rs:366-380 | Reads one selector byte and resolves it by the register table |
| `Decode.Reader.ReadIndex` | crates/best/src/decode.rs:391-455 | Reads an index, length or increment in the immediate or register form the mode fixes |
| `Decode.Reader.ReadIndexed` | crates/best/src/decode.rs:391-455 | Reads base, index and the trailer of the seven indexed modes |
| `Decode.Reader.ReadOperand` | crates/best/src/decode.rs:391-455 | Reads the operand of any of the sixteen modes, advancing past it |
| `Decode.Reader.ReadOp` | crates/best/src/decode.rs:248-271 | Vets the opcode before the mode byte and reads both operands, advancing by the length recorded |
| `MachineLaws.FreshMachine` | crates/best/src/machine.rs:163-175 | A fresh machine has every register zero or empty, nothing on the stack, no trap recorded and none masked |
| `MachineLaws.BanksOverlap` | crates/best/src/machine.rs:424-443 | In every state each L register is its two I registers and each I its two B registers, little-endian |
| `MachineLaws.WriteThenRead` | crates/best/src/machine.rs:473-502 | A register write reads back truncated to its width and changes exactly the bytes it names |
| `MachineLaws.IndexedReadSpan` | crates/best/src/machine.rs:240-252 | A length-mode indexed read returns exactly the zero-extended span, or a bounds fault past the limit |
| `MachineLaws.IndexedReadToEnd` | crates/best/src/machine.rs:240-252 | Without a length an indexed read goes to the end of the used bytes, or faults from 1023 on |
| `MachineLaws.IndexIs` | crates/best/src/machine.rs:455-465 | An index is its number or what its integer register holds; no other register is one |
| `MachineLaws.OverlaySpan` | crates/best/src/machine.rs:350-371 | A store updates exactly its span of the zero-extended memory and leaves the used length at max(old, index + n) |
| `MachineLaws.IndexedWriteSpan` | crates/best/src/machine.rs:319-369 | An indexed write of bytes or of an integer is that store on the one buffer it names, or a bounds fault |
| `MachineLaws.PlainStore` | crates/best/src/machine.rs:279-293 | A plain store through an index takes an integer's low byte or a buffer whole, within 1023 bytes |
| `MachineLaws.SwapSpan` | crates/best/src/machine.rs:392-418 | A swap mirrors its span of the memory into the used bytes and keeps the used length |
| `MachineLaws.SwapTwice` | crates/best/src/machine.rs:392-418 | Swapping twice restores the buffer if and only if the bytes an overrunning slice pushes past the used length are zeros, so always inside the used bytes |
| `Machine.Machine.constructor` | crates/best/src/machine.rs:163-175 | A machine with zeroed registers, empty buffers and stack, no trap and no mask |
| `Machine.Machine.ReadReg` | crates/best/src/machine.rs:424-443 | Returns the specified value or error of the machine's current state |
| `Machine.Machine.WriteReg` | crates/best/src/machine.rs:473-502 | In place: the specified value, or the specified state; a failing store changes nothing |
| `Machine.Machine.ResolveIndex` | crates/best/src/machine.rs:455-465 | Returns the specified value or error of the machine's current state |
| `Machine.Machine.Read` | crates/best/src/machine.rs:195-257 | Returns the specified value or error of the machine's current state |
| `Machine.Machine.Write` | crates/best/src/machine.rs:279-293 | In place: the specified value, or the specified state; a failing store changes nothing |
| `Machine.Machine.WriteIndexed` | crates/best/src/machine.rs:319-369 | In place: the specified value, or the specified state; a failing store changes nothing |
| `Machine.Machine.SwapSlice` | crates/best/src/machine.rs:392-418 | In place: the specified value, or the specified state; a failing store changes nothing |
| `Machine.Machine.ReadIndexed` | crates/best/src/machine.rs:216-255 | Returns the specified slice, zero-extended in length mode, or the bounds fault |
| `Machine.Machine.StoreLe` | crates/best/src/machine.rs:477-491 | Storing byte by byte leaves the file with the word's little-endian digits and nothing else changed |
| `Machine.ReverseSlice` | crates/best/src/machine.rs:415 | Exchanging ends inwards reverses exactly the slice |
| `ExecLaws.StepControl` | crates/best/src/exec.rs:243-408 | After any instruction the counter is a taken branch's target or the byte just past it; only branches jump, only eoj ends the job, only xsend exchanges |
| `ExecLaws.EnvIsOrdinary` | crates/best/src/exec.rs:243-408 | No handler but a branch touches the counter, none but push and pop the stack, none but settmr the trap mask |
| `ExecLaws.StepContext` | crates/best/src/exec.rs:243-408 | Any instruction keeps the cursor in order and committed sets non-empty; an erg appends exactly its one entry to the push order and nothing else changes it |
| `ExecLaws.WaitOnlyWaits` | crates/best/src/exec.rs:342-344 | wait surfaces its seconds and changes nothing but the counter |
| `StepLaws.ArithmeticByOpcode` | crates/best/src/exec.rs:257-261 | Through step: 0x00 leaves the source in a register, 0x03 the difference, 0x04 the sum, modulo the width; Zero and Sign tell of it, Carry and Overflow of the operation |
| `StepLaws.BufferMoveByOpcode` | crates/best/src/exec.rs:659-730 | 0x00 through an index lays an integer's low byte, or a buffer whole, over what stood there, with the flags each leaves |
| `StepLaws.BufferSumByOpcode` | crates/best/src/exec.rs:825-840 | 0x04 to a byte of a buffer leaves the low byte of the sum there and nowhere else |
| `StepLaws.CompareThenJump` | crates/best/src/exec.rs:259-321 | 0x02 and then a branch instruction: 0x0E, 0x0F, 0x10, 0x11, 0x5E and 0x5F jump exactly on the unsigned order of what comp read, 0x5A to 0x5D on the signed one unless arg1 reads as the minimum |
| `StepLaws.BranchesByOpcode` | crates/best/src/exec.rs:268-321 | Each branch byte jumps to its signed displacement exactly on its own flags and falls through otherwise |
| `StepLaws.TrapsByOpcode` | crates/best/src/exec.rs:313-314 | 0x47 jumps exactly when the recorded trap is the bit tested, 0x48 exactly when it is not |
| `StepLaws.ProductsByOpcode` | crates/best/src/exec.rs:262-263 | 0x05 leaves the product's halves and 0x06 quotient and remainder, faulting exactly on a zero divisor or MIN / -1 |
| `StepLaws.BitsByOpcode` | crates/best/src/exec.rs:264-267 | 0x07, 0x08, 0x09 and 0x0A and, or, xor and flip every bit, leaving Carry, clearing Overflow |
| `StepLaws.ShiftsByOpcode` | crates/best/src/exec.rs:285-288 | 0x18, 0x19, 0x1A and 0x1B for every count, with Carry, Zero and Sign |
| `StepLaws.ControlByOpcode` | crates/best/src/exec.rs:277-315 | clrc, setc, nop, eoj, etag, clrt and break, each exactly |
| `StepLaws.UnimplementedByOpcode` | crates/best/src/exec.rs:391-406 | Every decodable byte without a handler fails as unimplemented |
| `StepLaws.ClearByOpcode` | crates/best/src/exec.rs:258 | 0x01 empties its register and sets Zero alone |
| `StepLaws.MaskByOpcode` | crates/best/src/exec.rs:296-307 | 0x43 reads the trap mask, 0x44 stores it, and nothing else |
| `StepLaws.XsendByOpcode` | crates/best/src/exec.rs:390 | 0x2A hands out its second operand's bytes, to be answered into its first |
| `StepLaws.SwapByOpcode` | crates/best/src/exec.rs:358 | 0x51 mirrors its span of the buffer, or records trap 0 when the span passes 1023 |
| `StepLaws.StackByOpcode` | crates/best/src/exec.rs:291-292 | 0x1E puts a register's own file bytes on the stack, 0x1F takes them off, with Zero and Sign |
| `StepLaws.PushImmediate` | crates/best/src/exec.rs:1132-1152 | 0x1E of an immediate pushes as many of its bytes, low first, as its mode encodes |
| `StepLaws.PeekByOpcode` | crates/best/src/exec.rs:379 | 0x50 copies the field that starts so many bytes below the top |
| `StepDataLaws.BuffersByOpcode` | crates/best/src/exec.rs:348-355 | 0x00, 0x20, 0x21, 0x7E and 0x8F on two string registers, exactly |
| `StepDataLaws.EditsByOpcode` | crates/best/src/exec.rs:350-353 | 0x22 cuts, 0x24 inserts and 0x25 removes, byte for byte, and out of range nothing |
| `StepDataLaws.LengthsByOpcode` | crates/best/src/exec.rs:351-356 | 0x23 gives a buffer's length or a register's width, 0x90 the text's length |
| `StepDataLaws.PrintsByOpcode` | crates/best/src/exec.rs:345-346 | 0x79 prints a register in hex, 0x7A in signed decimal, at its own width |
| `StepDataLaws.PrintsOthers` | crates/best/src/exec.rs:1656-1677 | They print an immediate at the width its mode encodes, and a buffer's first byte |
| `StepDataLaws.ParseByOpcode` | crates/best/src/exec.rs:327 | 0x67 of any 64-bit decimal leaves its value, 0xFFFFFFFF above and 0x80000000 below 32 bits |
| `StepDataLaws.BytesByOpcode` | crates/best/src/exec.rs:330-333 | 0x8C and 0x8E read bytes from text, 0x91 and 0x92 print them in BCD and hex |
| `StepDataLaws.BadHexByOpcode` | crates/best/src/exec.rs:331 | 0x8E of a bad pair leaves nothing and sets Carry |
| `StepDataLaws.FloatsByOpcode` | crates/best/src/exec.rs:323-337 | 0x3B to 0x3E store exactly a finite result of the unit and fail on any other; 0xA1 only compares |
| `StepDataLaws.FloatWordsByOpcode` | crates/best/src/exec.rs:328-334 | 0x68 and 0x96 convert through the unit, the latter modulo the width |
| `StepDataLaws.FloatTextsByOpcode` | crates/best/src/exec.rs:322-336 | 0x3A and 0x87 convert from and to text, 0x9D and 0x9E from raw bytes, each failing exactly when it must |
| `StepDataLaws.ArgumentsByOpcode` | crates/best/src/exec.rs:373-377 | 0x55 to 0x58, 0x69, 0x7F and 0x80 give the job the fields its caller joined |
| `StepContextLaws.TabsetByOpcode` | crates/best/src/exec.rs:380 | 0x7B selects the first table of that name up to ASCII case, keeping the row only when it was selected already |
| `StepContextLaws.TabseekByOpcode` | crates/best/src/exec.rs:381-384 | 0x7C by text and 0x9A by number land on the first row whose cell in the named column is the key, or on the last with Zero set |
| `StepContextLaws.TablineByOpcode` | crates/best/src/exec.rs:383 | 0x83 selects the row of that number, or the last with Zero set |
| `StepContextLaws.TabgetByOpcode` | crates/best/src/exec.rs:382 | 0x7D stores the cell of the named column in the selected row, nothing before one is selected |
| `StepContextLaws.TableFaults` | crates/best/src/exec.rs:2179-2181 | Without a selected table the row opcodes fail, and in one for a column it has not |
| `StepContextLaws.SizesByOpcode` | crates/best/src/exec.rs:385-386 | 0xB6 counts the columns, 0xB7 the rows and the header, both 0 with no table |
| `StepContextLaws.NamesFold` | crates/best/src/exec.rs:2194-2196 | Names are equal up to ASCII case and nothing else |
| `StepContextLaws.NumbersByOpcode` | crates/best/src/exec.rs:360-368 | The integer ergs push, under their name, the number of the width and sign their byte fixes |
| `StepContextLaws.BuffersPushed` | crates/best/src/exec.rs:364-366 | 0x38, 0x39 and 0x3F push a register's float, text or bytes |
| `StepContextLaws.EnewsetByOpcode` | crates/best/src/exec.rs:369 | 0x40 starts a set only when the current one holds something |
| `OpcodeLaws.OperandsRead` | crates/best/src/exec.rs:499-516 | What each kind of operand reads as: a buffer as a number is its first bytes, zero past its end |
| `OpcodeLaws.BoundsFaultIsATrap` | crates/best/src/exec.rs:531-540 | A bounds fault is trap 0: masked, a read gives nothing and a store keeps everything; unmasked, it aborts |
| `ExecLaws.FoldedReadsToEnd` | crates/best/src/exec.rs:613-628 | A register-plus-increment operand reads its buffer from register + increment to the end, or faults at the limit |
| `ExecLaws.NameIndexIsFirst` | crates/best/src/exec.rs:2194-2196 | A name resolves to its first case-insensitive match, and to none only if there is none |
| `ExecLaws.SeekRowIsFirst` | crates/best/src/exec.rs:2274-2287 | A seek hit is the first matching row, and a miss means no row matches |
| `ExecLaws.SeekSettles` | crates/best/src/exec.rs:2316-2337 | Zero is clear exactly on a hit, a miss lands on the last row, and only a table without rows fails |
| `ExecLaws.CursorStaysOk` | crates/best/src/exec.rs:2249-2391 | Table opcodes keep a selected row inside a selected table |
| `ExecLaws.RowFaultIsRagged` | crates/best/src/exec.rs:2349-2368 | With the cursor in order, tabget reports a bad row only for one shorter than the header |
| `OpcodeLaws.MoveStoresSource` | crates/best/src/exec.rs:659-730 | A move into an integer register stores whatever the source reads modulo the width, with Zero and Sign telling of what was stored |
| `OpcodeLaws.MoveIntoBuffer` | crates/best/src/exec.rs:659-730 | A move through an index stores a buffer's bytes or an integer's low byte there and nothing else |
| `OpcodeLaws.MoveCopiesFloat` | crates/best/src/exec.rs:659-730 | A move into a float register copies a float and refuses anything else |
| `OpcodeLaws.ClearZeroes` | crates/best/src/exec.rs:765-785 | clear leaves its register zero or empty with Zero alone set, and every register it does not overlap as it was |
| `OpcodeLaws.BitwiseWorksBitByBit` | crates/best/src/exec.rs:919-933 | and, or and xor combine every bit of the register with the same bit of any other operand |
| `AluLaws.ZippedBit` | crates/best/src/exec.rs:264-266 | The bitwise results have exactly the combined bits |
| `OpcodeLaws.SettmrGovernsTraps` | crates/best/src/exec.rs:296-307 | The mask settmr stores decides which traps abort, and gettmr reads it back modulo the width |
| `OpcodeLaws.JtFindsTheRecordedTrap` | crates/best/src/exec.rs:1091-1101 | After a masked trap jt jumps on exactly its own bit, an unmapped one answering to 32; with none recorded never; jnt exactly when jt does not |
| `OpcodeLaws.JtWithoutTestFindsNone` | crates/best/src/exec.rs:1091-1101 | Without a test bit jt finds no trap a mask can let pass |
| `OpcodeLaws.NotTwiceRestores` | crates/best/src/exec.rs:937-944 | not twice restores a register at every width |
| `OpcodeLaws.NotFlipsBits` | crates/best/src/exec.rs:937-944 | not flips every bit of the register |
| `OpcodeLaws.CompareThenBranch` | crates/best/src/exec.rs:792-801 | For any operands: the unsigned branches decide the unsigned order if and only if arg1 fits arg0's width or the borrow a wider one causes happens to be right, the signed ones the order of the signed readings if and only if arg1 does not read as the minimum or both do; at the minimum jg is never taken |
| `OpcodeLaws.SubtractIsCompareAndStore` | crates/best/src/exec.rs:804-814 | subb leaves comp's flags and stores the difference modulo the width |
| `OpcodeLaws.AddsStoresSum` | crates/best/src/exec.rs:825-840 | adds stores the sum modulo the width, whatever the width of the other operand |
| `OpcodeLaws.AddsIntoBuffer` | crates/best/src/exec.rs:825-840 | The same into a byte of a buffer, which alone changes |
| `OpcodeLaws.MultLeavesProduct` | crates/best/src/exec.rs:845-876 | At widths 1 and 2 high:low is the exact signed product; at width 4 low is the product modulo 2^32 and high is zero, exact if and only if the signed product is from 0 to 2^32 - 1 |
| `OpcodeLaws.MultIntoBuffer` | crates/best/src/exec.rs:845-876 | The same with arg1 a word of a buffer, where the high half goes back |
| `OpcodeLaws.MultAndDivsByImmediate` | crates/best/src/exec.rs:845-915 | With an immediate arg1 only the low half or the quotient stays |
| `OpcodeLaws.DivsLeavesParts` | crates/best/src/exec.rs:882-915 | Fails exactly on a zero divisor or MIN / -1; else d*q + r = n with |r| < |d| and r signed like n, under the code's 32-bit reading of both operands |
| `OpcodeLaws.DivsIntoBuffer` | crates/best/src/exec.rs:882-915 | The same with arg1 a word of a buffer, where the remainder goes back |
| `OpcodeLaws.NegativeShiftKeeps` | crates/best/src/exec.rs:949-1038 | A negative count leaves value and Carry as they are |
| `OpcodeLaws.ShiftsAreArithmetic` | crates/best/src/exec.rs:949-1038 | For every non-negative count: lsl and asl multiply by 2^n modulo the width, lsr is floor division, asr floor division of the signed value, and Carry is the last bit shifted out |
| `OpcodeLaws.PopsRestorePushes` | crates/best/src/exec.rs:1160-1191 | Popping in reverse any list of pushed registers, whatever happened to the registers in between, restores exactly their bytes and the stack below |
| `OpcodeLaws.PushOne` | crates/best/src/exec.rs:1160-1168 | A push appends the register's bytes, least significant first, and changes nothing else |
| `OpcodeLaws.PopOne` | crates/best/src/exec.rs:1175-1191 | A pop takes exactly the top word and stores it |
| `OpcodeLaws.AtspReadsUnder` | crates/best/src/exec.rs:2213-2236 | At position d + w it returns the w-byte value under d later bytes and leaves the stack alone |
| `OpcodeLaws.AtspFaults` | crates/best/src/exec.rs:2213-2236 | It fails if and only if the field is not wholly on the stack |
| `AluLaws.UnsignedBranches` | crates/best/src/exec.rs:473-491 | Each unsigned branch is right if and only if arg1 fits arg0's width or a stated condition on the wide arg1 holds: low parts differ for jz and jnz, an odd borrow for jc and jae, either equal low parts or an odd borrow for ja and jbe |
| `AluLaws.SignedBranches` | crates/best/src/exec.rs:485-495 | For any two words, all four signed verdicts are right for their signed readings if and only if arg1 does not read as the width's minimum or both do; at the minimum jg is never taken and jl is taken for every other arg0 |
| `AluLaws.ZeroDecidesCongruence` | crates/best/src/exec.rs:466-470 | Operands are not masked: in general Zero decides congruence modulo the width |
| `AluLaws.WideOperandsMisjudged` | crates/best/src/exec.rs:499-516 | Concrete wider operands judged wrong at one byte: 0 equals 0x100, and 5 is above 0x107 |
| `AluLaws.AdditionFlags` | crates/best/src/exec.rs:825-840 | After adds of any two words, Carry is the parity of the sum's quotient, so the carry out when both fit; Overflow reads the signed sum against its range, and Sign differs from Overflow exactly for a negative sum |
| `AluLaws.ProductIsExact` | crates/best/src/exec.rs:845-878 | At widths 1 and 2 the two stored halves are the exact signed product |
| `AluLaws.WideProductLosesHighWord` | crates/best/src/exec.rs:845-878 | At width 4 the product is kept modulo 2^32 with a zero high half, which is exact if and only if the signed product is from 0 to 2^32 - 1 |
| `AluLaws.DivisionReconstructs` | crates/best/src/exec.rs:882-915 | Truncated quotient and remainder reconstruct the dividend and fit a signed word |
| `AluLaws.ShiftLeftMultiplies` | crates/best/src/exec.rs:949-971 | For every count the result is v * 2^n modulo the width and Carry the bit just above it |
| `AluLaws.ShiftRightDivides` | crates/best/src/exec.rs:975-997 | For every count the result is v / 2^n and Carry the bit dropped last |
| `AluLaws.ShiftArithmeticDivides` | crates/best/src/exec.rs:1002-1038 | For every count the signed result is the floor quotient and Carry the bit dropped last, the sign bit past the width |
| `TextOpcodeLaws.DecimalPrintedThenParsed` | crates/best/src/exec.rs:1443-1457 | fix2dez then a2fix restores every register value at widths 1, 2 and 4 |
| `TextOpcodeLaws.HexPrintedThenParsed` | crates/best/src/exec.rs:1656-1677 | fix2hex then a2fix restores every value up to 0x7FFFFFFF and gives 0xFFFFFFFF above |
| `TextOpcodeLaws.BytesPrintedThenParsed` | crates/best/src/exec.rs:1574-1580 | y2hex then hex2y restores every byte buffer, the empty one too, with Carry clear |
| `TextOpcodeLaws.AppendThenCut` | crates/best/src/exec.rs:2037-2047 | scut by the length scat appended takes exactly that off again |
| `TextOpcodeLaws.PasteThenErase` | crates/best/src/exec.rs:2096-2113 | serase of what spaste inserted restores the buffer, also when the paste was out of range |
| `TextOpcodeLaws.MoveOverlaysFront` | crates/best/src/exec.rs:659-730 | A buffer move overwrites the front and keeps a longer destination's tail |
| `TextOpcodeLaws.StringRegister` | crates/best/src/exec.rs:1280-1287 | Text stored in a string register reads back as its NUL-terminated bytes say |
| `TextLaws.TextSurvives` | crates/best/src/exec.rs:1280-1287 | Text written to a string register is read back unchanged if and only if CP1252 can encode its every character and it holds no NUL |
| `TextLaws.StoredText` | crates/best/src/exec.rs:1280-1287 | A stored text is its bytes and one NUL, unless it is empty or ends in one already |
| `TextLaws.CStringIsStorable` | crates/best/src/exec.rs:1267-1271 | What a string register reads as holds only such characters |
| `TextLaws.CodecIsLossless` | crates/sgbd/src/cp1252.rs:67-77 | Every decoded CP1252 byte encodes back to itself |
| `TextLaws.HighCharacters` | crates/sgbd/src/cp1252.rs:20-25 | The 32 characters of bytes 0x80 to 0x9F, one by one, in both directions |
| `TextLaws.OtherCharacters` | crates/sgbd/src/cp1252.rs:67-77 | ASCII and Latin-1 stand for themselves, and what the code page lacks becomes a question mark |
| `TextLaws.DecimalParses` | crates/best/src/exec.rs:1295-1324 | The decimal parser inverts the signed decimal printer |
| `TextLaws.NumberInText` | crates/best/src/exec.rs:1295-1324 | Blanks around a decimal and a fraction behind it do not matter; a decimal beyond 64 bits is 0 |
| `TextLaws.BinaryParses` | crates/best/src/exec.rs:1295-1324 | Behind 0y in either case stands binary |
| `TextLaws.BadHexIsZero` | crates/best/src/exec.rs:1295-1324 | Behind 0x in either case anything but a hex digit gives 0 |
| `TextLaws.WordsAreZero` | crates/best/src/exec.rs:1295-1324 | A word, a lone sign and no text are 0 |
| `TextLaws.SpacesAre` | crates/best/src/exec.rs:1296-1323 | What trimming takes off is exactly Unicode white space |
| `TextLaws.HexParses` | crates/best/src/exec.rs:1295-1324 | The parser inverts the prefixed hex printer for every 32-bit word and width |
| `TextLaws.HexTextParses` | crates/best/src/exec.rs:1330-1339 | The hex-pair parser inverts the hex-pair printer |
| `TextLaws.PairsAreBytes` | crates/best/src/exec.rs:1330-1339 | Decoded text is its digit pairs, high digit first, an odd last one dropped |
| `TextLaws.HexDigitsAre` | crates/best/src/exec.rs:1330-1339 | The digits are 0 to 9 and A to F in either case, each worth its place |
| `TextLaws.PrintedBytes` | crates/best/src/exec.rs:1365-1369 | Printed bytes are two digits each, the high one first, in hex and in BCD |
| `TextLaws.DigitsAre` | crates/best/src/exec.rs:1356-1370 | The digits are 0 to 9 and A to F, with a star for each letter in BCD |
| `TextLaws.HexIsPadded` | crates/best/src/exec.rs:1656-1677 | Printed hex of a word has exactly the digits of its width, none lower case |
| `TextLaws.DecimalIsShort` | crates/best/src/exec.rs:1656-1677 | A printed decimal has no leading zero |
| `TextLaws.DecimalThroughRegister` | crates/best/src/exec.rs:1443-1457 | Printing, storing, reading, parsing and clamping a decimal gives the register value back modulo its width |
| `TextLaws.HexThroughRegister` | crates/best/src/exec.rs:1443-1457 | The same for hex, exactly up to 0x7FFFFFFF |
| `TextLaws.BytesThroughRegister` | crates/best/src/exec.rs:1574-1580 | The same for byte buffers in hex |
| `TextLaws.A2YInvertsSpacedHex` | crates/best/src/exec.rs:1533-1567 | a2y inverts two-digit hex separated by blanks, semicolons or commas |
| `TextLaws.BlankFieldIsZeros` | crates/best/src/exec.rs:1533-1567 | A blank field stands for one zero more than its blanks |
| `TextLaws.BigNumberStops` | crates/best/src/exec.rs:1533-1567 | A number beyond a byte, however long, stops at the bytes before it |
| `TextLaws.OtherCharacterStops` | crates/best/src/exec.rs:1533-1567 | So does any other character, but with nothing before it one zero is left |
| `TextLaws.JoinThenSplit` | crates/best/src/exec.rs:1771-1777 | Fields joined by a separator none of them holds split into themselves |
| `TextOpcodeLaws.A2YReadsSpacedHex` | crates/best/src/exec.rs:1533-1567 | a2y of a register holding such text leaves the bytes |
| `TextOpcodeLaws.LengthsCompare` | crates/best/src/exec.rs:2056-2165 | slen measures the buffer, strlen its text, which is never longer and shorter exactly when the buffer holds a NUL |
| `TextOpcodeLaws.SlenOfRegister` | crates/best/src/exec.rs:1706-1726 | slen of an integer register is its width, and of an immediate, indexed or absent operand an error |
| `TextOpcodeLaws.ComparisonsCompare` | crates/best/src/exec.rs:2013-2146 | scmp finds all bytes equal, strcmp those up to the first NUL, so what scmp calls equal strcmp does too |
| `TextOpcodeLaws.StrcatJoinsTexts` | crates/best/src/exec.rs:2121-2127 | After strcat the target reads as the two texts in order |
| `FloatLaws.ArithmeticStaysFinite` | crates/best/src/exec.rs:1378-1392 | Float arithmetic faults exactly on a non-finite result, and else changes its one register |
| `FloatLaws.FloatCompareThenBranch` | crates/best/src/exec.rs:1402-1418 | After fcomp jz decides equality, jl less, jg neither, and Carry turns on exactly for a non-finite difference |
| `FloatLaws.IntegerThroughFloat` | crates/best/src/exec.rs:1465-1500 | fix2flt then flt2fix restores a register of any width, for a unit that holds 32-bit integers |
| `FloatLaws.FloatThroughText` | crates/best/src/exec.rs:1427-1530 | flt2a then a2flt restores a float whose text the unit parses back |
| `FloatLaws.RawBytesAreTheFloat` | crates/best/src/exec.rs:1619-1638 | y82flt reads a float's little-endian bits back and faults exactly on fewer than eight bytes |
| `FloatLaws.SingleBytesAreWidened` | crates/best/src/exec.rs:1619-1638 | y42flt widens the single it reads and faults exactly on fewer than four bytes |
| `ContextLaws.FieldsAreGiven` | crates/best/src/exec.rs:1771-1777 | The fields a caller joins are what the job finds, each at its 1-based position |
| `ContextLaws.ParsGivesField` | crates/best/src/exec.rs:1967-1979 | pars gives the field at its position if and only if CP1252 can hold it, with Zero set exactly when there is none |
| `ContextLaws.ParlGivesNumber` | crates/best/src/exec.rs:1917-1934 | parb, parw and parl give the number a decimal field spells modulo the target's width, and 0 with Zero set for none |
| `ContextLaws.ParrGivesFloat` | crates/best/src/exec.rs:1942-1959 | parr gives the float an ASCII field spells, and 0 when it spells none or is absent |
| `ContextLaws.ParnCountsFields` | crates/best/src/exec.rs:1997-2004 | parn counts the fields, none without arguments |
| `ContextLaws.ParyGivesBuffer` | crates/best/src/exec.rs:1987-1991 | pary gives the argument buffer byte for byte |
| `ContextLaws.ErgPushesResidue` | crates/best/src/exec.rs:1806-1880 | An integer erg pushes the one number of its signed or unsigned range congruent to the value read |
| `ContextLaws.ErgPushesBuffer` | crates/best/src/exec.rs:1839-1862 | ergs pushes a register's text, ergy its bytes, ergr its float, and nothing else passes |
| `ContextLaws.SizesBoundTheTable` | crates/best/src/exec.rs:2399-2416 | tabline hits exactly the lines below tabrows less the header, every column a name resolves to is below tabcols, and both are 0 with no table selected |
| `TextLaws.SplitThenJoin` | crates/best/src/exec.rs:1771-1777 | Splitting arguments loses nothing: joined again the fields are the text, and none holds the separator |
| `ResultSets.PushAppends` | crates/best/src/result.rs:90-92 | A push appends one entry to the whole push order and leaves every committed set as it is |
| `ResultSets.PushIsFound` | crates/best/src/result.rs:114-119 | A pushed result is found by its name if and only if the current set had none of that name, or the same |
| `ResultSets.NewSetKeepsOrder` | crates/best/src/result.rs:99-101 | Starting a set moves no entry and commits the old current one |
| `ResultSets.ResultSet.constructor` | crates/best/src/result.rs:83-87 | One empty current set |
| `ResultSets.ResultSet.Push` | crates/best/src/result.rs:90-92 | Appends the entry to the current set in place |
| `ResultSets.ResultSet.StartSet` | crates/best/src/result.rs:99-101 | Appends a fresh current set in place |
| `ResultSets.ResultSet.Lookup` | crates/best/src/result.rs:114-119 | The first entry of the current set with the name, or none |
| `ExecMachine.RecordError` | crates/best/src/exec.rs:1111-1117 | records the trap, then aborts unless the bit is masked |
| `ExecMachine.FetchSource` | crates/best/src/exec.rs:531-540 | a bounds fault becomes trap 0 and no bytes |
| `ExecMachine.PutIndexed` | crates/best/src/exec.rs:558-572 | a bounds fault becomes trap 0 and no store |
| `ExecMachine.FetchInt` | crates/best/src/exec.rs:499-516 | a register keeps its own width, a buffer gives its first bytes |
| `ExecMachine.FetchBytes` | crates/best/src/exec.rs:1252-1257 | bytes only |
| `ExecMachine.FetchString` | crates/best/src/exec.rs:1267-1271 | the characters up to the first NUL |
| `ExecMachine.PutString` | crates/best/src/exec.rs:1280-1287 | CP1252 bytes, NUL-terminated unless empty |
| `ExecMachine.FetchFloat` | crates/best/src/exec.rs:1241-1246 | a float only |
| `ExecMachine.FetchValue` | crates/best/src/exec.rs:1689-1694 | an integer at its own width only |
| `ExecMachine.OpMove` | crates/best/src/exec.rs:659-730 | buffer, indexed, float and integer targets |
| `ExecMachine.OpSwap` | crates/best/src/exec.rs:745-762 | reverses the slice, or records trap 0 |
| `ExecMachine.OpComp` | crates/best/src/exec.rs:792-801 | flags only |
| `ExecMachine.OpSubb` | crates/best/src/exec.rs:804-814 | difference and flags |
| `ExecMachine.OpAdds` | crates/best/src/exec.rs:825-840 | sum and flags, also through an index |
| `ExecMachine.OpMult` | crates/best/src/exec.rs:845-876 | both halves and Zero/Sign of the low one |
| `ExecMachine.OpDivs` | crates/best/src/exec.rs:882-915 | quotient and remainder |
| `ExecMachine.OpNot` | crates/best/src/exec.rs:937-944 | complement |
| `ExecMachine.Branch` | crates/best/src/exec.rs:1049-1064 | adds the signed displacement modulo 2^64 |
| `ExecMachine.OpPush` | crates/best/src/exec.rs:1160-1168 | byte by byte |
| `ExecMachine.OpPop` | crates/best/src/exec.rs:1175-1191 | byte by byte, then stores and sets Zero/Sign |
| `ExecMachine.OpAtsp` | crates/best/src/exec.rs:2213-2236 | folds the field from the top down |
| `ExecMachine.OpXsend` | crates/best/src/exec.rs:1221-1227 | surfaces request and destination |
| `ExecMachine.PeekWord` | crates/best/src/exec.rs:2227-2232 | Folding bytes from the top down gives the word they spell |
| `ExecMachine.OpShift` | crates/best/src/exec.rs:949-1038 | asr, lsr, lsl and asl |
| `ExecMachine.SubtractFlags` | crates/best/src/exec.rs:466-495 | Zero, Sign, Overflow from the negated second operand, and Carry, in the source's order |
| `ExecMachine.AdditionFlags` | crates/best/src/exec.rs:466-495 | Zero, Sign, Overflow and Carry of a sum |
| `ExecDataMachine.OpA2fix` | crates/best/src/exec.rs:1443-1457 | parses and clamps an integer |
| `ExecDataMachine.OpHex2y` | crates/best/src/exec.rs:1574-1580 | parses hex pairs, Carry on failure |
| `ExecDataMachine.OpYToText` | crates/best/src/exec.rs:1601-1610 | prints hex pairs, or BCD with * for bad digits |
| `ExecDataMachine.OpFix2` | crates/best/src/exec.rs:1656-1677 | prints hex or signed decimal at the source's width |
| `ExecDataMachine.OpScat` | crates/best/src/exec.rs:2025-2031 | appends |
| `ExecDataMachine.OpScut` | crates/best/src/exec.rs:2037-2047 | drops bytes from the end |
| `ExecDataMachine.OpSpaste` | crates/best/src/exec.rs:2071-2088 | inserts, or nothing past the end |
| `ExecDataMachine.OpSerase` | crates/best/src/exec.rs:2096-2113 | removes a span |
| `ExecDataMachine.FetchTarget` | crates/best/src/exec.rs:1736-1762 | base and start of an indexed target |
| `Interpreter.OpErg` | crates/best/src/exec.rs:1806-1880 | pushes the named result |
| `Interpreter.OpEnewset` | crates/best/src/exec.rs:1886-1891 | commits the current set only when it holds something |
| `Interpreter.SelectedTable` | crates/best/src/exec.rs:2179-2181 | the table under the cursor |
| `Interpreter.OpTabset` | crates/best/src/exec.rs:2249-2262 | selects a table, keeping the row on re-selection |
| `Interpreter.SeekResult` | crates/best/src/exec.rs:2316-2337 | moves the cursor and sets Zero |
| `Interpreter.OpTabseek` | crates/best/src/exec.rs:2274-2287 | first match by text or value |
| `Interpreter.OpTabline` | crates/best/src/exec.rs:2377-2391 | selects by number, clamped |
| `Interpreter.OpTabget` | crates/best/src/exec.rs:2349-2368 | the cell, empty before any row is selected |
| `Interpreter.FoldIncrement` | crates/best/src/exec.rs:613-628 | register plus increment becomes a to-end index |
| `Interpreter.Dispatch` | crates/best/src/exec.rs:243-408 | the handler of each opcode |
| `Interpreter.Step` | crates/best/src/exec.rs:243-408 | advances the counter, folds operands, dispatches |
| `Interpreter.ExecCtx.constructor` | crates/best/src/engine.rs:186-195 | A context with one empty result set and no table selected |
| `SessionLaws.ExactlyOneOutcome` | crates/client/src/session.rs:205-260 | Over every interleaving a registered request whose guard has not run either still owns its target's slot with no outcome sent, or has been sent exactly one, last; a waiting request with nothing to receive owns its slot, so its channel is never found closed |
| `SessionLaws.OutcomeIsTheOneSent` | crates/client/src/session.rs:246-260 | An answered request returned the one outcome it was sent, having received all it was sent; an ended request owns nothing |
| `SessionLaws.GenerationsAreUnique` | crates/client/src/session.rs:206 | Live generations are below the counter and no two slots share one |
| `SessionLaws.DropEvictsOnlyItsOwn` | crates/client/src/session.rs:98-106 | A dropped guard removes its own slot if it is still there and never a newer request's on the same target |
| `SessionLaws.DeliveriesAreExplained` | crates/client/src/session.rs:299-341 | Delivery by delivery and in order, what a request was sent came from distinct events at which it owned its slot: a frame from its own target with its positive response, a negative one echoing its service with a code other than 0x78, a 0x78 tick; or the reader's end |
| `SessionLaws.RoutingIsIsolated` | crates/client/src/session.rs:299-341 | Routing a frame from one ECU changes no other ECU's slot, channel or request |
| `SessionLaws.WaitsAreBounded` | crates/client/src/session.rs:246-260 | No interleaving makes a request wait more than eleven times |
| `SessionLaws.LateRequestsAreNeverAnswered` | crates/client/src/session.rs:157-163 | A request registered after the reader ended is sent nothing and can only end unsent, cancelled or timed out |
| `SessionLaws.ClosedMeansToldUnlessLate` | crates/client/src/session.rs:157-163 | Once the reader has ended, a request not yet gone has an outcome sent if and only if it registered before that |
| `SessionLaws.CloseTellsEveryWaiter` | crates/client/src/session.rs:157-163 | The reader's end sends a closing to exactly the requests that own a slot, and empties the table |
| `SessionLaws.LateRequestExists` | crates/client/src/session.rs:208-222 | A run in which a request registers after the reader's end and owns its slot |
| `SessionLaws.StepDelivers` | crates/client/src/session.rs:299-341 | A step sends a request at most one delivery, one it explains, and only while it owns its slot |
| `SessionLaws.FramesAreDelivered` | crates/client/src/session.rs:299-341 | Routing is complete: for a request that owns its slot, a frame 0x0001 from its target that starts with its service + 0x40 is sent as its answer, one of 0x7F, its service and a code as that failure, either freeing the slot, code 0x78 as a tick that keeps it, and every other frame changes nothing |
| `SessionLaws.TenTicksAreWaitedOut` | crates/client/src/session.rs:246-260 | Ten pending responses in time are waited out and the outcome after them returned; with an eleventh the request gives up |
| `SessionLaws.SilenceTimesOut` | crates/client/src/session.rs:246-260 | A channel silent for a whole timeout ends the wait, whatever ticks came before it |
| `SessionLaws.ReceiveByTurn` | crates/client/src/session.rs:248-256 | The same as a step: a receive takes the next delivery, ends on an outcome and stays for each of ten ticks |
| `SessionLaws.PhasesAllow` | crates/client/src/session.rs:205-260 | Which critical sections each phase of a request allows, exactly |
| `SessionLaws.StepsMove` | crates/client/src/session.rs:205-260 | Where each critical section leaves its request, and that only registering and cleanup touch the table |
| `SessionLaws.MintedAsks` | crates/client/src/session.rs:205-222 | A new request expects an answer to the first byte it sends, under a generation no request has had |
| `SessionLaws.SoundConnects` | crates/client/src/session.rs:68-85 | In a sound system every slot has a channel, so the routing step is always possible while the reader runs |
| `SessionLaws.StepIsSound` | crates/client/src/session.rs:205-341 | Every step of every kind keeps the system sound |
| `SessionLaws.RunIsSound` | crates/client/src/session.rs:205-341 | The system is sound after every run, whatever the interleaving |
| `Session.Session.constructor` | crates/client/src/session.rs:148-149 | An empty table with no generation handed out |
| `Session.Session.NextGeneration` | crates/client/src/session.rs:206-207 | Hands out the next generation with an empty channel |
| `Session.Session.Register` | crates/client/src/session.rs:208-222 | Takes the slot, or refuses because the target has one, changing nothing |
| `Session.Session.RouteReceived` | crates/client/src/session.rs:299-341 | In place: the specified table after routing the frame |
| `Session.Session.DropGuard` | crates/client/src/session.rs:98-107 | In place: evicts the slot only while it is this request's |
| `Session.Session.Drain` | crates/client/src/session.rs:157-163 | Draining slot by slot, in any order, tells every holder exactly once and empties the table |
| `Session.Await` | crates/client/src/session.rs:246-260 | The receive loop returns the first final outcome unless a whole timeout or eleven ticks pass first, and waits at most eleven timeouts |
| `ScanLaws.SweepTrace` | crates/client/src/scan.rs:175-209 | In every sweep all clears precede all resets; no clear without a successful pre-read and session entry on the same ECU right before it; the gateway is never reset, no ECU twice, none without an acknowledged clear, none unasked |
| `ScanLaws.SweepReports` | crates/client/src/scan.rs:175-209 | Reports match the addresses in order; a report carries a reset outcome if and only if reset was asked, its address is not the gateway and some report for it is error-free; it is true exactly for an acknowledged reset; the clear's own result is never overwritten |
| `ScanLaws.OutcomesAreHonest` | crates/client/src/scan.rs:191-207 | A reset outcome means this report's own clear succeeded, whatever the car does, if and only if no address but the gateway is listed twice |
| `ScanLaws.RepeatMisleads` | crates/client/src/scan.rs:191-207 | For every list repeating such an address there is a car whose failed report carries a reset outcome |
| `ScanLaws.OneClear` | crates/client/src/scan.rs:125-154 | One clear: guarded by its pre-read, recording what was stored, error-free only after an acknowledged clear, verified clean exactly when error-free with nothing relevant left |
| `ScanLaws.RelevantAre` | crates/client/src/scan.rs:140-150 | What is left after a clear is exactly the relevant codes of the second read, as often as they are there |
| `ScanLaws.RelevantInOrder` | crates/client/src/scan.rs:140-150 | And in their order |
| `ScanLaws.ResetTargetsAre` | crates/client/src/scan.rs:74-82 | The reset targets are exactly the listed addresses but the gateway, each once |
| `ScanLaws.ResetPass` | crates/client/src/scan.rs:191-207 | The pass sends only session entries and resets to its targets, no reset twice, and records outcomes exactly on its targets' reports |
| `Scan.DiagnosticClient.ClearFaultsVerified` | crates/client/src/scan.rs:125-154 | Step by step it fills the specified report and sends the specified requests |
| `Scan.DiagnosticClient.ComputeResetTargets` | crates/client/src/scan.rs:74-82 | The loop collects the specified targets |
| `Scan.DiagnosticClient.ClearFaultsAllWithReset` | crates/client/src/scan.rs:175-209 | Both loops leave the specified reports and trace |
| `Scan.DiagnosticClient.RequestInSession` | crates/client/src/client.rs:547-555 | Session entry first; the service only if it succeeded |
| `Hsfz.DecodeOfEncode` | crates/hsfz/src/frame.rs:119-160 | Decoding an encoded frame, whatever follows it, gives it back if and only if it is addressed exactly when its control word says so and its body is at most 65536 bytes |
| `Hsfz.WireFormat` | crates/hsfz/src/frame.rs:98-111 | On the wire: the body's length and the control word big-endian, then the two addresses, then the payload |
| `Hsfz.AddressedFrames` | crates/hsfz/src/frame.rs:92-95 | In numbers: control words 0x0001 and 0x0002 carry addresses, 0x0012 exactly with a body of two bytes, no other does, and a body has at most 65536 bytes |
| `Hsfz.DecodeFails` | crates/hsfz/src/frame.rs:119-160 | What does not decode: too few bytes for the header, the declared body or two addresses, or a length above 65536, each with its numbers |
| `Hsfz.EncodeOfDecode` | crates/hsfz/src/frame.rs:98-111 | A decoded frame is well-formed and encodes to exactly the first 6 + LENGTH bytes it was read from |
| `Hsfz.ReadAllOfWire` | crates/hsfz/src/frame.rs:179-200 | Repeated reads over encoded frames return exactly those frames and go on with what follows |
| `Hsfz.WholeWireIsConsumed` | crates/hsfz/src/frame.rs:179-200 | On a stream that ends with its last frame every byte is consumed |
| `Hsfz.ReadAllIsExact` | crates/hsfz/src/frame.rs:179-200 | On any stream the frames read are well-formed, their encodings are exactly the bytes consumed, and reading stopped where no further frame stands |
| `Hsfz.TimeoutsOnlyCutShort` | crates/hsfz/src/frame.rs:222-234 | However slow the bytes come, the frames read are a prefix of those on the stream, and all of them when no read is late |
| `Hsfz.TimedRead` | crates/hsfz/src/frame.rs:179-200 | A read is reported late if and only if one of its two reads, of 4 and of 2 + length bytes, is; one in time is the untimed one |
| `Hsfz.BuildFrame` | crates/hsfz/src/frame.rs:98-111 | The frame grown body first is the specified encoding |
| `Hsfz.FrameReader.ReadExact` | crates/hsfz/src/frame.rs:222-234 | Takes exactly the bytes asked for, or reports a timeout or the end of the stream |
| `Hsfz.FrameReader.Read` | crates/hsfz/src/frame.rs:179-200 | Reads the specified frame under the timeout and stands right after it |
| `Hsfz.FrameReader.Drain` | crates/client/src/session.rs:153-156 | The reader's loop collects every frame until a read fails or is late |

## Left out

- Float arithmetic, comparison, parsing and formatting: any functions on 64-bit patterns (`ExecBase.FloatUnit`); IEEE-754 rounding is library behaviour, so what holds only of a faithful unit is stated under that condition.
- `.prg` container parsing: jobs and tables are given values; the decryption of its strings is not modelled.
- Opcode mnemonics and instruction classes: only which bytes decode matters to the decoder.
- The texts of error messages: errors keep their kind and the values callers act on.
- The machine after a failed instruction: the source drops it with the run.
- Hand-built instructions with negative immediates: the decoder makes none, so immediates and machine integers are 32-bit words.
- The call stack field, which no opcode uses, and the size caps of the string opcodes, which the source does not enforce either.
- Payloads beyond 65535 bytes in a debug build, where the source asserts; the release build's wrapping length is modelled.
- The 2^64 wrap-around of the generation counter and of the byte stack's length.
- Sockets, UDP discovery, the keepalive sender, the idle cap of the reader, and the timing of `wait`: time enters only as a timeout event, in `Session.Await` and as the late reads of `Hsfz.FrameReader`.
- Reader abort and mutex poisoning when a session is dropped while the process panics.
- The UDS message builders and decoders: relevance of a DTC is a given predicate, a read's answer a given list.
- The read-only concurrent fault scan, the CLI, the MCP server, learned profiles and document building: presentation and plumbing.
- Result sets as a shared buffer: each set is a sequence value inside the class that grows it, so aliasing between sets is not expressible.
- The S buffers as growable byte vectors: each is a sequence value in an array element, replaced as a whole where the source edits a slice of it.
