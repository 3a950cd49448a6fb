# LC-3 virtual machine core in Dafny

This project models the core of a small LC-3 virtual machine written in C
(`lc.c`), together with its binary-literal helper (`binlit.c`), and proves
properties of the model.

The machine has ten 16-bit registers: R0-R7, the program counter PC and the
condition register COND. It has one memory cell per 16-bit address. Two
addresses are mapped to the keyboard: KBSR, the status register at 0xFE00,
and KBDR, the data register at 0xFE02. Reading KBSR polls the keyboard.

The loader reads an image file: a big-endian origin word, then big-endian
words, which are stored from the origin on and byte-swapped in place. The run
loop sets PC to 0x3000 and repeats fetch and execute. Only three opcodes
have handlers: ADD, AND and LD. Any other opcode, HALT (TRAP) included,
stops the machine.

Files:

- `words.dfy` (module `Words`): the 16-bit word as `bv16`, so arithmetic
  wraps at 2^16 as the C stores into `uint16_t` do. It also holds
  `sign_extend`, `swap16` and the instruction fields.
- `binlit.dfy` (module `BinLit`): `word_from_string`, as a method with its
  two loops over a `clean` array. It is proved against specification
  functions (`Kept`, `BitsValue`), and the header's documented examples are
  proved as lemmas.
- `machine.dfy` (module `Machine`): the machine as values. It holds a
  `State` snapshot of registers and memory, and one function per operation:
  `update_flags`, `mem_read`, `op_add`, `op_and`, LD, `process_instruction`,
  `fetch_next_instr`, the run loop and the loader. Lemmas state what each
  operation does.
- `vm.dfy` (module `Vm`): the machine as the C code keeps it. Class `VM`
  holds a memory array and a register array, changed in place. Each method
  is proved to leave the arrays exactly as the matching `Machine` function
  says.
- `tests.dfy` (module `UnitTests`): the repository's tests as lemmas. These
  are the unit tests in `lc.c` and the register checks of `tests.rb` after
  running small assembled programs.

Outside effects become parameters:

- The keyboard: `check_key` and `getchar` are one `KeyPoll(pending, key)`
  per step, taken from a sequence indexed by the step number.
- The image file: its bytes, as `seq<Byte>`.
- The register dump: `print_registers` becomes R0-R7 returned by `RunVm`.

The run loop cannot be proved to end, so it takes a bound, `fuel`.

Two details of the code concern the last address, 0xFFFF:

- The loader reads at most `UINT16_MAX - origin` words, so it never fills
  address 0xFFFF. The model keeps that bound.
- The LC-3 has one memory cell per 16-bit address, 65536 in all, but the
  code declares the array with `UINT16_MAX` (0xFFFF) cells. This is a bug
  (see Findings). The declared size is modelled as written, a corrected
  model is proved beside it, and the rest of the model uses 65536 cells.

## Model

| member | source | states |
|---|---|---|
| Words.ToSigned | lc.c:94 | the two's complement value lies in [-0x8000, 0x8000), and it is negative exactly when bit 15 is set, which is the test `update_flags` makes |
| Words.SignExtend | lc.c:101-106 | definition; its meaning is stated by `SignExtendKeepsLowBits`, `SignExtendNonNegative`, `SignExtendNegative`, `Imm5Value` and `PcOffset9Value` |
| Words.SignExtendKeepsLowBits | lc.c:101-106 | `sign_extend(x, n)` never changes the low n bits of x |
| Words.SignExtendNonNegative | lc.c:101-106 | when bit n-1 is clear, `sign_extend` returns x unchanged |
| Words.SignExtendNegative | lc.c:101-106 | when bit n-1 is set, every bit from n up is set (`x \| 0xFFFF << n`, truncated to 16 bits) |
| Words.Swap16 | lc.c:156-158 | the result's high byte is x's low byte, and its low byte is x's high byte |
| Words.Swap16Involution | lc.c:156-158 | swapping twice gives the word back |
| Words.Opcode | lc.c:213 | the opcode is below 16 and is exactly bits 15:12 of the instruction |
| Words.Dr | lc.c:183 | DR names one of R0-R7, and shifted back into place it is exactly bits 11:9 of the instruction |
| Words.Sr1 | lc.c:184 | SR1 names one of R0-R7, and shifted back into place it is exactly bits 8:6 of the instruction |
| Words.Sr2 | lc.c:190 | SR2 names one of R0-R7 and is exactly bits 2:0 of the instruction |
| Words.ImmFlag | lc.c:185 | the immediate mode is chosen exactly when bit 5 is set |
| Words.Imm5 | lc.c:187 | definition; its meaning is stated by `Imm5Value` |
| Words.Imm5Value | lc.c:187 | the sign-extended imm5 is 0..15 for fields 0..15, and field - 32 (-16..-1) for fields 16..31 |
| Words.PcOffset9 | lc.c:220 | definition; its meaning is stated by `PcOffset9Value` |
| Words.PcOffset9Value | lc.c:220 | the sign-extended 9-bit LD offset is field, or field - 512, as bit 8 says |
| Words.PayloadFields | lc.c:214-217 | masking an instruction to its low 12 bits (the payload handed to `op_add` and `op_and`) keeps DR, SR1, SR2, the mode bit and imm5 |
| Words.DecodeEncodeOperate | lc.c:281-282 | an ADD/AND word assembled from fields (opcode, DR, SR1, mode, low five bits) decodes back to each field |
| Words.EncodeDecodeOperate | lc.c:183-190 | every word is the assembly of its own opcode, DR, SR1, mode bit and low five bits, so with `DecodeEncodeOperate` decoding loses nothing |
| Words.Plus | lc.c:188-191 | definition (bit-vector addition, which drops the carry out of bit 15); its meaning is stated by `AddSemantics` and the wrap by `UnitTests.WrapAroundExamples` |
| Words.BitAnd | lc.c:202-205 | definition; its meaning is stated by `AndSemantics` |
| BinLit.CLength | binlit.c:12 | the scan stops at the first NUL: no NUL before it, and a NUL at it unless the buffer ends |
| BinLit.Digits | binlit.c:12-19 | definition; its meaning is stated by `DigitsAppend`, `IgnoresOtherCharacters` and `DigitsCount` |
| BinLit.Kept | binlit.c:12-19 | definition (the digits before the first NUL); its meaning is stated by `ScanDigits` and `LiteralValue` |
| BinLit.BitsValue | binlit.c:23-25 | definition (digit i weighs 2^(n-1-i)); its meaning is stated by `BitsValueBound`, `BitsValueAppend` and `HornerAgrees` |
| BinLit.DigitsAppend | binlit.c:12-19 | the digits kept from a concatenation are those of each part, in order |
| BinLit.IgnoresOtherCharacters | binlit.c:13-19 | inserting any character other than '0' or '1' anywhere keeps the same digits |
| BinLit.DigitsCount | binlit.c:14-18 | the digits kept are exactly as many as the '0' and '1' characters |
| BinLit.BitsValueBound | binlit.c:23-25 | n binary digits are worth less than 2^n, so 16 digits fit in a `uint16_t` |
| BinLit.BitsValueAppend | binlit.c:23-25 | reading a + b as a binary number shifts a's value left by \|b\| bits and adds b's |
| BinLit.HornerAgrees | binlit.c:23-25 | the positional reading (digit i weighs 2^(n-1-i), as the loop sums) equals Horner's rule over the characters, where each digit doubles the value and adds itself |
| BinLit.LiteralValue | binlit.c:6-27 | for a string without NUL, the number of digits kept and their value are the character-by-character count and Horner value |
| BinLit.ScanDigits | binlit.c:12-19 | the first loop fills `clean` with exactly the digits before the NUL, in order (true for '1') |
| BinLit.WordFromString | binlit.c:6-27 | with exactly 16 digits, the result is the binary number they spell, most significant first, and it is below 2^16 |
| BinLit.FourGroups | binlit.h:3-11 | four groups of four digits, each followed by text without digits, read as four hex digits |
| BinLit.DocumentedExample | binlit.h:10-11 | `"0000 0000 0000 1001"` reads as 0x9 |
| BinLit.CommentedExample | binlit.h:16-20 | the commented literal, four adjacent C string literals, also reads as 0x9 |
| BinLit.AddImmediateLiteral | lc.c:281-282 | the test literal `"0001 000 000 1 00001"` is the word 0x1021 |
| Machine.CondForSign | lc.c:91-99 | the code `update_flags` stores is ZERO exactly for 0, NEG exactly for the negative values and POS exactly for the positive ones, both directions |
| Machine.CondFor | lc.c:91-99 | definition; its meaning is stated by `CondForSign` |
| Machine.SetCond | lc.c:91-99 | definition; its meaning is stated by `OperateResult` and `LdSemantics` |
| Machine.SetReg | lc.c:188-193 | definition (write DR, then `update_flags`); its meaning is stated by `OperateResult` |
| Machine.AfterRead | lc.c:121-129 | definition; its meaning is stated by `ReadSemantics` |
| Machine.ReadValue | lc.c:130 | definition; its meaning is stated by `ReadSemantics` and `ReadAfterWrite` |
| Machine.Operand | lc.c:185-191 | definition; its meaning is stated by `AddSemantics` and `AndSemantics` |
| Machine.Add | lc.c:182-194 | definition; its meaning is stated by `AddSemantics` |
| Machine.And | lc.c:196-208 | definition; its meaning is stated by `AndSemantics` |
| Machine.LdAddress | lc.c:221 | definition; its meaning is stated by `LdSemantics` and the wrap by `UnitTests.WrapAroundExamples` |
| Machine.LoadInto | lc.c:221-222 | definition; its meaning is stated by `LdSemantics` |
| Machine.Ld | lc.c:218-223 | definition; its meaning is stated by `LdSemantics` |
| Machine.Execute | lc.c:210-232 | `process_instruction` keeps a well-formed state; its meaning per opcode is stated by the lemmas below |
| Machine.OperateResult | lc.c:182-208 | ADD/AND leave SR1 + operand (or SR1 & operand) in DR and its code in COND, and every other register as it was |
| Machine.AddSemantics | lc.c:182-194 | ADD keeps running, stores SR1 plus the operand (imm5 or SR2) modulo 2^16 in DR, sets COND from DR, and changes no other register and no memory |
| Machine.AndSemantics | lc.c:196-208 | AND keeps running, stores SR1 AND the operand in DR, sets COND from DR, and changes nothing else |
| Machine.LdSemantics | lc.c:218-223 | LD keeps running and loads DR with what a read at PC + offset9 (wrapping) returns; memory changes only as that read changes it, COND comes from DR, and nothing else changes |
| Machine.UnimplementedOpcodeStops | lc.c:225-229 | every opcode other than ADD, AND and LD returns STOP and changes nothing |
| Machine.ImplementedOpcodesRun | lc.c:215-224 | ADD, AND and LD return RUNNING and never write PC |
| Machine.ReadSemantics | lc.c:121-131 | a read of any address except KBSR returns the cell and changes nothing. A KBSR read with a key waiting stores 0x8000 in KBSR and the key in KBDR and returns 0x8000. A KBSR read with no key stores and returns 0. No other cell ever changes |
| Machine.ReadAfterWrite | lc.c:117-131 | after `mem_write(a, v)`, reading a returns v and changes nothing, unless a is KBSR |
| Machine.FetchSemantics | lc.c:170-172 | `fetch_next_instr` returns the word at the old PC, increments PC modulo 2^16 and changes no other register |
| Machine.StepAwayFromKbsr | lc.c:247-250 | a loop turn with PC away from KBSR executes the word at PC with PC already advanced, on unchanged memory |
| Machine.FetchFromKbsrStops | lc.c:247-250 | an instruction fetched from KBSR (0x8000 or 0) has no handler, so the keyboard is polled at most once per turn |
| Machine.Fetch | lc.c:170-172 | the fetch keeps a well-formed state (its meaning is in `FetchSemantics`) |
| Machine.Step | lc.c:247-250 | one loop turn keeps a well-formed state |
| Machine.RunWith | lc.c:246-250 | the loop, with the step as a parameter, keeps a well-formed state |
| Machine.RunFrom | lc.c:246-250 | the machine's own loop keeps a well-formed state |
| Machine.Run | lc.c:242-250 | the run from a loaded state keeps a well-formed state |
| Machine.Boot | lc.c:243-244 | definition; its meaning is stated by `RunStartsAtPcStart` |
| Machine.RunMoreFuel | lc.c:247-250 | once a step returns STOP the loop is over: more fuel gives the same outcome |
| Machine.RunSteps | lc.c:247-250 | a run stops after at least one and at most `fuel` steps, and one still running has taken exactly `fuel` |
| Machine.RunBounded | lc.c:246-250 | for the machine's step, the run takes at most `fuel` steps, and a stopped run has the same outcome under any larger bound |
| Machine.RunStartsAtPcStart | lc.c:243-249 | whatever PC held, the first instruction run is the word at 0x3000, executed with PC = 0x3001 |
| Machine.HostWord | lc.c:135-140 | definition (the second byte is the high byte on a little-endian host); its meaning is stated by `SwapHostWord` |
| Machine.BigEndian | lc.c:133-136 | the first byte of an image word is its high byte |
| Machine.SwapHostWord | lc.c:135-136 | byte-swapping a little-endian host read recovers the image's big-endian word |
| Machine.HostWords | lc.c:140 | `fread` stores one word per two bytes of the rest of the file |
| Machine.LoadCount | lc.c:138-140 | the loader reads all the words there are, or stops at address 0xFFFE (`UINT16_MAX - origin` words) |
| Machine.Loaded | lc.c:133-146 | the memory after loading has one cell per address |
| Machine.LoadImageFile | lc.c:133-146 | the k-th big-endian word of the file lands at origin + k, for as many words as fit, and every other cell keeps its value |
| Machine.ZeroState | lc.c:271-277 | every register and every cell is zero |
| Machine.RunImage | lc.c:234-250 | loading then running keeps a well-formed state |
| Machine.DeclaredRead | lc.c:62-65 | with the array's declared 0xFFFF cells, a read is undefined exactly at address 0xFFFF |
| Machine.DeclaredMemoryMissesLastAddress | lc.c:62-65 | the declared array has no cell for address 0xFFFF. The fetch after PC 0xFFFE reaches it, and so does `LD R0, #-2` (0x21FE) at 0x0000 |
| Machine.EveryAddressReadable | lc.c:62-65 | with one cell per address every read is defined. Below 0xFFFF it returns what the declared array returns, at 0xFFFF it returns that cell, and the fetch at PC = 0xFFFF reads that cell and wraps PC to 0 |
| UnitTests.SignExtendExamples | lc.c:260-269 | `sign_extend` maps 00000 to 0, 11111 to 0xFFFF (-1) and 01111 to 15 |
| UnitTests.AddImmediateTest | lc.c:279-287 | `word_from_string("0001 000 000 1 00001")` is ADD R0, R0, #1, and executing it on zeroed storage leaves 1 in R0 and POS in COND |
| UnitTests.AddMaxImmediateTest | lc.c:289-297 | ADD R0, R0, #15 on zeroed storage leaves 0xF in R0 |
| UnitTests.AddNegativeImmediateTest | lc.c:299-307 | ADD R0, R0, #-1 on zeroed storage leaves 0xFFFF in R0 and NEG in COND |
| UnitTests.AddRegisterTest | lc.c:309-319 | ADD R0, R1, R2 with R1 = 1 and R2 = 2 leaves 3 in R0 |
| UnitTests.AndImmediateTest | lc.c:321-330 | AND R0, R1, #15 with R1 = 9 leaves 9 in R0 |
| UnitTests.AndRegisterTest | lc.c:332-342 | AND R0, R1, R2 with R1 = 1 and R2 = 3 leaves 1 in R0 |
| UnitTests.WrapAroundExamples | lc.c:186-221 | ADD R0, R0, #1 with R0 = 0xFFFF leaves 0 in R0 and ZERO in COND; LD with offset #1 at PC = 0xFFFF reads address 0 |
| UnitTests.AndZeroProgram | tests.rb:62-71 | the image of `AND R5, R5, 0; HALT` at x3000 stops after 2 steps with R5 = 0 |
| UnitTests.AddOneProgram | tests.rb:73-83 | `AND R5, R5, 0; ADD R5, R5, 1; HALT` stops after 3 steps with R5 = 1 |
| UnitTests.AddTwoProgram | tests.rb:85-96 | adding one twice stops after 4 steps with R5 = 2 |
| UnitTests.LdProgram | tests.rb:98-108 | `LD R5, LETTER_A; HALT; LETTER_A: .FILL 65` stops after 2 steps with R5 = 0x41 |
| Vm.VM.constructor | lc.c:271-277 | fresh storage whose registers and cells are all zero |
| Vm.VM.UpdateFlags | lc.c:91-99 | COND becomes the code for register r, and no other register changes |
| Vm.VM.MemWrite | lc.c:117-119 | exactly the cell at the address becomes the value, with no keyboard effect |
| Vm.VM.MemRead | lc.c:121-131 | the value returned and the new memory are those of the read, KBSR poll included |
| Vm.VM.FetchNextInstr | lc.c:170-172 | the arrays and the instruction are those of the fetch: the word at the old PC, and PC + 1 |
| Vm.VM.ExecAdd | lc.c:182-194 | the register array becomes exactly what ADD specifies |
| Vm.VM.ExecAnd | lc.c:196-208 | the register array becomes exactly what AND specifies |
| Vm.VM.ProcessInstruction | lc.c:210-232 | the arrays and the returned run state are those `Execute` gives, for every opcode |
| Vm.VM.ReadImageFile | lc.c:133-146 | the memory becomes `Loaded`: the words stored by `fread`, then byte-swapped in place |
| Vm.VM.Run | lc.c:242-250 | PC := 0x3000, then the loop; the final arrays, run state and step count are those of `Machine.Run` |
| Vm.RunVm | lc.c:234-253 | zeroed storage, image loaded, run: registers R0-R7, run state and step count are those of `RunImage` |

## Left out

- Keyboard: `check_key` (`select` on standard input) and `getchar` are not modelled. Each step receives a `KeyPoll` instead. An EOF from `getchar` is just another key word.
- File handling: `read_image`'s `fopen`/`fclose`, the failure message and `exit(1)`, and `main`'s argument handling are left out. The loader receives the file's bytes.
- Output: the "got other, stopping" message and `print_registers`' text are left out. `RunVm` returns R0-R7.
- Vm.RunVm: `run_vm` allocates `malloc(sizeof(vm))`, the size of a pointer, and never clears it. The unit tests use `calloc(sizeof(vm), 0)`, zero bytes. The model gives the machine full-sized, zeroed storage, and `RunImage` takes the initial state as a parameter. Allocation sizes and uninitialised storage are not modelled.
- Machine.Run: the C loop has no bound. The model stops after `fuel` steps. `RunBounded` and `RunMoreFuel` show that the outcome of a run that stops does not depend on the bound.
- Vm.VM.ReadImageFile: requires the two origin bytes. For a shorter file the C code swaps an uninitialised `origin`. A trailing odd byte, which `fread` may partly store, is dropped. The host is taken to be little-endian.
- BinLit.WordFromString: requires exactly 16 digits before the NUL, the condition the source asserts. With more, the C code writes past `clean[16]`, and with fewer it fails the assertion. Neither is modelled. The result is returned as a `nat` proved to be below 2^16.
- Words.SignExtend: the C shift `0xFFFF << bit_count` is an `int` shift truncated on the store. The model uses the 16-bit shift, which agrees for the widths used (5 and 9). Only those widths have value lemmas (`Imm5Value`, `PcOffset9Value`).
- Words.Plus: the wrap-around of ADD and of PC arithmetic is `bv16` addition. No lemma restates it for all inputs as a sum of integers modulo 2^16; `UnitTests.WrapAroundExamples` and `EveryAddressReadable` show the carry out of bit 15 being dropped on concrete words.
- UnitTests.AddMaxImmediateTest: only the first unit test's literal is proved to be the instruction word through `word_from_string` (`AddImmediateLiteral`). The other five tests are stated on the word built by `EncodeOperate` from the same fields, and `DecodeEncodeOperate` shows that the layout is right.
- UnitTests.AddNegativeImmediateTest: stated on the word `EncodeOperate` builds from the literal's fields, not on `word_from_string` of the literal.
- UnitTests.AddRegisterTest: stated on the word `EncodeOperate` builds from the literal's fields, not on `word_from_string` of the literal.
- UnitTests.AndImmediateTest: stated on the word `EncodeOperate` builds from the literal's fields, not on `word_from_string` of the literal.
- UnitTests.AndRegisterTest: stated on the word `EncodeOperate` builds from the literal's fields, not on `word_from_string` of the literal.
- The `tests.rb` XOR program (tests.rb:110-132) is not modelled. It uses NOT, which this machine has no handler for, so the machine stops at the first NOT. It also has no `.ORIG`.
- Opcodes other than ADD, AND and LD have no semantics here because the source has none: they stop the machine (`UnimplementedOpcodeStops`).

## Findings

| source | as written | input that shows it | evidently intended | confidence | as-written member | corrected member |
|---|---|---|---|---|---|---|
| lc.c:63 | `word memory[UINT16_MAX]` declares 0xFFFF cells, indices 0..0xFFFE, but addresses are 16-bit, so `mem_read`/`mem_write` can index 0xFFFF, one past the end | PC = 0xFFFE: the fetch leaves PC = 0xFFFF and the next fetch reads `memory[0xFFFF]`. Or `LD R0, #-2` (0x21FE) at 0x0000 reads address 0xFFFF | one cell per address: 65536 (`1 << 16`) cells | not executed | Machine.DeclaredMemoryMissesLastAddress | Machine.EveryAddressReadable |
