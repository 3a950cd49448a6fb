/** The LC-3 virtual machine's state and the meaning of each step, as pure
    functions over a snapshot of the register file and the memory. The class
    in vm.dfy changes its arrays in place and is proved to follow these
    functions; the properties of the machine are stated here, as lemmas. */
module Machine {
  import opened Words

  /** R0-R7, then PC and COND. */
  const RegCount := 10
  const PC := 8
  const COND := 9

  /** Every 16-bit address names a cell. */
  const MemorySize := 0x1_0000

  /** Memory-mapped keyboard status and data registers. */
  const KBSR: Word := 0xFE00
  const KBDR: Word := 0xFE02

  /** Condition codes: exactly one is stored in COND. */
  const FlagPos: Word := 1
  const FlagZero: Word := 2
  const FlagNeg: Word := 4

  /** Where execution starts, whatever the image's origin. */
  const PcStart: Word := 0x3000

  /** The opcodes with a handler; every other opcode stops the machine. */
  const OpAdd: Word := 1
  const OpLd: Word := 2
  const OpAnd: Word := 5

  datatype ExecState = Stop | Running

  /** What `check_key` and `getchar` answer when the keyboard is polled:
      whether a character is waiting, and the character (stored as a word). */
  datatype KeyPoll = KeyPoll(pending: bool, key: Word)

  const NoKey := KeyPoll(false, 0)

  /** A snapshot of the machine: the register file and the memory. */
  datatype State = State(reg: seq<Word>, mem: seq<Word>) {
    predicate Valid()
    {
      |reg| == RegCount && |mem| == MemorySize
    }
  }

  /** The condition code for a value just written to a register: ZERO for 0,
      NEG when its two's complement value is negative, POS otherwise. */
  function CondFor(v: Word): Word
  {
    if v == 0 then FlagZero else if v >> 15 != 0 then FlagNeg else FlagPos
  }

  /** The code is ZERO exactly for 0, NEG exactly for the values that are
      negative in two's complement, and POS exactly for the positive ones. */
  lemma CondForSign(v: Word)
    ensures CondFor(v) == FlagZero <==> v == 0
    ensures CondFor(v) == FlagNeg <==> ToSigned(v) < 0
    ensures CondFor(v) == FlagPos <==> ToSigned(v) > 0
  {
  }

  /** `update_flags`: COND is overwritten with the code for register r. */
  function SetCond(reg: seq<Word>, r: nat): seq<Word>
    requires |reg| == RegCount && r < RegCount
  {
    reg[COND := CondFor(reg[r])]
  }

  /** A handler's result: v written to register r, then the flags from r. */
  function SetReg(reg: seq<Word>, r: nat, v: Word): seq<Word>
    requires |reg| == RegCount && r < RegCount
  {
    SetCond(reg[r := v], r)
  }

  /** The memory after `mem_read(address)`: only a read of KBSR changes it,
      by polling the keyboard. */
  function AfterRead(mem: seq<Word>, address: Word, kb: KeyPoll): seq<Word>
    requires |mem| == MemorySize
  {
    if address != KBSR then mem
    else if kb.pending then mem[KBSR as int := 0x8000][KBDR as int := kb.key]
    else mem[KBSR as int := 0]
  }

  /** The value `mem_read(address)` returns: the cell after the poll. */
  function ReadValue(mem: seq<Word>, address: Word, kb: KeyPoll): Word
    requires |mem| == MemorySize
  {
    AfterRead(mem, address, kb)[address as int]
  }

  /** The second operand of ADD and AND: the sign-extended imm5 in immediate
      mode, register SR2 otherwise. */
  function Operand(reg: seq<Word>, instr: Word): Word
    requires |reg| == RegCount
  {
    if ImmFlag(instr) then Imm5(instr) else reg[Sr2(instr)]
  }

  /** `op_add`: DR := SR1 + operand (wrapping), then the flags from DR. */
  function Add(reg: seq<Word>, payload: Word): seq<Word>
    requires |reg| == RegCount
  {
    SetReg(reg, Dr(payload), Plus(reg[Sr1(payload)], Operand(reg, payload)))
  }

  /** `op_and`: DR := SR1 & operand, then the flags from DR. */
  function And(reg: seq<Word>, payload: Word): seq<Word>
    requires |reg| == RegCount
  {
    SetReg(reg, Dr(payload), BitAnd(reg[Sr1(payload)], Operand(reg, payload)))
  }

  /** The address LD reads: the (already incremented) PC plus the
      sign-extended 9-bit offset, wrapping at 2^16. */
  function LdAddress(pc: Word, offset: Word): Word
  {
    pc + offset
  }

  /** LD's effect once its address is known: DR receives what the read
      returns, then the flags are set from DR. */
  function LoadInto(s: State, dr: nat, address: Word, kb: KeyPoll): State
    requires s.Valid() && dr < RegCount
  {
    State(SetReg(s.reg, dr, ReadValue(s.mem, address, kb)), AfterRead(s.mem, address, kb))
  }

  /** The LD case of `process_instruction`. */
  function Ld(s: State, instr: Word, kb: KeyPoll): State
    requires s.Valid()
  {
    LoadInto(s, Dr(instr), LdAddress(s.reg[PC], PcOffset9(instr)), kb)
  }

  /** `process_instruction`: dispatch on the top four bits. */
  function Execute(s: State, instr: Word, kb: KeyPoll): (r: (State, ExecState))
    requires s.Valid()
    ensures r.0.Valid()
  {
    var op := Opcode(instr);
    var payload := instr & 0xFFF;
    if op == OpAdd then (s.(reg := Add(s.reg, payload)), Running)
    else if op == OpAnd then (s.(reg := And(s.reg, payload)), Running)
    else if op == OpLd then (Ld(s, instr, kb), Running)
    else (s, Stop)
  }

  /** `fetch_next_instr`: read the word at PC, then PC := PC + 1 (wrapping). */
  function Fetch(s: State, kb: KeyPoll): (r: (State, Word))
    requires s.Valid()
    ensures r.0.Valid()
  {
    var pc := s.reg[PC];
    (State(s.reg[PC := pc + 1], AfterRead(s.mem, pc, kb)), ReadValue(s.mem, pc, kb))
  }

  /** One turn of the run loop: fetch, then execute. */
  function Step(s: State, kb: KeyPoll): (r: (State, ExecState))
    requires s.Valid()
    ensures r.0.Valid()
  {
    var (s', instr) := Fetch(s, kb);
    Execute(s', instr, kb)
  }

  /** The keyboard as seen by step i: `keyboard[i]`, and no key once the
      recorded answers run out. */
  function KeyAt(keyboard: seq<KeyPoll>, i: nat): KeyPoll
  {
    if i < |keyboard| then keyboard[i] else NoKey
  }

  /** Where a bounded run ends: the state, whether it stopped, and how many
      steps it took in all. */
  datatype Outcome = Outcome(state: State, exec: ExecState, steps: nat)

  /** A step function for the run loop: defined on every valid state and
      keeping it valid. */
  ghost predicate Stepper(step: (State, KeyPoll) --> (State, ExecState))
  {
    forall s: State, kb: KeyPoll {:trigger step.requires(s, kb)} :: s.Valid() ==> step.requires(s, kb) && step(s, kb).0.Valid()
  }

  /** The run loop with the step as a parameter: at most `fuel` steps from s,
      the next being step number i, stopping after the first step that
      returns Stop. */
  function RunWith(step: (State, KeyPoll) --> (State, ExecState), s: State, keyboard: seq<KeyPoll>, i: nat, fuel: nat): (o: Outcome)
    requires Stepper(step) && s.Valid()
    ensures o.state.Valid()
    decreases fuel
  {
    if fuel == 0 then Outcome(s, Running, i)
    else
      var r := step(s, KeyAt(keyboard, i));
      if r.1 == Stop then Outcome(r.0, Stop, i + 1)
      else RunWith(step, r.0, keyboard, i + 1, fuel - 1)
  }

  /** `Step` is a step function. */
  lemma StepIsStepper()
    ensures Stepper(Step)
  {
  }

  /** At most `fuel` steps of the machine from s, the next being step number i. */
  function RunFrom(s: State, keyboard: seq<KeyPoll>, i: nat, fuel: nat): (o: Outcome)
    requires s.Valid()
    ensures o.state.Valid()
  {
    StepIsStepper();
    RunWith(Step, s, keyboard, i, fuel)
  }

  /** The state the run loop starts from: PC set to 0x3000. */
  function Boot(s: State): State
    requires s.Valid()
  {
    s.(reg := s.reg[PC := PcStart])
  }

  /** `run_vm` after loading, cut off after `fuel` steps. */
  function Run(s: State, keyboard: seq<KeyPoll>, fuel: nat): (o: Outcome)
    requires s.Valid()
    ensures o.state.Valid()
  {
    RunFrom(Boot(s), keyboard, 0, fuel)
  }

  /** The registers `op_add` and `op_and` leave: DR holds the result, COND
      its code, and every other register is as it was. */
  lemma OperateResult(reg: seq<Word>, payload: Word, isAdd: bool)
    requires |reg| == RegCount
    ensures var dr := Dr(payload);
      var r := if isAdd then Add(reg, payload) else And(reg, payload);
      var a := reg[Sr1(payload)];
      var b := Operand(reg, payload);
      |r| == RegCount &&
      r[dr] == (if isAdd then Plus(a, b) else BitAnd(a, b)) &&
      r[COND] == CondFor(r[dr]) &&
      forall i :: 0 <= i < RegCount && i != dr && i != COND ==> r[i] == reg[i]
  {
  }

  /** ADD: DR receives SR1 plus the operand modulo 2^16, COND is the code of
      the new DR, and no other register and no memory cell changes. */
  lemma AddSemantics(s: State, instr: Word, kb: KeyPoll)
    requires s.Valid() && Opcode(instr) == OpAdd
    ensures var (t, st) := Execute(s, instr, kb);
      st == Running && t.mem == s.mem &&
      t.reg[Dr(instr)] == Plus(s.reg[Sr1(instr)], Operand(s.reg, instr)) &&
      t.reg[COND] == CondFor(t.reg[Dr(instr)]) &&
      forall i :: 0 <= i < RegCount && i != Dr(instr) && i != COND ==> t.reg[i] == s.reg[i]
  {
    var p := instr & 0xFFF;
    PayloadFields(instr);
    assert Operand(s.reg, p) == Operand(s.reg, instr);
    OperateResult(s.reg, p, true);
  }

  /** AND: DR receives the bitwise AND of SR1 and the operand, COND is the
      code of the new DR, and nothing else changes. */
  lemma AndSemantics(s: State, instr: Word, kb: KeyPoll)
    requires s.Valid() && Opcode(instr) == OpAnd
    ensures var (t, st) := Execute(s, instr, kb);
      st == Running && t.mem == s.mem &&
      t.reg[Dr(instr)] == BitAnd(s.reg[Sr1(instr)], Operand(s.reg, instr)) &&
      t.reg[COND] == CondFor(t.reg[Dr(instr)]) &&
      forall i :: 0 <= i < RegCount && i != Dr(instr) && i != COND ==> t.reg[i] == s.reg[i]
  {
    var p := instr & 0xFFF;
    PayloadFields(instr);
    assert Operand(s.reg, p) == Operand(s.reg, instr);
    OperateResult(s.reg, p, false);
  }

  /** LD: DR receives what a memory read at PC + offset returns, memory
      changes only as that read changes it, COND is the code of the new DR,
      and no other register changes. */
  lemma LdSemantics(s: State, instr: Word, kb: KeyPoll)
    requires s.Valid() && Opcode(instr) == OpLd
    ensures var (t, st) := Execute(s, instr, kb);
      var address := LdAddress(s.reg[PC], PcOffset9(instr));
      st == Running &&
      t.mem == AfterRead(s.mem, address, kb) &&
      t.reg[Dr(instr)] == ReadValue(s.mem, address, kb) &&
      t.reg[COND] == CondFor(t.reg[Dr(instr)]) &&
      forall i :: 0 <= i < RegCount && i != Dr(instr) && i != COND ==> t.reg[i] == s.reg[i]
  {
  }

  /** Every opcode other than ADD, LD and AND stops the machine and changes
      no register and no memory cell. */
  lemma UnimplementedOpcodeStops(s: State, instr: Word, kb: KeyPoll)
    requires s.Valid() && Opcode(instr) != OpAdd && Opcode(instr) != OpLd && Opcode(instr) != OpAnd
    ensures Execute(s, instr, kb) == (s, Stop)
  {
  }

  /** ADD, LD and AND keep the machine running, and they write neither PC nor
      any register other than DR and COND. */
  lemma ImplementedOpcodesRun(s: State, instr: Word, kb: KeyPoll)
    requires s.Valid() && (Opcode(instr) == OpAdd || Opcode(instr) == OpLd || Opcode(instr) == OpAnd)
    ensures Execute(s, instr, kb).1 == Running
    ensures Execute(s, instr, kb).0.reg[PC] == s.reg[PC]
  {
    if Opcode(instr) == OpAdd {
      AddSemantics(s, instr, kb);
    } else if Opcode(instr) == OpAnd {
      AndSemantics(s, instr, kb);
    } else {
      LdSemantics(s, instr, kb);
    }
  }

  /** Reading any address but KBSR returns the cell and changes nothing.
      Reading KBSR with a key waiting stores 0x8000 in KBSR and the key in
      KBDR and returns 0x8000; with no key waiting it stores and returns 0.
      No other cell changes. */
  lemma ReadSemantics(mem: seq<Word>, address: Word, kb: KeyPoll)
    requires |mem| == MemorySize
    ensures address != KBSR ==> AfterRead(mem, address, kb) == mem && ReadValue(mem, address, kb) == mem[address as int]
    ensures address == KBSR && kb.pending ==>
      ReadValue(mem, address, kb) == 0x8000 && AfterRead(mem, address, kb)[KBDR as int] == kb.key
    ensures address == KBSR && !kb.pending ==> ReadValue(mem, address, kb) == 0
    ensures forall a :: 0 <= a < MemorySize && a != KBSR as int && a != KBDR as int ==> AfterRead(mem, address, kb)[a] == mem[a]
    ensures !kb.pending ==> AfterRead(mem, address, kb)[KBDR as int] == mem[KBDR as int]
  {
  }

  /** A read returns what `mem_write` last stored at its address, except at
      KBSR, whose reads poll the keyboard instead. */
  lemma ReadAfterWrite(mem: seq<Word>, address: Word, v: Word, kb: KeyPoll)
    requires |mem| == MemorySize && address != KBSR
    ensures ReadValue(mem[address as int := v], address, kb) == v
    ensures AfterRead(mem[address as int := v], address, kb) == mem[address as int := v]
  {
  }

  /** Fetching returns the word at PC (as the read leaves it), advances PC by
      one modulo 2^16 and changes no other register. */
  lemma FetchSemantics(s: State, kb: KeyPoll)
    requires s.Valid()
    ensures var (t, instr) := Fetch(s, kb);
      instr == t.mem[s.reg[PC] as int] && t.mem == AfterRead(s.mem, s.reg[PC], kb) &&
      t.reg[PC] == s.reg[PC] + 1 &&
      forall i :: 0 <= i < RegCount && i != PC ==> t.reg[i] == s.reg[i]
  {
  }

  /** Away from KBSR a step reads no device: it executes the word at PC
      with PC already advanced, on unchanged memory. */
  lemma StepAwayFromKbsr(s: State, kb: KeyPoll)
    requires s.Valid() && s.reg[PC] != KBSR
    ensures Step(s, kb) == Execute(State(s.reg[PC := s.reg[PC] + 1], s.mem), s.mem[s.reg[PC] as int], kb)
  {
  }

  /** The keyboard is polled at most once per step: an instruction fetched
      from KBSR is 0x8000 or 0x0000, neither of which has a handler, so the
      step stops before any LD could read KBSR again. */
  lemma FetchFromKbsrStops(s: State, kb: KeyPoll)
    requires s.Valid() && s.reg[PC] == KBSR
    ensures Step(s, kb).1 == Stop
  {
    var (t, instr) := Fetch(s, kb);
    assert instr == 0x8000 || instr == 0;
    UnimplementedOpcodeStops(t, instr, kb);
  }

  /** The run loop ends once a step returns STOP: giving a stopped run more
      fuel changes nothing, so its outcome does not depend on the bound. */
  lemma {:induction false} RunMoreFuel(step: (State, KeyPoll) --> (State, ExecState), s: State, keyboard: seq<KeyPoll>, i: nat, fuel: nat, extra: nat)
    requires Stepper(step) && s.Valid()
    requires RunWith(step, s, keyboard, i, fuel).exec == Stop
    ensures RunWith(step, s, keyboard, i, fuel + extra) == RunWith(step, s, keyboard, i, fuel)
    decreases fuel
  {
    var r := step(s, KeyAt(keyboard, i));
    if r.1 == Running {
      RunMoreFuel(step, r.0, keyboard, i + 1, fuel - 1, extra);
    }
  }

  /** A run counts its steps: it stops after at most `fuel` of them, and one
      that does not stop has taken exactly `fuel`. */
  lemma {:induction false} RunSteps(step: (State, KeyPoll) --> (State, ExecState), s: State, keyboard: seq<KeyPoll>, i: nat, fuel: nat)
    requires Stepper(step) && s.Valid()
    ensures var o := RunWith(step, s, keyboard, i, fuel);
      i <= o.steps <= i + fuel && (o.exec == Running ==> o.steps == i + fuel) &&
      (o.exec == Stop ==> o.steps > i)
    decreases fuel
  {
    if fuel > 0 {
      var r := step(s, KeyAt(keyboard, i));
      if r.1 == Running {
        RunSteps(step, r.0, keyboard, i + 1, fuel - 1);
      }
    }
  }

  /** For the machine's own step: a run that has stopped keeps its outcome
      under any larger bound, and a run takes at most `fuel` steps. */
  lemma RunBounded(s: State, keyboard: seq<KeyPoll>, fuel: nat, extra: nat)
    requires s.Valid()
    ensures Run(s, keyboard, fuel).steps <= fuel
    ensures Run(s, keyboard, fuel).exec == Stop ==> Run(s, keyboard, fuel + extra) == Run(s, keyboard, fuel)
  {
    StepIsStepper();
    RunSteps(Step, Boot(s), keyboard, 0, fuel);
    if Run(s, keyboard, fuel).exec == Stop {
      RunMoreFuel(Step, Boot(s), keyboard, 0, fuel, extra);
    }
  }

  /** The first instruction of every run is the word at 0x3000, whatever the
      state's PC was; it is executed with PC already at 0x3001. */
  lemma RunStartsAtPcStart(s: State, keyboard: seq<KeyPoll>, fuel: nat)
    requires s.Valid() && fuel > 0
    ensures var (t, instr) := Fetch(Boot(s), KeyAt(keyboard, 0));
      instr == s.mem[PcStart as int] && t.reg[PC] == 0x3001 &&
      Run(s, keyboard, fuel) ==
        (var (u, st) := Execute(t, instr, KeyAt(keyboard, 0));
         if st == Stop then Outcome(u, Stop, 1) else RunFrom(u, keyboard, 1, fuel - 1))
  {
  }

  // ---------------------------------------------------------------------
  // Loading an image

  /** A byte of the image file. */
  type Byte = bv8

  /** The word a little-endian host reads from two consecutive bytes. */
  function HostWord(first: Byte, second: Byte): Word
  {
    ((second as Word) << 8) | (first as Word)
  }

  /** The word an LC-3 image means by two consecutive bytes: the first is the
      high byte. */
  function BigEndian(hi: Byte, lo: Byte): (w: Word)
    ensures w >> 8 == hi as Word && w & 0xFF == lo as Word
  {
    ((hi as Word) << 8) | (lo as Word)
  }

  /** Swapping a host word recovers the big-endian word of the file. */
  lemma SwapHostWord(first: Byte, second: Byte)
    ensures Swap16(HostWord(first, second)) == BigEndian(first, second)
  {
  }

  /** What `fread` stores for a run of whole words on a little-endian host. */
  function HostWords(bytes: seq<Byte>): (ws: seq<Word>)
    ensures |ws| == |bytes| / 2
  {
    seq(|bytes| / 2, k requires 0 <= k < |bytes| / 2 => HostWord(bytes[2 * k], bytes[2 * k + 1]))
  }

  /** How many words `read_image_file` loads after origin: what the file
      holds, but at most 0xFFFF - origin. */
  function LoadCount(origin: Word, available: nat): (n: nat)
    ensures n <= available && origin as int + n <= 0xFFFF
    ensures n == available || origin as int + n == 0xFFFF
  {
    var maxRead := 0xFFFF - origin as int;
    if available < maxRead then available else maxRead
  }

  /** The memory after `read_image_file`, given the two host words of the
      origin and of the rest of the file: the byte-swapped origin, then from
      there on each word byte-swapped. */
  function Loaded(mem: seq<Word>, rawOrigin: Word, raw: seq<Word>): (m: seq<Word>)
    requires |mem| == MemorySize
    ensures |m| == MemorySize
  {
    var origin := Swap16(rawOrigin) as int;
    var n := LoadCount(Swap16(rawOrigin), |raw|);
    seq(MemorySize, a requires 0 <= a < MemorySize =>
      if origin <= a < origin + n then Swap16(raw[a - origin]) else mem[a])
  }

  /** Loading an image file (a big-endian origin word, then big-endian
      words) puts its k-th word at origin + k, for as many words as fit below
      0xFFFF, and leaves every other cell as it was. */
  lemma LoadImageFile(mem: seq<Word>, file: seq<Byte>)
    requires |mem| == MemorySize && |file| >= 2
    ensures var origin := BigEndian(file[0], file[1]) as int;
      var m := Loaded(mem, HostWord(file[0], file[1]), HostWords(file[2..]));
      var n := LoadCount(origin as Word, (|file| - 2) / 2);
      (forall k :: 0 <= k < n ==> m[origin + k] == BigEndian(file[2 + 2 * k], file[3 + 2 * k])) &&
      (forall a :: 0 <= a < MemorySize && !(origin <= a < origin + n) ==> m[a] == mem[a])
  {
    SwapHostWord(file[0], file[1]);
    var body := file[2..];
    forall k | 0 <= k < |body| / 2
      ensures Swap16(HostWords(body)[k]) == BigEndian(file[2 + 2 * k], file[3 + 2 * k])
    {
      SwapHostWord(body[2 * k], body[2 * k + 1]);
    }
  }

  /** Every register and every cell zero: the storage the VM is meant to
      start from. */
  function ZeroState(): (s: State)
    ensures s.Valid()
    ensures forall i :: 0 <= i < RegCount ==> s.reg[i] == 0
    ensures forall a :: 0 <= a < MemorySize ==> s.mem[a] == 0
  {
    State(seq(RegCount, _ => 0), seq(MemorySize, _ => 0))
  }

  /** `run_vm`: load the image over the initial storage, set PC to 0x3000
      and run (here for at most `fuel` steps). */
  function RunImage(init: State, rawOrigin: Word, raw: seq<Word>, keyboard: seq<KeyPoll>, fuel: nat): (o: Outcome)
    requires init.Valid()
    ensures o.state.Valid()
  {
    Run(init.(mem := Loaded(init.mem, rawOrigin, raw)), keyboard, fuel)
  }

  // ---------------------------------------------------------------------
  // The memory as declared

  datatype Option<T> = None | Some(value: T)

  /** The memory array is declared with `UINT16_MAX` elements, 0xFFFF, so its
      indices stop at 0xFFFE although an address can be 0xFFFF. */
  const DeclaredMemorySize := 0xFFFF

  /** `mem_read` over memory of the declared size: None where the C code would
      index past the end of the array. */
  function DeclaredRead(mem: seq<Word>, address: Word, kb: KeyPoll): (r: Option<Word>)
    requires |mem| == DeclaredMemorySize
    ensures r.None? <==> address == 0xFFFF
  {
    if address as int >= |mem| then None
    else if address != KBSR then Some(mem[address as int])
    else if kb.pending then Some(0x8000)
    else Some(0)
  }

  /** With the declared size, the last address is out of bounds: the fetch
      after the instruction at 0xFFFE, or `LD R0, #-2` at 0x0000, reads
      outside the array. */
  lemma DeclaredMemoryMissesLastAddress(mem: seq<Word>, s: State, kb: KeyPoll)
    requires |mem| == DeclaredMemorySize && s.Valid() && s.reg[PC] == 0xFFFE
    ensures Fetch(s, kb).0.reg[PC] == 0xFFFF
    ensures LdAddress(0x0001, PcOffset9(0x21FE)) == 0xFFFF && Opcode(0x21FE) == OpLd
    ensures DeclaredRead(mem, 0xFFFF, kb) == None
  {
  }

  /** With one cell per address every read is defined; below 0xFFFF it
      returns what a read of the declared array returns, and at 0xFFFF it
      returns that cell, so the fetch at PC = 0xFFFF reads its own cell and
      PC wraps to 0. */
  lemma EveryAddressReadable(s: State, address: Word, kb: KeyPoll)
    requires s.Valid()
    ensures address != 0xFFFF ==> DeclaredRead(s.mem[..DeclaredMemorySize], address, kb) == Some(ReadValue(s.mem, address, kb))
    ensures ReadValue(s.mem, 0xFFFF, kb) == s.mem[0xFFFF]
    ensures s.reg[PC] == 0xFFFF ==> Fetch(s, kb).1 == s.mem[0xFFFF] && Fetch(s, kb).0.reg[PC] == 0
  {
  }
}
