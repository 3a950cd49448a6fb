/** The repository's own tests, stated as lemmas about the model: the unit
    tests of `sign_extend` and `process_instruction` in lc.c, and the
    register checks that tests.rb makes after running small assembled
    programs. */
module UnitTests {
  import opened Words
  import opened BinLit
  import opened Machine

  /** `sign_extend` preserves sign: 00000 stays 0, 11111 becomes -1 and
      01111 stays 15. */
  lemma SignExtendExamples()
    ensures SignExtend(0x0, 5) == 0
    ensures SignExtend(0x1F, 5) == 0xFFFF
    ensures SignExtend(0xF, 5) == 0xF
  {
  }

  /** The zeroed storage, with R1 and R2 set as a test sets them. */
  function WithRegs(r1: Word, r2: Word): (s: State)
    ensures s.Valid() && s.reg[1] == r1 && s.reg[2] == r2
  {
    var z := ZeroState();
    z.(reg := z.reg[1 := r1][2 := r2])
  }

  /** ADD with immediate value adds to the destination register: the
      literal `0001 000 000 1 00001` is ADD R0, R0, #1, and executing it on
      zeroed storage leaves 1 in R0 and POS in COND. */
  lemma AddImmediateTest(text: seq<char>)
    requires text == "0001 000 000 1 00001"
    ensures BitsValue(Kept(text)) == EncodeOperate(OpAdd, 0, 0, 1, 0x01) as int
    ensures var (t, st) := Execute(ZeroState(), EncodeOperate(OpAdd, 0, 0, 1, 0x01), NoKey);
      st == Running && t.reg[0] == 1 && t.reg[COND] == FlagPos
  {
    AddImmediateLiteral(text);
  }

  /** ADD with the largest positive immediate: `0001 000 000 1 01111`,
      ADD R0, R0, #15, leaves 0xF in R0. */
  lemma AddMaxImmediateTest()
    ensures var (t, st) := Execute(ZeroState(), EncodeOperate(OpAdd, 0, 0, 1, 0x0F), NoKey);
      st == Running && t.reg[0] == 0xF
  {
  }

  /** ADD with a negative immediate: `0001 000 000 1 11111`, ADD R0, R0, #-1,
      decrements R0 from 0 to 0xFFFF, which is negative. */
  lemma AddNegativeImmediateTest()
    ensures var (t, st) := Execute(ZeroState(), EncodeOperate(OpAdd, 0, 0, 1, 0x1F), NoKey);
      st == Running && t.reg[0] == 0xFFFF && t.reg[COND] == FlagNeg
  {
  }

  /** ADD in register mode: `0001 000 001 0 00 010`, ADD R0, R1, R2, with
      R1 = 1 and R2 = 2 leaves 3 in R0. */
  lemma AddRegisterTest()
    ensures var (t, st) := Execute(WithRegs(1, 2), EncodeOperate(OpAdd, 0, 1, 0, 2), NoKey);
      st == Running && t.reg[0] == 3
  {
  }

  /** AND with an immediate: `0101 000 001 1 01111`, AND R0, R1, #15, with
      R1 = 9 leaves 9 in R0. */
  lemma AndImmediateTest()
    ensures var (t, st) := Execute(WithRegs(9, 0), EncodeOperate(OpAnd, 0, 1, 1, 0x0F), NoKey);
      st == Running && t.reg[0] == 9
  {
  }

  /** AND in register mode: `0101 000 001 0 00 010`, AND R0, R1, R2, with
      R1 = 1 and R2 = 3 leaves 1 in R0. */
  lemma AndRegisterTest()
    ensures var (t, st) := Execute(WithRegs(1, 3), EncodeOperate(OpAnd, 0, 1, 0, 2), NoKey);
      st == Running && t.reg[0] == 1
  {
  }

  /** The carry out of bit 15 is dropped: ADD R0, R0, #1 with R0 = 0xFFFF
      leaves 0 in R0 and ZERO in COND, and LD with offset #1 at PC = 0xFFFF
      reads address 0. */
  lemma WrapAroundExamples()
    ensures var z := ZeroState();
      var (t, st) := Execute(z.(reg := z.reg[0 := 0xFFFF]), EncodeOperate(OpAdd, 0, 0, 1, 0x01), NoKey);
      st == Running && t.reg[0] == 0 && t.reg[COND] == FlagZero
    ensures LdAddress(0xFFFF, PcOffset9(0x2001)) == 0
  {
  }

  /** `AND R5, R5, 0` then `HALT` (TRAP x25), assembled at x3000. */
  const AndZeroImage: seq<Byte> := [0x30, 0x00, 0x5B, 0x60, 0xF0, 0x25]

  /** `AND R5, R5, 0`, `ADD R5, R5, 1`, `HALT` at x3000. */
  const AddOneImage: seq<Byte> := [0x30, 0x00, 0x5B, 0x60, 0x1B, 0x61, 0xF0, 0x25]

  /** `AND R5, R5, 0`, `ADD R5, R5, 1`, `ADD R5, R5, 1`, `HALT` at x3000. */
  const AddTwoImage: seq<Byte> := [0x30, 0x00, 0x5B, 0x60, 0x1B, 0x61, 0x1B, 0x61, 0xF0, 0x25]

  /** `LD R5, LETTER_A`, `HALT`, `LETTER_A: .FILL 65`, assembled at x3000. */
  const LdImage: seq<Byte> := [0x30, 0x00, 0x2A, 0x01, 0xF0, 0x25, 0x00, 0x41]

  /** The run of an image file from zeroed storage with no key pressed. */
  function RunFile(file: seq<Byte>, fuel: nat): (o: Outcome)
    requires |file| >= 2
    ensures o.state.Valid()
  {
    RunImage(ZeroState(), HostWord(file[0], file[1]), HostWords(file[2..]), [], fuel)
  }

  /** Storage whose registers are zero and whose memory is m. */
  function Zeroed(m: seq<Word>): (s: State)
    requires |m| == MemorySize
    ensures s.Valid()
  {
    State(ZeroState().reg, m)
  }

  /** One step of a run that goes on: the step at s from step number i,
      reached with `fuel` steps left, continues from the state it returns. */
  lemma Continue(s: State, i: nat, fuel: nat)
    requires s.Valid() && fuel > 0 && Step(s, NoKey).1 == Running
    ensures RunFrom(s, [], i, fuel) == RunFrom(Step(s, NoKey).0, [], i + 1, fuel - 1)
  {
    StepIsStepper();
    assert KeyAt([], i) == NoKey;
  }

  /** The step at s stops the run. */
  lemma Halt(s: State, i: nat, fuel: nat)
    requires s.Valid() && fuel > 0 && Step(s, NoKey).1 == Stop
    ensures RunFrom(s, [], i, fuel) == Outcome(Step(s, NoKey).0, Stop, i + 1)
  {
    StepIsStepper();
    assert KeyAt([], i) == NoKey;
  }

  /** `AND R5, R5, 0` at PC: R5 becomes 0 and PC moves on. */
  lemma AndZeroStep(s: State)
    requires s.Valid() && s.reg[PC] != KBSR && s.mem[s.reg[PC] as int] == 0x5B60
    ensures var (t, st) := Step(s, NoKey);
      st == Running && t.mem == s.mem && t.reg[5] == 0 && t.reg[PC] == s.reg[PC] + 1
  {
    StepAwayFromKbsr(s, NoKey);
    var t := State(s.reg[PC := s.reg[PC] + 1], s.mem);
    AndSemantics(t, 0x5B60, NoKey);
  }

  /** `ADD R5, R5, 1` at PC: R5 goes up by one and PC moves on. */
  lemma AddOneStep(s: State)
    requires s.Valid() && s.reg[PC] != KBSR && s.mem[s.reg[PC] as int] == 0x1B61
    ensures var (t, st) := Step(s, NoKey);
      st == Running && t.mem == s.mem && t.reg[5] == s.reg[5] + 1 && t.reg[PC] == s.reg[PC] + 1
  {
    StepAwayFromKbsr(s, NoKey);
    var t := State(s.reg[PC := s.reg[PC] + 1], s.mem);
    AddSemantics(t, 0x1B61, NoKey);
  }

  /** `LD R5, #1` at PC: R5 receives the word two cells after the LD. */
  lemma LdStep(s: State)
    requires s.Valid() && s.reg[PC] != KBSR && s.mem[s.reg[PC] as int] == 0x2A01
    requires s.reg[PC] + 2 != KBSR
    ensures var (t, st) := Step(s, NoKey);
      st == Running && t.mem == s.mem && t.reg[5] == s.mem[(s.reg[PC] + 2) as int] && t.reg[PC] == s.reg[PC] + 1
  {
    StepAwayFromKbsr(s, NoKey);
    var t := State(s.reg[PC := s.reg[PC] + 1], s.mem);
    LdSemantics(t, 0x2A01, NoKey);
    assert LdAddress(t.reg[PC], PcOffset9(0x2A01)) == s.reg[PC] + 2;
  }

  /** HALT (TRAP x25) has no handler here: the step stops, leaving R5. */
  lemma HaltStep(s: State)
    requires s.Valid() && s.reg[PC] != KBSR && s.mem[s.reg[PC] as int] == 0xF025
    ensures var (t, st) := Step(s, NoKey);
      st == Stop && t.reg[5] == s.reg[5]
  {
    StepAwayFromKbsr(s, NoKey);
    UnimplementedOpcodeStops(State(s.reg[PC := s.reg[PC] + 1], s.mem), 0xF025, NoKey);
  }

  /** AND-ing a register with zero zeroes it out: R5 is 0 when HALT, which
      this VM does not implement, stops the run after two steps. */
  lemma AndZeroProgram()
    ensures var o := RunFile(AndZeroImage, 10);
      o.exec == Stop && o.steps == 2 && o.state.reg[5] == 0
  {
    var m := Loaded(ZeroState().mem, HostWord(0x30, 0x00), HostWords(AndZeroImage[2..]));
    LoadImageFile(ZeroState().mem, AndZeroImage);
    assert m[0x3000] == 0x5B60 && m[0x3001] == 0xF025;
    var s0 := Boot(Zeroed(m));
    AndZeroStep(s0);
    var s1 := Step(s0, NoKey).0;
    Continue(s0, 0, 10);
    HaltStep(s1);
    Halt(s1, 1, 9);
  }

  /** Adding one to a zeroed register gives 1. */
  lemma AddOneProgram()
    ensures var o := RunFile(AddOneImage, 10);
      o.exec == Stop && o.steps == 3 && o.state.reg[5] == 1
  {
    var m := Loaded(ZeroState().mem, HostWord(0x30, 0x00), HostWords(AddOneImage[2..]));
    LoadImageFile(ZeroState().mem, AddOneImage);
    assert m[0x3000] == 0x5B60 && m[0x3001] == 0x1B61 && m[0x3002] == 0xF025;
    var s0 := Boot(Zeroed(m));
    AndZeroStep(s0);
    var s1 := Step(s0, NoKey).0;
    Continue(s0, 0, 10);
    AddOneStep(s1);
    var s2 := Step(s1, NoKey).0;
    Continue(s1, 1, 9);
    HaltStep(s2);
    Halt(s2, 2, 8);
  }

  /** Adding one twice to a zeroed register gives 2. */
  lemma AddTwoProgram()
    ensures var o := RunFile(AddTwoImage, 10);
      o.exec == Stop && o.steps == 4 && o.state.reg[5] == 2
  {
    var m := Loaded(ZeroState().mem, HostWord(0x30, 0x00), HostWords(AddTwoImage[2..]));
    LoadImageFile(ZeroState().mem, AddTwoImage);
    assert m[0x3000] == 0x5B60 && m[0x3001] == 0x1B61 && m[0x3002] == 0x1B61 && m[0x3003] == 0xF025;
    var s0 := Boot(Zeroed(m));
    AndZeroStep(s0);
    var s1 := Step(s0, NoKey).0;
    Continue(s0, 0, 10);
    AddOneStep(s1);
    var s2 := Step(s1, NoKey).0;
    Continue(s1, 1, 9);
    AddOneStep(s2);
    var s3 := Step(s2, NoKey).0;
    Continue(s2, 2, 8);
    HaltStep(s3);
    Halt(s3, 3, 7);
  }

  /** LD loads the word PC-relative: R5 holds 0x41 when the run stops. */
  lemma LdProgram()
    ensures var o := RunFile(LdImage, 10);
      o.exec == Stop && o.steps == 2 && o.state.reg[5] == 0x41
  {
    var m := Loaded(ZeroState().mem, HostWord(0x30, 0x00), HostWords(LdImage[2..]));
    LoadImageFile(ZeroState().mem, LdImage);
    assert m[0x3000] == 0x2A01 && m[0x3001] == 0xF025 && m[0x3002] == 0x0041;
    var s0 := Boot(Zeroed(m));
    LdStep(s0);
    var s1 := Step(s0, NoKey).0;
    Continue(s0, 0, 10);
    HaltStep(s1);
    Halt(s1, 1, 9);
  }
}
