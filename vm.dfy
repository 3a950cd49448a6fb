/** The virtual machine as the C code keeps it: a memory array and a register
    array changed in place. Every method is proved to leave the arrays as the
    corresponding function of module Machine says. */
module Vm {
  import opened Words
  import opened Machine

  class VM {
    const memory: array<Word>
    const reg: array<Word>

    ghost predicate Valid()
      reads this
    {
      memory.Length == MemorySize && reg.Length == RegCount && memory != reg
    }

    /** The register file and the memory as values. */
    ghost function Snapshot(): (s: State)
      reads this, memory, reg
      requires Valid()
      ensures s.Valid()
    {
      State(reg[..], memory[..])
    }

    /** Storage with every register and every cell zero. */
    constructor()
      ensures Valid() && fresh(memory) && fresh(reg)
      ensures Snapshot() == ZeroState()
    {
      memory := new Word[MemorySize](_ => 0);
      reg := new Word[RegCount](_ => 0);
      new;
      assert memory[..] == ZeroState().mem;
      assert reg[..] == ZeroState().reg;
    }

    /** `update_flags` */
    method UpdateFlags(r: nat)
      requires Valid() && r < RegCount
      modifies reg
      ensures reg[..] == SetCond(old(reg[..]), r)
    {
      if reg[r] == 0 {
        reg[COND] := FlagZero;
      } else if reg[r] >> 15 != 0 {
        reg[COND] := FlagNeg;
      } else {
        reg[COND] := FlagPos;
      }
    }

    /** `mem_write` */
    method MemWrite(address: Word, val: Word)
      requires Valid()
      modifies memory
      ensures memory[..] == old(memory[..])[address as int := val]
    {
      var i := address as int;
      memory[i] := val;
    }

    /** `mem_read`, with the keyboard's answer as the parameter kb. */
    method MemRead(address: Word, kb: KeyPoll) returns (v: Word)
      requires Valid()
      modifies memory
      ensures memory[..] == AfterRead(old(memory[..]), address, kb)
      ensures v == ReadValue(old(memory[..]), address, kb)
    {
      if address == KBSR {
        if kb.pending {
          memory[KBSR] := 0x8000;
          memory[KBDR] := kb.key;
        } else {
          memory[KBSR] := 0;
        }
      }
      v := memory[address];
    }

    /** `fetch_next_instr` */
    method FetchNextInstr(kb: KeyPoll) returns (instr: Word)
      requires Valid()
      modifies memory, reg
      ensures (Snapshot(), instr) == Fetch(old(Snapshot()), kb)
    {
      var pc := reg[PC];
      reg[PC] := pc + 1;
      instr := MemRead(pc, kb);
    }

    /** `op_add` */
    method ExecAdd(operands: Word)
      requires Valid()
      modifies reg
      ensures reg[..] == Add(old(reg[..]), operands)
    {
      ghost var before := reg[..];
      var r0 := Dr(operands);
      var r1 := Sr1(operands);
      var operand: Word;
      if ImmFlag(operands) {
        var imm5 := SignExtend(operands & 0x1F, 5);
        operand := imm5;
      } else {
        var r2 := Sr2(operands);
        operand := reg[r2];
      }
      assert operand == Operand(before, operands);
      var a := reg[r1];
      assert a == before[r1];
      var result := Plus(a, operand);
      reg[r0] := result;
      assert reg[..] == before[r0 := result];
      UpdateFlags(r0);
      assert reg[..] == SetReg(before, r0, result);
    }

    /** `op_and` */
    method ExecAnd(operands: Word)
      requires Valid()
      modifies reg
      ensures reg[..] == And(old(reg[..]), operands)
    {
      ghost var before := reg[..];
      var r0 := Dr(operands);
      var r1 := Sr1(operands);
      var operand: Word;
      if ImmFlag(operands) {
        var imm5 := SignExtend(operands & 0x1F, 5);
        operand := imm5;
      } else {
        var r2 := Sr2(operands);
        operand := reg[r2];
      }
      assert operand == Operand(before, operands);
      var a := reg[r1];
      assert a == before[r1];
      var result := BitAnd(a, operand);
      reg[r0] := result;
      assert reg[..] == before[r0 := result];
      UpdateFlags(r0);
      assert reg[..] == SetReg(before, r0, result);
    }

    /** `process_instruction` */
    method ProcessInstruction(instr: Word, kb: KeyPoll) returns (st: ExecState)
      requires Valid()
      modifies memory, reg
      ensures (Snapshot(), st) == Execute(old(Snapshot()), instr, kb)
    {
      ghost var s0 := Snapshot();
      st := Running;
      var op := instr >> 12;
      var payload := instr & 0xFFF;
      if op == OpAdd {
        ExecAdd(payload);
        assert Execute(s0, instr, kb) == (s0.(reg := Add(s0.reg, payload)), Running);
      } else if op == OpAnd {
        ExecAnd(payload);
        assert Execute(s0, instr, kb) == (s0.(reg := And(s0.reg, payload)), Running);
      } else if op == OpLd {
        var r0 := Dr(instr);
        var source := SignExtend(instr & 0x1FF, 9);
        var address := LdAddress(reg[PC], source);
        var v := MemRead(address, kb);
        reg[r0] := v;
        UpdateFlags(r0);
        assert Snapshot() == LoadInto(s0, r0, address, kb);
      } else {
        st := Stop;
      }
    }

    /** `read_image_file` on the bytes of the file: the origin word, then as
        many words as fit, stored as read and then byte-swapped in place. */
    method ReadImageFile(file: seq<Byte>)
      requires Valid() && |file| >= 2
      modifies memory
      ensures memory[..] == Loaded(old(memory[..]), HostWord(file[0], file[1]), HostWords(file[2..]))
    {
      var origin := Swap16(HostWord(file[0], file[1]));
      var raw := HostWords(file[2..]);
      // fread stores up to 0xFFFF - origin words from the file at origin
      var read := LoadCount(origin, |raw|);
      var o := origin as int;
      forall a | o <= a < o + read {
        memory[a] := raw[a - o];
      }
      var p := o;
      while p < o + read
        invariant o <= p <= o + read
        invariant forall a :: 0 <= a < MemorySize ==>
          memory[a] == (if o <= a < p then Swap16(raw[a - o])
            else if p <= a < o + read then raw[a - o]
            else old(memory[a]))
      {
        memory[p] := Swap16(memory[p]);
        p := p + 1;
      }
      assert memory[..] == Loaded(old(memory[..]), HostWord(file[0], file[1]), raw);
    }

    /** The loop of `run_vm`: PC := 0x3000, then fetch and execute until an
        instruction stops the machine, here for at most `fuel` steps. Step i
        sees the keyboard answer `KeyAt(keyboard, i)`. */
    method Run(keyboard: seq<KeyPoll>, fuel: nat) returns (st: ExecState, steps: nat)
      requires Valid()
      modifies memory, reg
      ensures Outcome(Snapshot(), st, steps) == Machine.Run(old(Snapshot()), keyboard, fuel)
    {
      reg[PC] := PcStart;
      assert Snapshot() == Boot(old(Snapshot()));
      st := Running;
      steps := 0;
      while st == Running && steps < fuel
        invariant steps <= fuel
        invariant st == Running ==>
          Machine.Run(old(Snapshot()), keyboard, fuel) == RunFrom(Snapshot(), keyboard, steps, fuel - steps)
        invariant st == Stop ==>
          Machine.Run(old(Snapshot()), keyboard, fuel) == Outcome(Snapshot(), Stop, steps)
        decreases fuel - steps, st == Running
      {
        var kb := KeyAt(keyboard, steps);
        var instr := FetchNextInstr(kb);
        st := ProcessInstruction(instr, kb);
        steps := steps + 1;
      }
    }
  }

  /** `run_vm` on an image file: zeroed storage, the image loaded, the run,
      and the registers R0-R7 that `print_registers` shows. */
  method RunVm(file: seq<Byte>, keyboard: seq<KeyPoll>, fuel: nat)
    returns (regs: seq<Word>, st: ExecState, steps: nat)
    requires |file| >= 2
    ensures var o := RunImage(ZeroState(), HostWord(file[0], file[1]), HostWords(file[2..]), keyboard, fuel);
      regs == o.state.reg[..8] && st == o.exec && steps == o.steps
  {
    var vm := new VM();
    vm.ReadImageFile(file);
    st, steps := vm.Run(keyboard, fuel);
    regs := vm.reg[..8];
  }
}
