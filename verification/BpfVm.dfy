/** The machine object of libbpf (src/vm.c): registers, save areas and memory updated in place,
    each operation proved to be the corresponding step of the state machine. */
module BpfVm {
  import opened BpfMemory
  import opened BpfGuest
  import opened BpfDecode
  import opened BpfProgram
  import opened BpfMachine

  /** The live part of the save areas as a stack of frames. */
  ghost function FramesOf(retp: seq<nat>, s6: seq<nat>, s7: seq<nat>, s8: seq<nat>, s9: seq<nat>, s10: seq<nat>, n: nat): (f: seq<Frame>)
    requires n <= |retp| == |s6| == |s7| == |s8| == |s9| == |s10|
    ensures |f| == n && forall k :: 0 <= k < n ==> f[k] == Frame(retp[k], [s6[k], s7[k], s8[k], s9[k], s10[k]])
  {
    seq(n, k requires 0 <= k < n => Frame(retp[k], [s6[k], s7[k], s8[k], s9[k], s10[k]]))
  }

  class Vm {
    const prog: Program
    const isa: Isa
    const mem: Memory
    const regs: array<nat>
    const retp: array<nat>
    const s6: array<nat>
    const s7: array<nat>
    const s8: array<nat>
    const s9: array<nat>
    const s10: array<nat>
    var pc: nat
    var budget: nat
    var retn: nat
    var state: State
    var gated: bool
    var granted: set<nat>
    var pending: nat

    ghost const fp: nat

    ghost predicate Sized() {
      && regs.Length == NREG
      && retp.Length == s6.Length == s7.Length == s8.Length == s9.Length == s10.Length == CALL_DEPTH
      && regs != retp && regs != s6 && regs != s7 && regs != s8 && regs != s9 && regs != s10
      && retp != s6 && retp != s7 && retp != s8 && retp != s9 && retp != s10
      && s6 != s7 && s6 != s8 && s6 != s9 && s6 != s10
      && s7 != s8 && s7 != s9 && s7 != s10 && s8 != s9 && s8 != s10 && s9 != s10
    }

    ghost function Snapshot(): Machine
      reads this, mem, regs, retp, s6, s7, s8, s9, s10
      requires Sized() && retn <= CALL_DEPTH
    {
      Machine(pc, budget, regs[..], FramesOf(retp[..], s6[..], s7[..], s8[..], s9[..], s10[..], retn), state, mem.regions, gated, granted, pending)
    }

    ghost predicate Valid()
      reads this, mem, regs, retp, s6, s7, s8, s9, s10
    {
      Sized() && retn <= CALL_DEPTH && Inv(prog, Snapshot(), fp)
    }

    /** bpf_vm_create: r1 and r2 describe the input, r10 is the frame pointer, everything else is zero. */
    constructor (p: Program, i: Isa, rs: seq<Region>, steps: nat, ctxBase: nat, ctxLen: nat, stack: nat)
      requires ProgramOk(p) && RegionsOk(rs)
      ensures Valid() && fresh(mem) && fresh(regs) && fresh(retp) && fresh(s6) && fresh(s7) && fresh(s8) && fresh(s9) && fresh(s10)
      ensures prog == p && isa == i && fp == stack
      ensures Snapshot() == Start(steps, ctxBase, ctxLen, stack, rs)
    {
      prog, isa, fp := p, i, stack;
      mem := new Memory(rs);
      regs := new nat[NREG](k => 0);
      retp, s6, s7 := new nat[CALL_DEPTH](k => 0), new nat[CALL_DEPTH](k => 0), new nat[CALL_DEPTH](k => 0);
      s8, s9, s10 := new nat[CALL_DEPTH](k => 0), new nat[CALL_DEPTH](k => 0), new nat[CALL_DEPTH](k => 0);
      pc, budget, retn, state := 0, steps, 0, Running;
      gated, granted, pending := false, {}, 0;
      new;
      regs[1], regs[2], regs[10] := ctxBase, ctxLen, stack;
      assert regs[..] == [0, ctxBase, ctxLen, 0, 0, 0, 0, 0, 0, 0, stack];
      StartInv(p, steps, ctxBase, ctxLen, stack, rs);
      assert Snapshot() == Start(steps, ctxBase, ctxLen, stack, rs);
    }

    ghost predicate Ready(i: Insn)
      reads this, mem, regs, retp, s6, s7, s8, s9, s10
    {
      Sized() && retn <= CALL_DEPTH && RegsOk(i) && RegionsOk(mem.regions)
    }

    method ExecAluInsn(i: Insn) returns (r: State)
      requires Ready(i)
      modifies this`pc, regs
      ensures Step(Snapshot(), r) == ExecAlu(isa, old(Snapshot()), i)
    {
      if i.dst == 10 { return Trapped; }
      regs[i.dst] := isa.alu(i, regs[..]) % W64;
      pc := pc + 1;
      return Running;
    }

    method ExecLdImmInsn(i: Insn) returns (r: State)
      requires Ready(i)
      modifies this`pc, regs
      ensures Step(Snapshot(), r) == ExecLdImm(old(Snapshot()), i)
    {
      if i.dst == 10 { return Trapped; }
      regs[i.dst] := i.nextImm * 0x1_0000_0000 + U32(i.imm);
      pc := pc + 1;
      return Running;
    }

    method ExecLdxInsn(i: Insn) returns (r: State)
      requires Ready(i)
      modifies this`pc, regs
      ensures Step(Snapshot(), r) == ExecLdx(old(Snapshot()), i)
    {
      if i.dst == 10 { return Trapped; }
      var v := mem.Load((regs[i.src] + i.offset) % W64, SizeBytes(i.size));
      if v.Err? { return Trapped; }
      regs[i.dst] := if i.mode == MODE_MEMSX then SignExtend(v.value, i.size) else v.value;
      pc := pc + 1;
      return Running;
    }

    method ExecStoreInsn(i: Insn, v: nat) returns (r: State)
      requires Ready(i)
      modifies this`pc, mem
      ensures Step(Snapshot(), r) == ExecStore(old(Snapshot()), i, v)
    {
      var ok := mem.Store((regs[i.dst] + i.offset) % W64, SizeBytes(i.size), v);
      if ok.Err? { return Trapped; }
      pc := pc + 1;
      return Running;
    }

    /** The registers an atomic writes: r0 for a compare-and-exchange, the source for a fetch. */
    method ReturnOld(i: Insn, v: nat)
      requires Ready(i)
      modifies regs
      ensures Snapshot() == old(Snapshot()).(regs := AtomicRegs(old(Snapshot()), i, v))
    {
      if AtomicOp(i) == 0xF0 {
        regs[0] := v;
      } else if Fetches(i) {
        regs[i.src] := v;
      }
    }

    method ExecAtomicInsn(i: Insn) returns (r: State)
      requires Ready(i)
      modifies this`pc, regs, mem
      ensures Step(Snapshot(), r) == ExecAtomic(isa, old(Snapshot()), i)
    {
      var is32 := i.size == SIZE_W;
      var w := if is32 then 4 else 8;
      var a := (regs[i.dst] + i.offset) % W64;
      var v := mem.Load(a, w);
      if v.Err? { return Trapped; }
      var ok := mem.Store(a, w, isa.atomic(AtomicOp(i), is32, v.value, regs[i.src], regs[0]));
      if ok.Err? { return Trapped; }
      ReturnOld(i, v.value);
      pc := pc + 1;
      return Running;
    }

    /** The exit branch of exec_jmp. */
    method ExecExitInsn() returns (r: State)
      requires Sized() && retn <= CALL_DEPTH
      modifies this`pc, this`retn, this`state, regs
      ensures retn <= CALL_DEPTH && Step(Snapshot(), r) == ExecExit(old(Snapshot()))
    {
      ghost var m := Snapshot();
      if retn > 0 {
        retn := retn - 1;
        ghost var top := m.frames[retn];
        regs[6], regs[7], regs[8], regs[9], regs[10] := s6[retn], s7[retn], s8[retn], s9[retn], s10[retn];
        pc := retp[retn];
        assert regs[..] == Restored(m.regs, top.saved);
        assert FramesOf(retp[..], s6[..], s7[..], s8[..], s9[..], s10[..], retn) == m.frames[..retn];
        return Running;
      }
      state := Returned;
      return Returned;
    }

    /** The local-call branch of exec_jmp. */
    method ExecCallInsn(target: nat) returns (r: State)
      requires Sized() && retn <= CALL_DEPTH
      modifies this`pc, this`retn, retp, s6, s7, s8, s9, s10
      ensures retn <= CALL_DEPTH && Step(Snapshot(), r) == ExecCall(old(Snapshot()), target)
    {
      ghost var m := Snapshot();
      if retn >= CALL_DEPTH { return Trapped; }
      retp[retn] := pc + 1;
      s6[retn], s7[retn], s8[retn], s9[retn], s10[retn] := regs[6], regs[7], regs[8], regs[9], regs[10];
      retn := retn + 1;
      pc := target;
      assert [regs[6], regs[7], regs[8], regs[9], regs[10]] == m.regs[6..];
      assert FramesOf(retp[..], s6[..], s7[..], s8[..], s9[..], s10[..], retn) == m.frames + [Frame(m.pc + 1, m.regs[6..])];
      return Running;
    }

    method ExecHelperCall(i: Insn) returns (r: State)
      requires Sized() && retn <= CALL_DEPTH
      modifies this`pending, this`state
      ensures Step(Snapshot(), r) == ExecHelper(old(Snapshot()), i)
    {
      if gated && regs[1] !in granted { return Trapped; }
      pending := U32(i.imm);
      state := Waiting;
      return Waiting;
    }

    method ExecJmpInsn(i: Insn, target: nat, is32: bool) returns (r: State)
      requires Ready(i)
      modifies this`pc, this`retn, this`state, this`pending, regs, retp, s6, s7, s8, s9, s10
      ensures retn <= CALL_DEPTH && FramesShaped(old(Snapshot())) && Step(Snapshot(), r) == ExecJmp(isa, old(Snapshot()), i, target, is32)
    {
      if i.code == JMP_JA {
        pc := target;
        return Running;
      }
      if i.code == JMP_EXIT {
        r := ExecExitInsn();
        return;
      }
      if i.code == JMP_CALL {
        if i.src == 1 {
          r := ExecCallInsn(target);
        } else {
          r := ExecHelperCall(i);
        }
        return;
      }
      var s := if i.source == 0 then (if is32 then U32(i.imm) else i.imm % W64) else regs[i.src];
      if isa.taken(i, is32, regs[i.dst], s) {
        pc := target;
      } else {
        pc := pc + 1;
      }
      return Running;
    }

    /** The dispatch of bpf_vm_step. */
    method Dispatch(i: Insn, target: nat) returns (r: State)
      requires Ready(i)
      modifies this`pc, this`retn, this`state, this`pending, regs, retp, s6, s7, s8, s9, s10, mem
      ensures retn <= CALL_DEPTH && FramesShaped(old(Snapshot())) && Step(Snapshot(), r) == Exec(isa, old(Snapshot()), i, target)
    {
      if i.cls == CLS_ALU || i.cls == CLS_ALU64 {
        r := ExecAluInsn(i);
      } else if i.cls == CLS_LD {
        r := ExecLdImmInsn(i);
      } else if i.cls == CLS_LDX {
        r := ExecLdxInsn(i);
      } else if i.cls == CLS_ST {
        r := ExecStoreInsn(i, i.imm % W64);
      } else if i.cls == CLS_STX {
        if i.mode == MODE_ATOMIC {
          r := ExecAtomicInsn(i);
        } else {
          r := ExecStoreInsn(i, regs[i.src]);
        }
      } else if i.cls == CLS_JMP {
        r := ExecJmpInsn(i, target, false);
      } else if i.cls == CLS_JMP32 {
        r := ExecJmpInsn(i, target, true);
      } else {
        state := Trapped;
        r := Trapped;
      }
    }

    /** The checks before the dispatch: a settled machine stays as it is, and a step costs one unit. */
    method Charge() returns (stop: bool, r: State)
      requires Sized() && retn <= CALL_DEPTH && Fit(prog, Snapshot())
      modifies this`budget, this`state
      ensures stop ==> Step(Snapshot(), r) == StepSpec(isa, prog, old(Snapshot()))
      ensures !stop ==> pc < |prog.ins| && old(budget) > 0 && Snapshot() == old(Snapshot()).(budget := old(budget) - 1)
      ensures !stop ==> InsnOk(prog.ins[pc]) && StepSpec(isa, prog, old(Snapshot())) == Exec(isa, Snapshot(), prog.ins[pc], prog.rec[pc].target)
    {
      if state == Returned || state == Trapped || state == Waiting { return true, state; }
      if pc >= |prog.ins| {
        state := Trapped;
        return true, Trapped;
      }
      if budget == 0 {
        state := Exhausted;
        return true, Exhausted;
      }
      assert InsnOk(prog.ins[pc]);
      budget := budget - 1;
      return false, Running;
    }

    /** bpf_vm_step. */
    method StepOnce() returns (r: State)
      requires Valid()
      modifies this, regs, retp, s6, s7, s8, s9, s10, mem
      ensures Valid() && Step(Snapshot(), r) == StepSpec(isa, prog, old(Snapshot()))
    {
      StepInv(isa, prog, Snapshot(), fp);
      var stop;
      stop, r := Charge();
      if !stop {
        r := Dispatch(prog.ins[pc], prog.rec[pc].target);
      }
    }

    /** bpf_vm_complete. */
    method CompleteHelper(status: nat) returns (ok: bool)
      requires Valid()
      modifies this`pc, this`state, regs
      ensures Valid() && ok == (old(state) == Waiting) && Snapshot() == CompleteSpec(old(Snapshot()), status)
    {
      ghost var m := Snapshot();
      ApplyKept(isa, prog, m, Complete(status), fp);
      if state != Waiting { return false; }
      regs[0] := status;
      var k := 1;
      while k <= 5
        modifies regs
        invariant 1 <= k <= 6 && regs[0] == status
        invariant forall j :: 1 <= j < k ==> regs[j] == 0
        invariant forall j :: 6 <= j < NREG ==> regs[j] == m.regs[j]
      {
        regs[k] := 0;
        k := k + 1;
      }
      assert regs[..] == [status, 0, 0, 0, 0, 0] + m.regs[6..];
      state := Running;
      pc := pc + 1;
      return true;
    }

    /** bpf_vm_set_budget. */
    method SetStepBudget(b: nat)
      requires Valid()
      modifies this`budget
      ensures Valid() && Snapshot() == old(Snapshot()).(budget := b)
    {
      ApplyKept(isa, prog, Snapshot(), SetBudget(b), fp);
      budget := b;
    }
  }
}
