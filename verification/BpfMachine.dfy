/** The sandbox machine of libbpf (src/vm.c) as a state machine on values: one instruction,
    host events between instructions, and what every run keeps. */
module BpfMachine {
  import opened Common
  import opened BpfMemory
  import opened BpfDecode
  import opened BpfProgram

  const CALL_DEPTH: nat := 64
  const NREG: nat := 11

  datatype State = Running | Returned | Waiting | Trapped | Exhausted

  /** A saved return index and the callee-saved registers r6 to r10. */
  datatype Frame = Frame(ret: nat, saved: seq<nat>)

  /** gated and granted stand for the capability check: the handles in r1 that let a helper call through. */
  datatype Machine = Machine(pc: nat, budget: nat, regs: seq<nat>, frames: seq<Frame>, state: State,
                             mem: seq<Region>, gated: bool, granted: set<nat>, pending: nat)

  /** The instruction semantics the machine is parametric in: the ALU, the conditions, the atomics. */
  datatype Isa = Isa(alu: (Insn, seq<nat>) -> nat, taken: (Insn, bool, nat, nat) -> bool, atomic: (nat, bool, nat, nat, nat) -> nat)

  datatype Step = Step(m: Machine, result: State)

  function Advance(m: Machine): Machine {
    m.(pc := m.pc + 1)
  }

  function SetReg(m: Machine, r: nat, v: nat): Machine
    requires r < |m.regs|
  {
    m.(regs := m.regs[r := v])
  }

  function SizeBytes(size: nat): nat {
    if size == SIZE_H then 2 else if size == SIZE_B then 1 else if size == SIZE_DW then 8 else 4
  }

  function EffAddr(m: Machine, reg: nat, off: int): nat
    requires reg < |m.regs|
  {
    (m.regs[reg] + off) % W64
  }

  /** se_load. */
  function SignExtend(v: nat, size: nat): nat {
    if size == SIZE_B then Signed(v % 0x100, 0x80) % W64
    else if size == SIZE_H then Signed(v % 0x1_0000, HALF16) % W64
    else if size == SIZE_W then Signed(v % 0x1_0000_0000, HALF32) % W64
    else v
  }

  ghost predicate Shape(m: Machine, i: Insn) {
    |m.regs| == NREG && RegsOk(i)
  }

  // ---- instructions ----

  function ExecAlu(isa: Isa, m: Machine, i: Insn): Step
    requires Shape(m, i)
  {
    if i.dst == 10 then Step(m, Trapped)
    else Step(Advance(SetReg(m, i.dst, isa.alu(i, m.regs) % W64)), Running)
  }

  function ExecLdImm(m: Machine, i: Insn): Step
    requires Shape(m, i)
  {
    if i.dst == 10 then Step(m, Trapped)
    else Step(Advance(SetReg(m, i.dst, i.nextImm * 0x1_0000_0000 + U32(i.imm))), Running)
  }

  function ExecLdx(m: Machine, i: Insn): Step
    requires Shape(m, i)
  {
    if i.dst == 10 then Step(m, Trapped)
    else
      match LoadSpec(m.mem, EffAddr(m, i.src, i.offset), SizeBytes(i.size))
      case Err(_) => Step(m, Trapped)
      case Ok(v) => Step(Advance(SetReg(m, i.dst, if i.mode == MODE_MEMSX then SignExtend(v, i.size) else v)), Running)
  }

  function ExecStore(m: Machine, i: Insn, v: nat): Step
    requires Shape(m, i)
  {
    match StoreSpec(m.mem, EffAddr(m, i.dst, i.offset), SizeBytes(i.size), v)
    case Err(_) => Step(m, Trapped)
    case Ok(mem) => Step(Advance(m.(mem := mem)), Running)
  }

  function AtomicRegs(m: Machine, i: Insn, old': nat): seq<nat>
    requires Shape(m, i)
  {
    if AtomicOp(i) == 0xF0 then m.regs[0 := old']
    else if Fetches(i) then m.regs[i.src := old']
    else m.regs
  }

  function ExecAtomic(isa: Isa, m: Machine, i: Insn): Step
    requires Shape(m, i)
  {
    var is32 := i.size == SIZE_W;
    var w := if is32 then 4 else 8;
    var a := EffAddr(m, i.dst, i.offset);
    match LoadSpec(m.mem, a, w)
    case Err(_) => Step(m, Trapped)
    case Ok(v) =>
      match StoreSpec(m.mem, a, w, isa.atomic(AtomicOp(i), is32, v, m.regs[i.src], m.regs[0]))
      case Err(_) => Step(m, Trapped)
      case Ok(mem) => Step(Advance(m.(mem := mem, regs := AtomicRegs(m, i, v))), Running)
  }

  function Restored(regs: seq<nat>, saved: seq<nat>): (r: seq<nat>)
    requires |regs| == NREG && |saved| == 5
    ensures |r| == NREG && r[6..] == saved && r[..6] == regs[..6]
  {
    regs[..6] + saved
  }

  function ExecExit(m: Machine): Step
    requires |m.regs| == NREG && (|m.frames| > 0 ==> |m.frames[|m.frames| - 1].saved| == 5)
  {
    if |m.frames| > 0 then
      var top := m.frames[|m.frames| - 1];
      Step(m.(frames := m.frames[..|m.frames| - 1], regs := Restored(m.regs, top.saved), pc := top.ret), Running)
    else Step(m.(state := Returned), Returned)
  }

  function ExecCall(m: Machine, target: nat): Step
    requires |m.regs| == NREG
  {
    if |m.frames| >= CALL_DEPTH then Step(m, Trapped)
    else Step(m.(frames := m.frames + [Frame(m.pc + 1, m.regs[6..])], pc := target), Running)
  }

  /** exec_helper. */
  function ExecHelper(m: Machine, i: Insn): Step
    requires |m.regs| == NREG
  {
    if m.gated && m.regs[1] !in m.granted then Step(m, Trapped)
    else Step(m.(pending := U32(i.imm), state := Waiting), Waiting)
  }

  ghost predicate FramesShaped(m: Machine) {
    forall k :: 0 <= k < |m.frames| ==> |m.frames[k].saved| == 5
  }

  function ExecJmp(isa: Isa, m: Machine, i: Insn, target: nat, is32: bool): Step
    requires Shape(m, i) && FramesShaped(m)
  {
    if i.code == JMP_JA then Step(m.(pc := target), Running)
    else if i.code == JMP_EXIT then ExecExit(m)
    else if i.code == JMP_CALL then (if i.src == 1 then ExecCall(m, target) else ExecHelper(m, i))
    else
      var s := if i.source == 0 then (if is32 then U32(i.imm) else i.imm % W64) else m.regs[i.src];
      Step(if isa.taken(i, is32, m.regs[i.dst], s) then m.(pc := target) else Advance(m), Running)
  }

  function Exec(isa: Isa, m: Machine, i: Insn, target: nat): Step
    requires Shape(m, i) && FramesShaped(m)
  {
    if i.cls == CLS_ALU || i.cls == CLS_ALU64 then ExecAlu(isa, m, i)
    else if i.cls == CLS_LD then ExecLdImm(m, i)
    else if i.cls == CLS_LDX then ExecLdx(m, i)
    else if i.cls == CLS_ST then ExecStore(m, i, i.imm % W64)
    else if i.cls == CLS_STX then (if i.mode == MODE_ATOMIC then ExecAtomic(isa, m, i) else ExecStore(m, i, m.regs[i.src]))
    else if i.cls == CLS_JMP then ExecJmp(isa, m, i, target, false)
    else if i.cls == CLS_JMP32 then ExecJmp(isa, m, i, target, true)
    else Step(m.(state := Trapped), Trapped)
  }

  ghost predicate Fit(p: Program, m: Machine) {
    ProgramOk(p) && |m.regs| == NREG && FramesShaped(m)
  }

  /** bpf_vm_step. */
  ghost function StepSpec(isa: Isa, p: Program, m: Machine): Step
    requires Fit(p, m)
  {
    if m.state == Returned || m.state == Trapped || m.state == Waiting then Step(m, m.state)
    else if m.pc >= |p.ins| then Step(m.(state := Trapped), Trapped)
    else if m.budget == 0 then Step(m.(state := Exhausted), Exhausted)
    else
      assert InsnOk(p.ins[m.pc]);
      Exec(isa, m.(budget := m.budget - 1), p.ins[m.pc], p.rec[m.pc].target)
  }

  // ---- events ----

  datatype Event = Instruction | Complete(status: nat) | SetBudget(budget: nat) | Host(gated: bool, granted: set<nat>)

  /** bpf_vm_complete. */
  function CompleteSpec(m: Machine, status: nat): Machine
    requires |m.regs| == NREG
  {
    if m.state != Waiting then m
    else Advance(m.(regs := [status, 0, 0, 0, 0, 0] + m.regs[6..], state := Running))
  }

  ghost function Apply(isa: Isa, p: Program, m: Machine, e: Event): Machine
    requires Fit(p, m)
  {
    match e
    case Instruction => StepSpec(isa, p, m).m
    case Complete(s) => CompleteSpec(m, s)
    case SetBudget(b) => m.(budget := b)
    case Host(g, h) => m.(gated := g, granted := h)
  }

  // ---- what every event keeps ----

  /** The machine invariant for a frame pointer. */
  ghost predicate Inv(p: Program, m: Machine, fp: nat) {
    && Fit(p, m)
    && m.pc <= |p.ins| && (m.state == Waiting ==> m.pc < |p.ins|)
    && |m.frames| <= CALL_DEPTH
    && (forall k :: 0 <= k < |m.frames| ==> m.frames[k].ret <= |p.ins| && m.frames[k].saved[4] == fp)
    && m.regs[10] == fp
    && RegionsOk(m.mem)
  }

  /** Memory changes only inside writable regions, and its layout never does. */
  ghost predicate MemKept(a: seq<Region>, b: seq<Region>) {
    SameShape(a, b) && forall j :: 0 <= j < |a| && !a[j].writable ==> b[j].bytes == a[j].bytes
  }

  /** The call stack is left alone, pushed with the caller's state, or popped back to it. */
  datatype StackMove = Same | Push | Pop

  ghost predicate Moves(m: Machine, m': Machine, move: StackMove) {
    match move
    case Same => m'.frames == m.frames
    case Push => |m.regs| == NREG && m'.frames == m.frames + [Frame(m.pc + 1, m.regs[6..])]
    case Pop => |m.frames| > 0 && m'.frames == m.frames[..|m.frames| - 1]
                && m'.pc == m.frames[|m.frames| - 1].ret && |m'.regs| == NREG && m'.regs[6..] == m.frames[|m.frames| - 1].saved
  }

  ghost predicate Kept(p: Program, m: Machine, m': Machine, fp: nat) {
    Inv(p, m', fp) && MemKept(m.mem, m'.mem) && exists move :: Moves(m, m', move)
  }

  lemma KeptSame(p: Program, m: Machine, m': Machine, fp: nat)
    requires Inv(p, m', fp) && MemKept(m.mem, m'.mem) && m'.frames == m.frames
    ensures Kept(p, m, m', fp)
  {
    assert Moves(m, m', Same);
  }

  lemma StoreKept(rs: seq<Region>, a: nat, w: nat, v: nat)
    requires RegionsOk(rs) && StoreSpec(rs, a, w, v).Ok?
    ensures RegionsOk(StoreSpec(rs, a, w, v).value) && MemKept(rs, StoreSpec(rs, a, w, v).value)
  {
    StoreWrites(rs, a, w, v);
  }

  /** An instruction that goes on to the next one with new registers and memory. */
  lemma AdvanceKept(p: Program, m: Machine, regs: seq<nat>, mem: seq<Region>, fp: nat)
    requires Inv(p, m, fp) && m.pc < |p.ins| && m.state != Waiting
    requires |regs| == NREG && regs[10] == fp && RegionsOk(mem) && MemKept(m.mem, mem)
    ensures Kept(p, m, Advance(m.(regs := regs, mem := mem)), fp)
  {
    KeptSame(p, m, Advance(m.(regs := regs, mem := mem)), fp);
  }

  lemma DataKept(isa: Isa, p: Program, m: Machine, i: Insn, fp: nat)
    requires Inv(p, m, fp) && m.pc < |p.ins| && m.state != Waiting && InsnOk(i)
    ensures Kept(p, m, ExecAlu(isa, m, i).m, fp) && Kept(p, m, ExecLdImm(m, i).m, fp) && Kept(p, m, ExecLdx(m, i).m, fp)
  {
    KeptSame(p, m, m, fp);
    if i.dst != 10 {
      forall v: nat ensures Kept(p, m, Advance(SetReg(m, i.dst, v)), fp) { AdvanceKept(p, m, m.regs[i.dst := v], m.mem, fp); }
    }
  }

  lemma StoreInsnKept(p: Program, m: Machine, i: Insn, v: nat, fp: nat)
    requires Inv(p, m, fp) && m.pc < |p.ins| && m.state != Waiting && InsnOk(i)
    ensures Kept(p, m, ExecStore(m, i, v).m, fp)
  {
    KeptSame(p, m, m, fp);
    var r := StoreSpec(m.mem, EffAddr(m, i.dst, i.offset), SizeBytes(i.size), v);
    if r.Ok? {
      StoreKept(m.mem, EffAddr(m, i.dst, i.offset), SizeBytes(i.size), v);
      AdvanceKept(p, m, m.regs, r.value, fp);
    }
  }

  /** The loader's check is what protects r10 from atomics. */
  lemma AtomicRegsKept(m: Machine, i: Insn, v: nat)
    requires Shape(m, i) && IsAtomic(i) && !WritesR10(i)
    ensures |AtomicRegs(m, i, v)| == NREG && AtomicRegs(m, i, v)[10] == m.regs[10]
  {
  }

  lemma AtomicKept(isa: Isa, p: Program, m: Machine, i: Insn, fp: nat)
    requires Inv(p, m, fp) && m.pc < |p.ins| && m.state != Waiting && InsnOk(i) && IsAtomic(i)
    ensures Kept(p, m, ExecAtomic(isa, m, i).m, fp)
  {
    KeptSame(p, m, m, fp);
    var is32 := i.size == SIZE_W;
    var w := if is32 then 4 else 8;
    var a := EffAddr(m, i.dst, i.offset);
    var l := LoadSpec(m.mem, a, w);
    if l.Ok? {
      var v := isa.atomic(AtomicOp(i), is32, l.value, m.regs[i.src], m.regs[0]);
      var r := StoreSpec(m.mem, a, w, v);
      if r.Ok? {
        StoreKept(m.mem, a, w, v);
        AtomicRegsKept(m, i, l.value);
        AdvanceKept(p, m, AtomicRegs(m, i, l.value), r.value, fp);
      }
    }
  }

  lemma JmpKept(isa: Isa, p: Program, m: Machine, fp: nat, is32: bool)
    requires Inv(p, m, fp) && m.pc < |p.ins| && m.state != Waiting && (p.ins[m.pc].cls == CLS_JMP || p.ins[m.pc].cls == CLS_JMP32)
    ensures InsnOk(p.ins[m.pc]) && Kept(p, m, ExecJmp(isa, m, p.ins[m.pc], p.rec[m.pc].target, is32).m, fp)
  {
    var i, target := p.ins[m.pc], p.rec[m.pc].target;
    assert InsnOk(i);
    var m' := ExecJmp(isa, m, i, target, is32).m;
    if i.code != JMP_EXIT && (i.code == JMP_CALL ==> i.src == 1) { BranchesResolved(p, m.pc); }
    if i.code == JMP_EXIT && |m.frames| > 0 {
      assert m'.regs[10] == m'.regs[6..][4];
      assert Moves(m, m', Pop);
    } else if i.code == JMP_CALL && i.src == 1 && |m.frames| < CALL_DEPTH {
      assert m.regs[6..][4] == m.regs[10];
      assert Moves(m, m', Push);
    } else {
      KeptSame(p, m, m', fp);
    }
  }

  lemma ExecKept(isa: Isa, p: Program, m: Machine, fp: nat)
    requires Inv(p, m, fp) && m.pc < |p.ins| && m.state != Waiting
    ensures InsnOk(p.ins[m.pc]) && Kept(p, m, Exec(isa, m, p.ins[m.pc], p.rec[m.pc].target).m, fp)
  {
    var i := p.ins[m.pc];
    assert InsnOk(i);
    if i.cls == CLS_JMP || i.cls == CLS_JMP32 {
      JmpKept(isa, p, m, fp, i.cls == CLS_JMP32);
    } else if IsAtomic(i) {
      AtomicKept(isa, p, m, i, fp);
    } else if i.cls == CLS_ST || i.cls == CLS_STX {
      StoreInsnKept(p, m, i, if i.cls == CLS_ST then i.imm % W64 else m.regs[i.src], fp);
    } else if i.cls == CLS_ALU || i.cls == CLS_ALU64 || i.cls == CLS_LD || i.cls == CLS_LDX {
      DataKept(isa, p, m, i, fp);
    } else {
      KeptSame(p, m, m.(state := Trapped), fp);
    }
  }

  lemma MovesIgnoreBudget(m: Machine, m': Machine, b: nat, move: StackMove)
    requires Moves(m.(budget := b), m', move)
    ensures Moves(m, m', move)
  {
  }

  lemma KeptIgnoresBudget(p: Program, m: Machine, m': Machine, b: nat, fp: nat)
    requires Kept(p, m.(budget := b), m', fp)
    ensures Kept(p, m, m', fp)
  {
    var move :| Moves(m.(budget := b), m', move);
    MovesIgnoreBudget(m, m', b, move);
  }

  /** A step keeps what events keep. */
  lemma StepKept(isa: Isa, p: Program, m: Machine, fp: nat)
    requires Inv(p, m, fp)
    ensures Kept(p, m, StepSpec(isa, p, m).m, fp)
  {
    if m.state == Returned || m.state == Trapped || m.state == Waiting {
      KeptSame(p, m, m, fp);
    } else if m.pc >= |p.ins| {
      KeptSame(p, m, m.(state := Trapped), fp);
    } else if m.budget == 0 {
      KeptSame(p, m, m.(state := Exhausted), fp);
    } else {
      PaidKept(isa, p, m, fp);
    }
  }

  lemma PaidKept(isa: Isa, p: Program, m: Machine, fp: nat)
    requires Inv(p, m, fp) && m.pc < |p.ins| && m.state != Waiting && m.budget > 0
    ensures InsnOk(p.ins[m.pc])
    ensures Kept(p, m, Exec(isa, m.(budget := m.budget - 1), p.ins[m.pc], p.rec[m.pc].target).m, fp)
  {
    var paid := m.(budget := m.budget - 1);
    assert Inv(p, paid, fp);
    ExecKept(isa, p, paid, fp);
    KeptIgnoresBudget(p, m, Exec(isa, paid, p.ins[m.pc], p.rec[m.pc].target).m, m.budget - 1, fp);
  }

  /** Every event keeps the invariant, the memory layout and read-only bytes, and the stack discipline. */
  lemma ApplyKept(isa: Isa, p: Program, m: Machine, e: Event, fp: nat)
    requires Inv(p, m, fp)
    ensures Kept(p, m, Apply(isa, p, m, e), fp)
  {
    match e
    case Instruction => StepKept(isa, p, m, fp);
    case Complete(s) => KeptSame(p, m, CompleteSpec(m, s), fp);
    case SetBudget(b) => KeptSame(p, m, m.(budget := b), fp);
    case Host(g, h) => KeptSame(p, m, m.(gated := g, granted := h), fp);
  }

  lemma StepInv(isa: Isa, p: Program, m: Machine, fp: nat)
    requires Inv(p, m, fp)
    ensures Inv(p, StepSpec(isa, p, m).m, fp)
  {
    StepKept(isa, p, m, fp);
  }

  function Start(budget: nat, ctxBase: nat, ctxLen: nat, stack: nat, mem: seq<Region>): Machine {
    Machine(0, budget, [0, ctxBase, ctxLen, 0, 0, 0, 0, 0, 0, 0, stack], [], Running, mem, false, {}, 0)
  }

  lemma StartInv(p: Program, budget: nat, ctxBase: nat, ctxLen: nat, stack: nat, mem: seq<Region>)
    requires ProgramOk(p) && RegionsOk(mem)
    ensures Inv(p, Start(budget, ctxBase, ctxLen, stack, mem), stack)
  {
  }

  // ---- runs ----

  ghost predicate Follows(isa: Isa, p: Program, ms: seq<Machine>, es: seq<Event>, k: int) {
    0 <= k < |es| && |ms| == |es| + 1 && (Fit(p, ms[k]) ==> ms[k + 1] == Apply(isa, p, ms[k], es[k]))
  }

  /** ms are the machines before, between and after the events. */
  ghost predicate IsRun(isa: Isa, p: Program, ms: seq<Machine>, es: seq<Event>) {
    |ms| == |es| + 1 && forall k {:trigger Follows(isa, p, ms, es, k)} :: 0 <= k < |es| ==> Follows(isa, p, ms, es, k)
  }

  ghost predicate Link(p: Program, ms: seq<Machine>, k: int, fp: nat) {
    0 <= k < |ms| - 1 && Kept(p, ms[k], ms[k + 1], fp)
  }

  ghost predicate Holding(p: Program, ms: seq<Machine>, k: int, fp: nat) {
    0 <= k < |ms| && Inv(p, ms[k], fp)
  }

  /** A run starts and stays in the invariant, each event keeping what events keep. */
  lemma {:induction false} RunHolds(isa: Isa, p: Program, ms: seq<Machine>, es: seq<Event>, fp: nat, k: nat)
    requires IsRun(isa, p, ms, es) && Inv(p, ms[0], fp) && k <= |es|
    ensures Holding(p, ms, k, fp) && (k < |es| ==> Link(p, ms, k, fp))
  {
    if k > 0 { RunHolds(isa, p, ms, es, fp, k - 1); }
    if k < |es| {
      assert Follows(isa, p, ms, es, k);
      ApplyKept(isa, p, ms[k], es[k], fp);
    }
  }

  ghost predicate Linked(p: Program, ms: seq<Machine>, fp: nat) {
    && (forall k {:trigger Holding(p, ms, k, fp)} :: 0 <= k < |ms| ==> Holding(p, ms, k, fp))
    && (forall k {:trigger Link(p, ms, k, fp)} :: 0 <= k < |ms| - 1 ==> Link(p, ms, k, fp))
  }

  lemma RunLinked(isa: Isa, p: Program, ms: seq<Machine>, es: seq<Event>, fp: nat)
    requires IsRun(isa, p, ms, es) && Inv(p, ms[0], fp)
    ensures Linked(p, ms, fp)
  {
    forall k | 0 <= k < |ms| ensures Holding(p, ms, k, fp) { RunHolds(isa, p, ms, es, fp, k); }
    forall k | 0 <= k < |ms| - 1 ensures Link(p, ms, k, fp) { RunHolds(isa, p, ms, es, fp, k); }
  }

  lemma MemKeptTrans(a: seq<Region>, b: seq<Region>, c: seq<Region>)
    requires MemKept(a, b) && MemKept(b, c)
    ensures MemKept(a, c)
  {
  }

  lemma {:induction false} LinkedMem(p: Program, ms: seq<Machine>, fp: nat, k: nat)
    requires Linked(p, ms, fp) && k < |ms|
    ensures MemKept(ms[0].mem, ms[k].mem)
  {
    if k > 0 {
      LinkedMem(p, ms, fp, k - 1);
      assert Link(p, ms, k - 1, fp);
      MemKeptTrans(ms[0].mem, ms[k - 1].mem, ms[k].mem);
    }
  }

  /** Over a whole run: pc and return indices stay in the program, the depth within its limit,
      r10, the memory layout and read-only memory never change. */
  lemma RunKeeps(isa: Isa, p: Program, ms: seq<Machine>, es: seq<Event>, fp: nat, k: nat)
    requires IsRun(isa, p, ms, es) && Inv(p, ms[0], fp) && k < |ms|
    ensures ms[k].pc <= |p.ins| && |ms[k].frames| <= CALL_DEPTH && MemKept(ms[0].mem, ms[k].mem)
    ensures |ms[k].regs| == NREG && ms[k].regs[10] == fp
    ensures forall j :: 0 <= j < |ms[k].frames| ==> ms[k].frames[j].ret <= |p.ins|
  {
    RunLinked(isa, p, ms, es, fp);
    LinkedMem(p, ms, fp, k);
    assert Holding(p, ms, k, fp);
  }

  /** From machine a to machine k the stack never came down to d. */
  ghost predicate StaysAbove(ms: seq<Machine>, d: nat, a: nat, k: int) {
    k < |ms| && forall j :: a <= j <= k ==> |ms[j].frames| > d
  }

  /** Then its first d + 1 frames are as they were. */
  lemma {:induction false} FramesStay(p: Program, ms: seq<Machine>, fp: nat, d: nat, a: nat, k: nat)
    requires Linked(p, ms, fp) && a <= k < |ms| && StaysAbove(ms, d, a, k)
    ensures ms[k].frames[..d + 1] == ms[a].frames[..d + 1]
    decreases k
  {
    if a < k {
      FramesStay(p, ms, fp, d, a, k - 1);
      assert Link(p, ms, k - 1, fp);
      var move :| Moves(ms[k - 1], ms[k], move);
      PrefixKept(ms[k - 1], ms[k], move, d);
    }
  }

  lemma PrefixKept(m: Machine, m': Machine, move: StackMove, d: nat)
    requires Moves(m, m', move) && |m.frames| > d && |m'.frames| > d
    ensures m'.frames[..d + 1] == m.frames[..d + 1]
  {
  }

  /** A call made at event a and balanced at event k resumes behind the call with r6 to r10 as they were. */
  lemma BalancedCall(isa: Isa, p: Program, ms: seq<Machine>, es: seq<Event>, fp: nat, a: nat, k: nat)
    requires IsRun(isa, p, ms, es) && Inv(p, ms[0], fp) && a + 1 < k < |ms|
    requires StaysAbove(ms, |ms[a].frames|, a + 1, k - 1) && |ms[k].frames| == |ms[a].frames|
    ensures |ms[a].regs| == NREG && |ms[k].regs| == NREG
    ensures ms[k].pc == ms[a].pc + 1 && ms[k].regs[6..] == ms[a].regs[6..] && ms[k].frames == ms[a].frames
  {
    RunLinked(isa, p, ms, es, fp);
    var d, b, c := |ms[a].frames|, a + 1, k - 1;
    FramesStay(p, ms, fp, d, b, c);
    assert Holding(p, ms, a, fp) && Link(p, ms, a, fp) && Link(p, ms, c, fp);
    var push :| Moves(ms[a], ms[b], push);
    var pop :| Moves(ms[c], ms[k], pop);
    Balanced(ms[a], ms[b], ms[c], ms[k], push, pop, d);
  }

  lemma Balanced(call: Machine, inside: Machine, last: Machine, back: Machine, push: StackMove, pop: StackMove, d: nat)
    requires Moves(call, inside, push) && Moves(last, back, pop) && |call.frames| == d == |back.frames|
    requires |inside.frames| > d && |last.frames| > d && last.frames[..d + 1] == inside.frames[..d + 1]
    requires |call.regs| == NREG
    ensures |back.regs| == NREG && back.pc == call.pc + 1 && back.regs[6..] == call.regs[6..] && back.frames == call.frames
  {
    assert push == Push && pop == Pop;
    assert inside.frames[..d + 1] == inside.frames;
    assert last.frames[..d + 1] == last.frames;
    assert inside.frames[..d] == call.frames;
  }

  // ---- the budget ----

  /** An instruction that leaves the machine running costs one unit. */
  lemma RunningCosts(isa: Isa, p: Program, m: Machine)
    requires Fit(p, m) && StepSpec(isa, p, m).result == Running
    ensures m.budget > 0 && StepSpec(isa, p, m).m.budget == m.budget - 1
  {
    assert InsnOk(p.ins[m.pc]);
    ExecBudget(isa, m.(budget := m.budget - 1), p.ins[m.pc], p.rec[m.pc].target);
  }

  lemma ExecBudget(isa: Isa, m: Machine, i: Insn, target: nat)
    requires Shape(m, i) && FramesShaped(m)
    ensures Exec(isa, m, i, target).m.budget == m.budget
  {
  }

  /** n instructions in a row that all leave the machine running. */
  ghost predicate RunsFor(isa: Isa, p: Program, m: Machine, n: nat, fp: nat)
    requires Inv(p, m, fp)
    decreases n
  {
    n > 0 ==>
      && StepSpec(isa, p, m).result == Running
      && (ApplyKept(isa, p, m, Instruction, fp); RunsFor(isa, p, StepSpec(isa, p, m).m, n - 1, fp))
  }

  /** The budget bounds them. */
  lemma {:induction false} BudgetBounds(isa: Isa, p: Program, m: Machine, n: nat, fp: nat)
    requires Inv(p, m, fp) && RunsFor(isa, p, m, n, fp)
    ensures n <= m.budget
    decreases n
  {
    if n > 0 {
      RunningCosts(isa, p, m);
      ApplyKept(isa, p, m, Instruction, fp);
      BudgetBounds(isa, p, StepSpec(isa, p, m).m, n - 1, fp);
    }
  }

  // ---- traps ----

  lemma LoadStoreIgnoreBudget(m: Machine, i: Insn, v: nat, b: nat)
    requires Shape(m, i)
    ensures ExecLdx(m.(budget := b), i).result == ExecLdx(m, i).result
    ensures ExecStore(m.(budget := b), i, v).result == ExecStore(m, i, v).result
  {
    assert EffAddr(m.(budget := b), i.src, i.offset) == EffAddr(m, i.src, i.offset);
    assert EffAddr(m.(budget := b), i.dst, i.offset) == EffAddr(m, i.dst, i.offset);
  }

  lemma AtomicIgnoresBudget(isa: Isa, m: Machine, i: Insn, b: nat)
    requires Shape(m, i)
    ensures ExecAtomic(isa, m.(budget := b), i).result == ExecAtomic(isa, m, i).result
  {
    assert EffAddr(m.(budget := b), i.dst, i.offset) == EffAddr(m, i.dst, i.offset);
  }

  lemma JmpIgnoresBudget(isa: Isa, m: Machine, i: Insn, target: nat, is32: bool, b: nat)
    requires Shape(m, i) && FramesShaped(m)
    ensures ExecJmp(isa, m.(budget := b), i, target, is32).result == ExecJmp(isa, m, i, target, is32).result
  {
  }

  /** Whether an instruction traps does not depend on the budget. */
  lemma ExecIgnoresBudget(isa: Isa, m: Machine, i: Insn, target: nat, b: nat)
    requires Shape(m, i) && FramesShaped(m)
    ensures Exec(isa, m.(budget := b), i, target).result == Exec(isa, m, i, target).result
  {
    if i.cls == CLS_JMP || i.cls == CLS_JMP32 {
      JmpIgnoresBudget(isa, m, i, target, i.cls == CLS_JMP32, b);
    } else if i.cls == CLS_STX && i.mode == MODE_ATOMIC {
      AtomicIgnoresBudget(isa, m, i, b);
    } else if i.cls == CLS_LDX || i.cls == CLS_ST || i.cls == CLS_STX {
      LoadStoreIgnoreBudget(m, i, if i.cls == CLS_ST then i.imm % W64 else m.regs[i.src], b);
    }
  }

  lemma TrapChangesNothing(isa: Isa, m: Machine, i: Insn, target: nat)
    requires Shape(m, i) && FramesShaped(m) && Exec(isa, m, i, target).result == Trapped
    ensures var m' := Exec(isa, m, i, target).m; m' == m || m' == m.(state := Trapped)
  {
  }

  /** An instruction of a known class never records its trap. */
  lemma ExecRecordsNoTrap(isa: Isa, m: Machine, i: Insn, target: nat)
    requires Shape(m, i) && FramesShaped(m) && i.cls < 8 && m.state != Trapped
    ensures Exec(isa, m, i, target).m.state != Trapped
  {
  }

  /** What a caller can check before a step: a trap there would be recorded. */
  predicate TrapRecorded(p: Program, m: Machine) {
    m.state == Trapped || m.pc >= |p.ins|
  }

  lemma RecordedIff(isa: Isa, p: Program, m: Machine)
    requires Fit(p, m) && StepSpec(isa, p, m).result == Trapped
    ensures StepSpec(isa, p, m).m.state == Trapped <==> TrapRecorded(p, m)
    ensures !TrapRecorded(p, m) ==> m.budget > 0 && StepSpec(isa, p, m).m == m.(budget := m.budget - 1)
    ensures !TrapRecorded(p, m) ==> m.state == Running || m.state == Exhausted
  {
    if !TrapRecorded(p, m) {
      var i, target := p.ins[m.pc], p.rec[m.pc].target;
      assert InsnOk(i);
      var m0 := m.(budget := m.budget - 1);
      TrapChangesNothing(isa, m0, i, target);
      ExecRecordsNoTrap(isa, m0, i, target);
    }
  }

  /** Step k of a run, if it is an instruction, reports the given state. */
  ghost predicate ReportsAt(isa: Isa, p: Program, ms: seq<Machine>, es: seq<Event>, k: int, s: State) {
    0 <= k < |es| && |ms| == |es| + 1 && (es[k].Instruction? ==> Fit(p, ms[k]) && StepSpec(isa, p, ms[k]).result == s)
  }

  /** Whatever happens to the machine from now on, every instruction reports the given state. */
  ghost predicate Forever(isa: Isa, p: Program, m: Machine, s: State) {
    forall ms, es {:trigger IsRun(isa, p, ms, es)} :: IsRun(isa, p, ms, es) && ms[0] == m ==>
      forall k {:trigger ReportsAt(isa, p, ms, es, k, s)} :: 0 <= k < |es| ==> ReportsAt(isa, p, ms, es, k, s)
  }

  ghost predicate Terminal(s: State) {
    s == Trapped || s == Returned
  }

  lemma TerminalKept(isa: Isa, p: Program, m: Machine, e: Event)
    requires Fit(p, m) && Terminal(m.state)
    ensures Apply(isa, p, m, e).state == m.state
  {
  }

  lemma {:induction false} TerminalStays(isa: Isa, p: Program, ms: seq<Machine>, es: seq<Event>, fp: nat, k: nat)
    requires IsRun(isa, p, ms, es) && Inv(p, ms[0], fp) && Terminal(ms[0].state) && k < |ms|
    ensures Inv(p, ms[k], fp) && ms[k].state == ms[0].state
  {
    RunHolds(isa, p, ms, es, fp, k);
    if k > 0 {
      TerminalStays(isa, p, ms, es, fp, k - 1);
      assert Follows(isa, p, ms, es, k - 1);
      TerminalKept(isa, p, ms[k - 1], es[k - 1]);
    }
  }

  /** A terminal state in the machine is terminal for every later event. */
  lemma TerminalForever(isa: Isa, p: Program, m: Machine, fp: nat)
    requires Inv(p, m, fp) && Terminal(m.state)
    ensures Forever(isa, p, m, m.state)
  {
    forall ms, es | IsRun(isa, p, ms, es) && ms[0] == m
      ensures forall k {:trigger ReportsAt(isa, p, ms, es, k, m.state)} :: 0 <= k < |es| ==> ReportsAt(isa, p, ms, es, k, m.state)
    {
      forall k | 0 <= k < |es| ensures ReportsAt(isa, p, ms, es, k, m.state) { TerminalStays(isa, p, ms, es, fp, k); }
    }
  }

  /** A returned machine stays terminal. */
  lemma ReturnedForever(isa: Isa, p: Program, m: Machine, fp: nat)
    requires Inv(p, m, fp) && StepSpec(isa, p, m).result == Returned
    ensures Forever(isa, p, StepSpec(isa, p, m).m, Returned)
  {
    StepInv(isa, p, m, fp);
    if m.state != Returned {
      assert InsnOk(p.ins[m.pc]);
      ReturnRecorded(isa, m.(budget := m.budget - 1), p.ins[m.pc], p.rec[m.pc].target);
    }
    TerminalForever(isa, p, StepSpec(isa, p, m).m, fp);
  }

  lemma ReturnRecorded(isa: Isa, m: Machine, i: Insn, target: nat)
    requires Shape(m, i) && FramesShaped(m)
    ensures Exec(isa, m, i, target).result == Returned ==> Exec(isa, m, i, target).m.state == Returned
  {
  }

  /** Taking the budget away shows that an unrecorded trap is not terminal. */
  lemma UnrecordedNotForever(isa: Isa, p: Program, m: Machine)
    requires Fit(p, m) && m.pc < |p.ins| && (m.state == Running || m.state == Exhausted)
    ensures !Forever(isa, p, m, Trapped)
  {
    var starved := m.(budget := 0);
    var after := StepSpec(isa, p, starved).m;
    var ms, es := [m, starved, after], [SetBudget(0), Instruction];
    assert Follows(isa, p, ms, es, 0) && Follows(isa, p, ms, es, 1);
    assert IsRun(isa, p, ms, es);
    assert !ReportsAt(isa, p, ms, es, 1, Trapped);
  }

  /** A machine that reported a trap stays trapped, over every later run, exactly when the trap was recorded. */
  lemma TrappedForeverIff(isa: Isa, p: Program, m: Machine, fp: nat)
    requires Inv(p, m, fp) && StepSpec(isa, p, m).result == Trapped
    ensures Forever(isa, p, StepSpec(isa, p, m).m, Trapped) <==> TrapRecorded(p, m)
  {
    StepInv(isa, p, m, fp);
    RecordedIff(isa, p, m);
    if TrapRecorded(p, m) {
      TerminalForever(isa, p, StepSpec(isa, p, m).m, fp);
    } else {
      UnrecordedNotForever(isa, p, StepSpec(isa, p, m).m);
    }
  }

  ghost predicate OnlyInstructions(es: seq<Event>) {
    forall k :: 0 <= k < |es| ==> es[k] == Instruction
  }

  lemma ExecTrapRepeats(isa: Isa, m: Machine, i: Insn, target: nat, b: nat)
    requires Shape(m, i) && FramesShaped(m) && i.cls < 8 && m.state != Trapped && Exec(isa, m, i, target).result == Trapped
    ensures Exec(isa, m.(budget := b), i, target) == Step(m.(budget := b), Trapped)
  {
    ExecIgnoresBudget(isa, m, i, target, b);
    TrapChangesNothing(isa, m.(budget := b), i, target);
    ExecRecordsNoTrap(isa, m.(budget := b), i, target);
  }

  lemma TrapIsExec(isa: Isa, p: Program, m: Machine)
    requires Fit(p, m) && StepSpec(isa, p, m).result == Trapped && !TrapRecorded(p, m)
    ensures m.budget > 0 && InsnOk(p.ins[m.pc]) && (m.state == Running || m.state == Exhausted)
    ensures Exec(isa, m.(budget := m.budget - 1), p.ins[m.pc], p.rec[m.pc].target).result == Trapped
  {
    assert InsnOk(p.ins[m.pc]);
  }

  /** A machine about to repeat an unrecorded trap: one unit of budget less and nothing else, or exhausted. */
  lemma RepeatTrap(isa: Isa, p: Program, m: Machine, b: nat)
    requires Fit(p, m) && StepSpec(isa, p, m).result == Trapped && !TrapRecorded(p, m)
    ensures b > 0 ==> StepSpec(isa, p, m.(budget := b)) == Step(m.(budget := b - 1), Trapped)
    ensures b == 0 ==> StepSpec(isa, p, m.(budget := b)) == Step(m.(budget := 0, state := Exhausted), Exhausted)
  {
    TrapIsExec(isa, p, m);
    if b == 0 { StarvedStep(isa, p, m.(budget := 0)); }
    if b > 0 { ExecTrapRepeats(isa, m.(budget := m.budget - 1), p.ins[m.pc], p.rec[m.pc].target, b - 1); }
  }

  /** The step from m traps without recording it. */
  ghost predicate UnrecordedTrap(isa: Isa, p: Program, m: Machine) {
    Fit(p, m) && !TrapRecorded(p, m) && StepSpec(isa, p, m).result == Trapped
  }

  /** The machine k steps after such a trap. */
  function Countdown(m: Machine, k: nat): Machine {
    if k < m.budget then m.(budget := m.budget - 1 - k) else m.(budget := 0, state := Exhausted)
  }

  lemma CountdownStart(isa: Isa, p: Program, m: Machine)
    requires UnrecordedTrap(isa, p, m)
    ensures m.budget > 0 && m.pc < |p.ins| && (m.state == Running || m.state == Exhausted) && StepSpec(isa, p, m).m == Countdown(m, 0)
  {
    RecordedIff(isa, p, m);
  }

  /** The machine's next step once the budget is gone. */
  lemma CountdownEnd(isa: Isa, p: Program, m: Machine, k: nat)
    requires Fit(p, m) && m.pc < |p.ins| && (m.state == Running || m.state == Exhausted) && m.budget > 0 && k >= m.budget
    ensures Fit(p, Countdown(m, k)) && StepSpec(isa, p, Countdown(m, k)) == Step(Countdown(m, k + 1), Exhausted)
  {
    StarvedStep(isa, p, Countdown(m, k));
  }

  lemma CountdownTrap(isa: Isa, p: Program, m: Machine, k: nat)
    requires UnrecordedTrap(isa, p, m) && k < m.budget
    ensures Fit(p, Countdown(m, k))
    ensures StepSpec(isa, p, Countdown(m, k)) == Step(Countdown(m, k + 1), if k < m.budget - 1 then Trapped else Exhausted)
  {
    RepeatTrap(isa, p, m, m.budget - 1 - k);
  }

  lemma CountdownStep(isa: Isa, p: Program, m: Machine, k: nat)
    requires UnrecordedTrap(isa, p, m)
    ensures Fit(p, Countdown(m, k))
    ensures StepSpec(isa, p, Countdown(m, k)) == Step(Countdown(m, k + 1), if k < m.budget - 1 then Trapped else Exhausted)
  {
    CountdownStart(isa, p, m);
    if k < m.budget { CountdownTrap(isa, p, m, k); } else { CountdownEnd(isa, p, m, k); }
  }

  lemma StarvedStep(isa: Isa, p: Program, m: Machine)
    requires Fit(p, m) && m.pc < |p.ins| && m.budget == 0 && (m.state == Running || m.state == Exhausted)
    ensures StepSpec(isa, p, m) == Step(m.(state := Exhausted), Exhausted)
  {
  }

  /** Left alone, an unrecorded trap repeats for exactly the remaining budget and then turns into exhaustion. */
  lemma {:induction false} TrapRunsOut(isa: Isa, p: Program, m: Machine, ms: seq<Machine>, es: seq<Event>, k: nat)
    requires UnrecordedTrap(isa, p, m)
    requires IsRun(isa, p, ms, es) && OnlyInstructions(es) && ms[0] == StepSpec(isa, p, m).m && k < |es|
    ensures ms[k] == Countdown(m, k) && ReportsAt(isa, p, ms, es, k, if k < m.budget - 1 then Trapped else Exhausted)
  {
    CountdownStart(isa, p, m);
    CountdownStep(isa, p, m, k);
    if k > 0 {
      TrapRunsOut(isa, p, m, ms, es, k - 1);
      CountdownStep(isa, p, m, k - 1);
      assert Follows(isa, p, ms, es, k - 1) && es[k - 1] == Instruction;
    }
  }

  /** A faulting load with one unit of budget left: trapped, and then merely exhausted. */
  lemma TrapForgotten(isa: Isa)
    ensures var load := Insn(0x79, CLS_LDX, 0, 0, 3, SIZE_DW, 1, 0, 0, 0, 0, false);
            var p := Program([load], [Rec(0, 0, false, false)]);
            var m := Machine(0, 1, [0, 0, 0, 0, 0, 0, 0, 0, 0, 0, 0], [], Running, [], false, {}, 0);
            && Inv(p, m, 0) && StepSpec(isa, p, m).result == Trapped
            && Fit(p, StepSpec(isa, p, m).m) && StepSpec(isa, p, StepSpec(isa, p, m).m).result == Exhausted
  {
    var load := Insn(0x79, CLS_LDX, 0, 0, 3, SIZE_DW, 1, 0, 0, 0, 0, false);
    var p := Program([load], [Rec(0, 0, false, false)]);
    assert Recorded(p.ins, 0, p.rec[0]);
    assert ProgramOk(p);
  }

  // ---- exits in the 32-bit jump class ----

  /** An instruction of a jump class with nothing but its opcode. */
  function BareJump(op: Byte): Insn {
    Insn(op, op % 8, op / 16, op / 8 % 2, 0, 0, 0, 0, 0, 0, 0, false)
  }

  ghost predicate Bare(raw: seq<Byte>, pos: nat, op: Byte) {
    pos + 8 <= |raw| && raw[pos] == op && forall k :: pos < k < pos + 8 ==> raw[k] == 0
  }

  lemma {:induction false} ZeroValue(b: seq<Byte>)
    requires forall k :: 0 <= k < |b| ==> b[k] == 0
    ensures LeValue(b) == 0
    decreases |b|
  {
    if b != [] { ZeroValue(b[1..]); }
  }

  lemma BareDecodes(raw: seq<Byte>, pos: nat, op: Byte)
    requires Bare(raw, pos, op) && (op % 8 == CLS_JMP || op % 8 == CLS_JMP32)
    ensures DecodedAt(raw, pos, BareJump(op))
  {
    ZeroValue(raw[pos + 2..pos + 4]);
    ZeroValue(raw[pos + 4..pos + 8]);
  }

  const EXIT32: Byte := 0x96
  const EXIT: Byte := 0x95

  /** A lone 32-bit exit is refused, because even an exit of that class needs a branch target. */
  lemma Exit32AloneRefused()
    ensures RawError([EXIT32, 0, 0, 0, 0, 0, 0, 0], Profile(0, None)) == Some(BadBranch)
  {
    var raw, i := [EXIT32, 0, 0, 0, 0, 0, 0, 0], BareJump(EXIT32);
    var ins := [i];
    BareDecodes(raw, 0, EXIT32);
    assert DecodeFrom(raw, 8) == Some([]);
    assert DecodeFrom(raw, 0) == Some([i] + []) && [i] + [] == ins;
    assert DecodeFrom(raw, 0) == Some(ins);
    assert InsnOk(i);
    NoFirstError(ins, 0);
    forall t: nat ensures !LeadsTo(ins, 0, t) { assert SlotOf(ins, 0) == 0; }
    assert !Resolvable(ins, 0);
  }

  /** Followed by another instruction it is accepted, and it ends the program. */
  lemma Exit32Returns(isa: Isa, m: Machine, fp: nat)
    requires m.state == Running && m.budget > 0 && m.pc == 0 && m.frames == [] && |m.regs| == NREG
    ensures var raw, i, j := [EXIT32, 0, 0, 0, 0, 0, 0, 0, EXIT, 0, 0, 0, 0, 0, 0, 0], BareJump(EXIT32), BareJump(EXIT);
            var p := Program([i, j], [Rec(0, 1, true, false), Rec(1, 0, false, false)]);
            && Acceptable(raw, Profile(0, None)) && DecodeFrom(raw, 0) == Some(p.ins)
            && Fit(p, m) && StepSpec(isa, p, m).result == Returned
  {
    var raw, i, j := [EXIT32, 0, 0, 0, 0, 0, 0, 0, EXIT, 0, 0, 0, 0, 0, 0, 0], BareJump(EXIT32), BareJump(EXIT);
    var ins := [i, j];
    var p := Program(ins, [Rec(0, 1, true, false), Rec(1, 0, false, false)]);
    BareDecodes(raw, 0, EXIT32);
    BareDecodes(raw, 8, EXIT);
    assert DecodeFrom(raw, 16) == Some([]);
    assert DecodeFrom(raw, 8) == Some([j] + []) && [j] + [] == [j];
    assert DecodeFrom(raw, 0) == Some([i] + [j]);
    assert ins == [i] + [j] && InsnOk(i) && InsnOk(j);
    assert SlotOf(ins, 0) == 0 && SlotOf(ins, 1) == 1;
    assert LeadsTo(ins, 0, 1);
    assert Resolvable(ins, 0) && Resolvable(ins, 1);
    assert Recorded(ins, 0, p.rec[0]) && Recorded(ins, 1, p.rec[1]);
  }

  // ---- forms without a definition ----

  /** A load-class instruction of mode 3, which the standard does not define, is accepted. */
  lemma UndefinedModeAccepted()
    ensures var i := Insn(0x60, 0, 0, 0, 3, 0, 0, 0, 0, 0, 0, false);
            var raw := [0x60, 0, 0, 0, 0, 0, 0, 0, EXIT, 0, 0, 0, 0, 0, 0, 0];
            && !DefinedForm(i) && Acceptable(raw, Profile(0, None)) && DecodeFrom(raw, 0) == Some([i, BareJump(EXIT)])
  {
    var raw, i, j := [0x60, 0, 0, 0, 0, 0, 0, 0, EXIT, 0, 0, 0, 0, 0, 0, 0], Insn(0x60, 0, 0, 0, 3, 0, 0, 0, 0, 0, 0, false), BareJump(EXIT);
    var ins := [i, j];
    ZeroValue(raw[2..4]);
    ZeroValue(raw[4..8]);
    assert DecodedAt(raw, 0, i);
    BareDecodes(raw, 8, EXIT);
    assert DecodeFrom(raw, 16) == Some([]);
    assert DecodeFrom(raw, 8) == Some([j] + []) && [j] + [] == [j];
    assert DecodeFrom(raw, 0) == Some([i] + [j]);
    assert ins == [i] + [j] && InsnOk(i) && InsnOk(j);
    assert Resolvable(ins, 0) && Resolvable(ins, 1);
  }
}
