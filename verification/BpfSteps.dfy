/** What each kind of instruction does in one step of the machine (libbpf/src/vm.c), on memory seen as a
    byte map and on branches seen as distances in slots. Classes, operations, modes and sizes are the
    numbers of sections 3 to 5 of RFC 9669. */
module BpfSteps {
  import opened Common
  import opened BpfMemory
  import opened BpfDecode
  import opened BpfProgram
  import opened BpfMachine

  /** The next step charges the budget and executes an instruction. */
  ghost predicate Executes(p: Program, m: Machine) {
    Fit(p, m) && RegionsOk(m.mem) && (m.state == Running || m.state == Exhausted) && m.pc < |p.ins| && m.budget > 0
  }

  ghost function Current(p: Program, m: Machine): (i: Insn)
    requires Executes(p, m)
    ensures FieldsOk(i) && i.dst < |m.regs| && i.src < |m.regs| && InsnOk(i)
  {
    assert InsnOk(p.ins[m.pc]);
    p.ins[m.pc]
  }

  ghost function Paid(p: Program, m: Machine): Machine
    requires Executes(p, m)
  {
    m.(budget := m.budget - 1)
  }

  /** Instruction t starts that many slots behind the end of instruction k. */
  ghost predicate Lands(p: Program, k: nat, slots: int, t: nat) {
    k < |p.ins| && t < |p.ins| && SlotOf(p.ins, t) == SlotOf(p.ins, k) + Width(p.ins[k]) + slots
  }

  // ---- settled machines ----

  /** Terminal and waiting machines do not move; leaving the program traps for good; no budget exhausts. */
  lemma NothingExecuted(isa: Isa, p: Program, m: Machine)
    requires Fit(p, m)
    ensures m.state == Returned || m.state == Trapped || m.state == Waiting ==> StepSpec(isa, p, m) == Step(m, m.state)
    ensures m.state == Running || m.state == Exhausted ==>
      && (m.pc >= |p.ins| ==> StepSpec(isa, p, m) == Step(m.(state := Trapped), Trapped))
      && (m.pc < |p.ins| && m.budget == 0 ==> StepSpec(isa, p, m) == Step(m.(state := Exhausted), Exhausted))
  {
  }

  // ---- control ----

  /** The second operand of a comparison: a register, or the immediate extended to 64 bits, with its sign
      unless the comparison is of 32 bits. */
  ghost function Operand(p: Program, m: Machine): int
    requires Executes(p, m)
  {
    var i := Current(p, m);
    if i.source == 1 then m.regs[i.src]
    else if i.cls == 6 then i.imm % 0x1_0000_0000
    else i.imm % 0x1_0000_0000_0000_0000
  }

  /** A conditional jump goes by its offset if the condition holds and to the next instruction otherwise,
      and changes nothing else. */
  lemma ConditionalJump(isa: Isa, p: Program, m: Machine)
    requires Executes(p, m) && (Current(p, m).cls == 5 || Current(p, m).cls == 6)
    requires Current(p, m).code != 0 && Current(p, m).code != 8 && Current(p, m).code != 9
    ensures Operand(p, m) >= 0
    ensures var i, s := Current(p, m), StepSpec(isa, p, m);
            var holds := isa.taken(i, i.cls == 6, m.regs[i.dst], Operand(p, m));
            && s == Step(Paid(p, m).(pc := s.m.pc), Running)
            && (if holds then Lands(p, m.pc, i.offset, s.m.pc) else s.m.pc == m.pc + 1)
  {
    TargetSlot(p, m.pc);
  }

  /** An unconditional jump goes by its offset, in the 32-bit class by its immediate. */
  lemma JumpAlways(isa: Isa, p: Program, m: Machine)
    requires Executes(p, m) && (Current(p, m).cls == 5 || Current(p, m).cls == 6) && Current(p, m).code == 0
    ensures var i, s := Current(p, m), StepSpec(isa, p, m);
            && s == Step(Paid(p, m).(pc := s.m.pc), Running)
            && Lands(p, m.pc, if i.cls == 6 then i.imm else i.offset, s.m.pc)
  {
    TargetSlot(p, m.pc);
  }

  /** A local call saves where to return and r6 to r10 and goes by its immediate, until 64 calls are open. */
  lemma LocalCall(isa: Isa, p: Program, m: Machine)
    requires Executes(p, m) && (Current(p, m).cls == 5 || Current(p, m).cls == 6)
    requires Current(p, m).code == 8 && Current(p, m).src == 1
    ensures var i, s := Current(p, m), StepSpec(isa, p, m);
            if |m.frames| >= 64 then s == Step(Paid(p, m), Trapped)
            else && s == Step(Paid(p, m).(pc := s.m.pc, frames := s.m.frames), Running)
                 && s.m.frames == m.frames + [Frame(m.pc + 1, [m.regs[6], m.regs[7], m.regs[8], m.regs[9], m.regs[10]])]
                 && Lands(p, m.pc, if i.cls == 5 then i.imm else i.offset, s.m.pc)
  {
    TargetSlot(p, m.pc);
    assert m.regs[6..] == [m.regs[6], m.regs[7], m.regs[8], m.regs[9], m.regs[10]];
  }

  /** Any other call waits for the host, unless the gate refuses the handle in r1. */
  lemma HelperCall(isa: Isa, p: Program, m: Machine)
    requires Executes(p, m) && (Current(p, m).cls == 5 || Current(p, m).cls == 6)
    requires Current(p, m).code == 8 && Current(p, m).src != 1
    ensures StepSpec(isa, p, m) ==
      if m.gated && m.regs[1] !in m.granted then Step(Paid(p, m), Trapped)
      else Step(Paid(p, m).(state := Waiting, pending := Current(p, m).imm % 0x1_0000_0000), Waiting)
  {
  }

  /** The host's completion puts its status in r0, clears r1 to r5 and goes on behind the call. */
  lemma Completion(m: Machine, status: nat)
    requires |m.regs| == 11
    ensures m.state != Waiting ==> CompleteSpec(m, status) == m
    ensures m.state == Waiting ==>
      var m' := CompleteSpec(m, status);
      && m' == m.(pc := m.pc + 1, state := Running, regs := m'.regs) && |m'.regs| == 11 && m'.regs[0] == status
      && (forall r :: 1 <= r <= 5 ==> m'.regs[r] == 0) && (forall r :: 6 <= r <= 10 ==> m'.regs[r] == m.regs[r])
  {
  }

  /** An exit returns to the last open call with its saved registers, or ends the program. */
  lemma ExitStep(isa: Isa, p: Program, m: Machine)
    requires Executes(p, m) && (Current(p, m).cls == 5 || Current(p, m).cls == 6) && Current(p, m).code == 9
    ensures var s, n := StepSpec(isa, p, m), |m.frames| - 1;
            if n < 0 then s == Step(Paid(p, m).(state := Returned), Returned)
            else && s == Step(Paid(p, m).(pc := m.frames[n].ret, frames := m.frames[..n], regs := s.m.regs), Running)
                 && |s.m.regs| == 11 && |m.frames[n].saved| == 5
                 && (forall r :: 0 <= r <= 5 ==> s.m.regs[r] == m.regs[r])
                 && (forall r :: 6 <= r <= 10 ==> s.m.regs[r] == m.frames[n].saved[r - 6])
  {
    var n := |m.frames| - 1;
    if n >= 0 {
      var regs := Restored(m.regs, m.frames[n].saved);
      forall r | 0 <= r <= 5 ensures regs[r] == m.regs[r] { assert regs[..6][r] == m.regs[..6][r]; }
      forall r | 6 <= r <= 10 ensures regs[r] == m.frames[n].saved[r - 6] { assert regs[6..][r - 6] == regs[r]; }
    }
  }

  // ---- data ----

  /** The step sets one register, never r10, and goes on to the next instruction. */
  ghost predicate Sets(p: Program, m: Machine, s: Step, r: nat, v: nat)
    requires Executes(p, m)
  {
    r < 10 && s == Step(Paid(p, m).(pc := m.pc + 1, regs := m.regs[r := v]), Running)
  }

  /** Arithmetic never traps in a loaded program. */
  lemma AluStep(isa: Isa, p: Program, m: Machine)
    requires Executes(p, m) && (Current(p, m).cls == 4 || Current(p, m).cls == 7)
    ensures Sets(p, m, StepSpec(isa, p, m), Current(p, m).dst, isa.alu(Current(p, m), m.regs) % 0x1_0000_0000_0000_0000)
  {
  }

  /** A wide load sets the register to the number whose low half is bytes 4 to 7 and whose high half bytes 12 to 15. */
  lemma WideStep(isa: Isa, p: Program, m: Machine, raw: seq<Byte>)
    requires Executes(p, m) && Current(p, m).cls == 0 && Current(p, m).wide
    requires DecodedAt(raw, 8 * SlotOf(p.ins, m.pc), Current(p, m))
    ensures var b := 8 * SlotOf(p.ins, m.pc);
            && b + 16 <= |raw|
            && Sets(p, m, StepSpec(isa, p, m), Current(p, m).dst, LeValue(raw[b + 4..b + 8] + raw[b + 12..b + 16]))
  {
    WideValue(raw, 8 * SlotOf(p.ins, m.pc), Current(p, m));
  }

  lemma WideValue(raw: seq<Byte>, b: nat, i: Insn)
    requires DecodedAt(raw, b, i) && i.wide
    ensures b + 16 <= |raw| && i.nextImm * 0x1_0000_0000 + U32(i.imm) == LeValue(raw[b + 4..b + 8] + raw[b + 12..b + 16])
  {
    SignedFields(raw, b, i);
    FourBytes(raw, b + 4);
    FourBytes(raw, b + 12);
    EightBytes(raw[b + 4..b + 8], raw[b + 12..b + 16]);
  }

  lemma EightBytes(lo: seq<Byte>, hi: seq<Byte>)
    requires |lo| == 4 && |hi| == 4
    ensures LeValue(lo + hi) == LeValue(lo) + 0x1_0000_0000 * LeValue(hi)
  {
    var two, one, last := lo[1..], lo[2..], lo[3..];
    Prepend(lo, two, hi);
    Prepend(two, one, hi);
    Prepend(one, last, hi);
    Prepend(last, [], hi);
    assert [] + hi == hi;
  }

  lemma Prepend(lo: seq<Byte>, rest: seq<Byte>, hi: seq<Byte>)
    requires lo != [] && rest == lo[1..]
    ensures LeValue(lo + hi) == lo[0] + 256 * LeValue(rest + hi) && LeValue(lo) == lo[0] + 256 * LeValue(rest)
  {
    assert (lo + hi)[1..] == rest + hi;
  }

  /** The other instructions of the load class are executed as loads of their immediate, without its sign. */
  lemma NarrowStep(isa: Isa, p: Program, m: Machine)
    requires Executes(p, m) && Current(p, m).cls == 0 && !Current(p, m).wide
    ensures Sets(p, m, StepSpec(isa, p, m), Current(p, m).dst, Current(p, m).imm % 0x1_0000_0000)
  {
  }

  /** 0, 1, 2 and 3 stand for four, two, one and eight bytes. */
  ghost function Bytewidth(size: nat): nat {
    if size == 1 then 2 else if size == 2 then 1 else if size == 3 then 8 else 4
  }

  ghost function Address(m: Machine, r: nat, offset: int): nat
    requires r < |m.regs|
  {
    (m.regs[r] + offset) % 0x1_0000_0000_0000_0000
  }

  ghost function TwosComplement(r: nat): int {
    if r < 0x8000_0000_0000_0000 then r else r - 0x1_0000_0000_0000_0000
  }

  /** As a signed number, r is v modulo twice half, between -half and half. */
  ghost predicate SignExtends(r: nat, v: nat, half: nat) {
    && r < 0x1_0000_0000_0000_0000 && 0 <= TwosComplement(r) + half < 2 * half
    && (TwosComplement(r) == v || TwosComplement(r) + 2 * half == v)
  }

  ghost function Half(size: nat): nat {
    if size == 1 then 0x8000 else if size == 2 then 0x80 else 0x8000_0000
  }

  lemma SignExtendMeans(v: nat, size: nat)
    requires size < 3 && v < 2 * Half(size)
    ensures SignExtends(SignExtend(v, size), v, Half(size))
  {
    assert v % (2 * Half(size)) == v;
    assert (v - 2 * Half(size)) % W64 == if v == 2 * Half(size) then 0 else W64 - 2 * Half(size) + v;
  }

  lemma WidthHalf(size: nat)
    requires size < 3
    ensures Pow256(Bytewidth(size)) == 2 * Half(size)
  {
    assert Pow256(1) == 0x100 && Pow256(2) == 0x1_0000 && Pow256(3) == 0x100_0000 && Pow256(4) == 0x1_0000_0000;
  }

  /** A load reads the byte map, little-endian, inside one region, with its sign in mode 4; elsewhere it traps. */
  lemma LoadStep(isa: Isa, p: Program, m: Machine)
    requires Executes(p, m) && Current(p, m).cls == 1
    ensures var i, s := Current(p, m), StepSpec(isa, p, m);
            var a, w := Address(m, i.src, i.offset), Bytewidth(i.size);
            if OneRegion(m.mem, a, w) then
              && |s.m.regs| == 11 && Sets(p, m, s, i.dst, s.m.regs[i.dst])
              && (if i.mode == 4 then SignExtends(s.m.regs[i.dst], LeValue(FlatBytes(m.mem, a, w)), Half(i.size))
                  else s.m.regs[i.dst] == LeValue(FlatBytes(m.mem, a, w)))
            else s == Step(Paid(p, m), Trapped)
  {
    var i := Current(p, m);
    var a, w := Address(m, i.src, i.offset), Bytewidth(i.size);
    LoadExec(p, m, a, w);
    if OneRegion(m.mem, a, w) {
      LoadIsFlat(m.mem, a, w);
      if i.mode == 4 {
        WidthHalf(i.size);
        SignExtendMeans(LeValue(FlatBytes(m.mem, a, w)), i.size);
      }
    }
  }

  lemma LoadExec(p: Program, m: Machine, a: nat, w: nat)
    requires Executes(p, m) && Current(p, m).cls == 1
    requires a == Address(m, Current(p, m).src, Current(p, m).offset) && w == Bytewidth(Current(p, m).size)
    ensures var i, s := Current(p, m), ExecLdx(Paid(p, m), Current(p, m));
            if OneRegion(m.mem, a, w) then
              var v := LeValue(FlatBytes(m.mem, a, w));
              i.dst < 10 && s == Step(Paid(p, m).(pc := m.pc + 1, regs := m.regs[i.dst := if i.mode == 4 then SignExtend(v, i.size) else v]), Running)
            else s == Step(Paid(p, m), Trapped)
  {
    assert a == EffAddr(Paid(p, m), Current(p, m).src, Current(p, m).offset) && w == SizeBytes(Current(p, m).size);
    LoadIsFlat(m.mem, a, w);
  }

  /** The step writes b at a in the byte map, changes nothing else and goes on to the next instruction. */
  ghost predicate Writes(p: Program, m: Machine, s: Step, a: nat, b: seq<Byte>, regs: seq<nat>)
    requires Executes(p, m)
  {
    && s == Step(Paid(p, m).(pc := m.pc + 1, mem := s.m.mem, regs := regs), Running)
    && SameShape(m.mem, s.m.mem) && Written(m.mem, s.m.mem, a, b)
  }

  ghost predicate MayWrite(m: Machine, a: nat, w: nat)
    requires RegionsOk(m.mem)
  {
    OneRegion(m.mem, a, w) && At(m.mem, a).Some? && At(m.mem, a).value.writable
  }

  lemma MayWriteMeans(m: Machine, a: nat, w: nat, v: nat)
    requires RegionsOk(m.mem) && WidthOk(w)
    ensures StoreSpec(m.mem, a, w, v).Ok? <==> MayWrite(m, a, w)
    ensures MayWrite(m, a, w) ==> LoadSpec(m.mem, a, w) == Ok(LeValue(FlatBytes(m.mem, a, w)))
    ensures StoreSpec(m.mem, a, w, v).Ok? ==>
      SameShape(m.mem, StoreSpec(m.mem, a, w, v).value) && Written(m.mem, StoreSpec(m.mem, a, w, v).value, a, LeBytes(v, w))
  {
    StoreAllowed(m.mem, a, w, v);
    LoadIsFlat(m.mem, a, w);
    if StoreSpec(m.mem, a, w, v).Ok? { StoreWrites(m.mem, a, w, v); }
  }

  /** A store writes the low bytes of its immediate or register into one writable region; elsewhere it traps. */
  lemma StoreStep(isa: Isa, p: Program, m: Machine)
    requires Executes(p, m)
    requires Current(p, m).cls == 2 || (Current(p, m).cls == 3 && Current(p, m).mode != 6)
    ensures var i, s := Current(p, m), StepSpec(isa, p, m);
            var a, w := Address(m, i.dst, i.offset), Bytewidth(i.size);
            var v := if i.cls == 2 then i.imm % 0x1_0000_0000_0000_0000 else m.regs[i.src];
            if MayWrite(m, a, w) then Writes(p, m, s, a, LeBytes(v, w), m.regs) else s == Step(Paid(p, m), Trapped)
  {
    var i := Current(p, m);
    StoreExec(p, m, if i.cls == 2 then i.imm % W64 else m.regs[i.src]);
  }

  lemma StoreExec(p: Program, m: Machine, v: nat)
    requires Executes(p, m)
    ensures var i := Current(p, m);
            var s, a, w := ExecStore(Paid(p, m), i, v), Address(m, i.dst, i.offset), Bytewidth(i.size);
            if MayWrite(m, a, w) then Writes(p, m, s, a, LeBytes(v, w), m.regs) else s == Step(Paid(p, m), Trapped)
  {
    var i := Current(p, m);
    var a, w := Address(m, i.dst, i.offset), Bytewidth(i.size);
    assert a == EffAddr(Paid(p, m), i.dst, i.offset) && w == SizeBytes(i.size);
    MayWriteMeans(m, a, w, v);
  }

  /** An atomic reads and writes one cell of four or eight bytes in one step; the old value goes to r0 for a
      compare-exchange and to the source register for any other operation with the fetch bit. */
  lemma AtomicStep(isa: Isa, p: Program, m: Machine)
    requires Executes(p, m) && Current(p, m).cls == 3 && Current(p, m).mode == 6
    ensures var i, s := Current(p, m), StepSpec(isa, p, m);
            var a, w := Address(m, i.dst, i.offset), if i.size == 0 then 4 else 8;
            var op := i.imm % 256 / 2 * 2;
            if MayWrite(m, a, w) then
              var v := LeValue(FlatBytes(m.mem, a, w));
              Writes(p, m, s, a, LeBytes(isa.atomic(op, i.size == 0, v, m.regs[i.src], m.regs[0]), w),
                     if op == 0xF0 then m.regs[0 := v] else if i.imm % 256 % 2 == 1 then m.regs[i.src := v] else m.regs)
            else s == Step(Paid(p, m), Trapped)
  {
    AtomicBits(Current(p, m));
    AtomicExec(isa, p, m);
  }

  /** The cell was readable, so only its permission decides. */
  lemma AtomicExec(isa: Isa, p: Program, m: Machine)
    requires Executes(p, m)
    ensures var i := Current(p, m);
            var s, a, w := ExecAtomic(isa, Paid(p, m), i), Address(m, i.dst, i.offset), if i.size == 0 then 4 else 8;
            if MayWrite(m, a, w) then
              var v := LeValue(FlatBytes(m.mem, a, w));
              Writes(p, m, s, a, LeBytes(isa.atomic(AtomicOp(i), i.size == 0, v, m.regs[i.src], m.regs[0]), w), AtomicRegs(m, i, v))
            else s == Step(Paid(p, m), Trapped)
  {
    var i := Current(p, m);
    var a, w := Address(m, i.dst, i.offset), if i.size == 0 then 4 else 8;
    assert a == EffAddr(Paid(p, m), i.dst, i.offset);
    match LoadSpec(m.mem, a, w)
    case Err(_) => MayWriteMeans(m, a, w, 0);
    case Ok(v) =>
      var n := isa.atomic(AtomicOp(i), i.size == 0, v, m.regs[i.src], m.regs[0]);
      MayWriteMeans(m, a, w, n);
      AtomicUnfolds(isa, p, m, a, w, v, n);
  }

  lemma AtomicUnfolds(isa: Isa, p: Program, m: Machine, a: nat, w: nat, v: nat, n: nat)
    requires Executes(p, m) && a == EffAddr(Paid(p, m), Current(p, m).dst, Current(p, m).offset)
    requires w == (if Current(p, m).size == 0 then 4 else 8) && LoadSpec(m.mem, a, w) == Ok(v)
    requires n == isa.atomic(AtomicOp(Current(p, m)), Current(p, m).size == 0, v, m.regs[Current(p, m).src], m.regs[0])
    ensures ExecAtomic(isa, Paid(p, m), Current(p, m)) ==
      match StoreSpec(m.mem, a, w, n)
      case Err(_) => Step(Paid(p, m), Trapped)
      case Ok(mem) => Step(Paid(p, m).(pc := m.pc + 1, mem := mem, regs := AtomicRegs(m, Current(p, m), v)), Running)
  {
  }

  // ---- the first machine ----

  /** A new machine stands at the first instruction with the input's address and length in r1 and r2, the
      stack's in r10 and zeros elsewhere. */
  lemma StartMeans(budget: nat, ctxBase: nat, ctxLen: nat, stack: nat, mem: seq<Region>)
    ensures var m := Start(budget, ctxBase, ctxLen, stack, mem);
            && m.pc == 0 && m.budget == budget && m.frames == [] && m.state == Running && m.mem == mem && !m.gated
            && |m.regs| == 11 && m.regs[1] == ctxBase && m.regs[2] == ctxLen && m.regs[10] == stack
            && forall r :: 0 <= r < 10 && r != 1 && r != 2 ==> m.regs[r] == 0
  {
  }
}
