/** The program loader of libbpf (src/program.c and src/validate.c): strict checks, then every
    branch and local call resolved from 64-bit slots to an instruction index. */
module BpfProgram {
  import opened Common
  import opened BpfMemory
  import opened BpfDecode

  const SIZE_W := 0
  const SIZE_H := 1
  const SIZE_B := 2
  const SIZE_DW := 3
  const MODE_ABS := 1
  const MODE_IND := 2
  const MODE_MEMSX := 4
  const MODE_ATOMIC := 6
  const ALU_MUL := 2
  const ALU_DIV := 3
  const ALU_NEG := 8
  const ALU_MOD := 9
  const ALU_MOV := 11
  const ALU_END := 13
  const JMP_JA := 0
  const JMP_CALL := 8
  const JMP_EXIT := 9

  // ---- well-formed instructions ----

  /** reg_err. */
  predicate RegsOk(i: Insn) {
    i.src <= 10 && i.dst <= 10
  }

  /** validate_alu. */
  predicate AluForm(i: Insn) {
    if i.code == ALU_END then (i.cls == CLS_ALU64 ==> i.source == 0) && (i.imm == 16 || i.imm == 32 || i.imm == 64)
    else if i.code == ALU_NEG then i.source == 0
    else if i.code == ALU_MOV then
      i.offset == 0 || ((i.offset == 8 || i.offset == 16 || (i.cls == CLS_ALU64 && i.offset == 32)) && i.source == 1)
    else true
  }

  /** validate_jmp. */
  predicate JmpForm(i: Insn) {
    if i.code == JMP_CALL then i.src <= 2
    else if i.code == JMP_EXIT then i.src == 0 && i.offset == 0 && i.imm == 0
    else true
  }

  /** validate_mem. */
  predicate MemForm(i: Insn) {
    if i.mode == MODE_ABS || i.mode == MODE_IND then false
    else if i.mode == MODE_IMM then i.cls == CLS_LD && i.src == 0
    else if i.mode == MODE_ATOMIC then i.size != SIZE_B && i.size != SIZE_H
    else if i.mode == MODE_MEMSX then i.size != SIZE_DW
    else true
  }

  /** bpf_validate, one instruction. */
  predicate FormOk(i: Insn) {
    && RegsOk(i)
    && (if i.cls == CLS_ALU || i.cls == CLS_ALU64 then AluForm(i)
        else if i.cls == CLS_JMP || i.cls == CLS_JMP32 then JmpForm(i)
        else MemForm(i))
  }

  /** The code with which bpf_validate refuses an instruction. */
  function FormError(i: Insn): Option<LoadError> {
    if !RegsOk(i) then Some(BadRegister)
    else if i.cls == CLS_ALU || i.cls == CLS_ALU64 then
      if AluForm(i) then None else if i.code == ALU_END then Some(BadEndian) else if i.code == ALU_NEG then Some(BadNeg) else Some(BadMovsx)
    else if i.cls == CLS_JMP || i.cls == CLS_JMP32 then
      if JmpForm(i) then None else if i.code == JMP_CALL then Some(BadCall) else Some(BadExit)
    else if MemForm(i) then None
    else if i.mode == MODE_ABS || i.mode == MODE_IND then Some(Deprecated)
    else if i.mode == MODE_IMM && i.cls == CLS_LD then Some(BadImm)
    else Some(BadWidth)
  }

  function U32(x: int): nat {
    x % 0x1_0000_0000
  }

  /** The operation of an atomic: its immediate without the fetch bit, eight bits wide. */
  function AtomicOp(i: Insn): nat {
    U32(i.imm) / 2 % 128 * 2
  }

  predicate Fetches(i: Insn) {
    U32(i.imm) % 2 == 1
  }

  predicate IsAtomic(i: Insn) {
    i.cls == CLS_STX && i.mode == MODE_ATOMIC
  }

  /** check_atomic. */
  predicate AtomicKnown(i: Insn) {
    IsAtomic(i) ==> AtomicOp(i) == 0 || AtomicOp(i) == 0x40 || AtomicOp(i) == 0x50 || AtomicOp(i) == 0xA0 || AtomicOp(i) == 0xE0 || AtomicOp(i) == 0xF0
  }

  /** atomic_writes_src. */
  predicate AtomicWritesSrc(i: Insn) {
    AtomicOp(i) == 0xE0 || (Fetches(i) && AtomicOp(i) != 0xF0)
  }

  predicate WritesR10(i: Insn) {
    || ((i.cls == CLS_ALU || i.cls == CLS_ALU64 || i.cls == CLS_LD || i.cls == CLS_LDX) && i.dst == 10)
    || (IsAtomic(i) && AtomicWritesSrc(i) && i.src == 10)
  }

  predicate InsnOk(i: Insn) {
    FormOk(i) && (IsAluOrJmp(i.cls) ==> i.code < 14) && AtomicKnown(i) && !WritesR10(i)
  }

  /** check_opcode, check_atomic and writes_r10, in the loader's order. */
  function CheckError(i: Insn): Option<LoadError> {
    if IsAluOrJmp(i.cls) && i.code >= 14 then Some(Unsupported)
    else if !AtomicKnown(i) then Some(Unsupported)
    else if WritesR10(i) then Some(WritesFrame)
    else None
  }

  // ---- the same, class by class (sections 4 and 5 of RFC 9669) ----

  /** What makes an instruction acceptable, class by class. Arithmetic: operations, byte swaps, negations and
      sign-extending moves, and r10 is not written. */
  lemma AcceptedAlu(i: Insn)
    requires i.cls == 4 || i.cls == 7
    ensures InsnOk(i) <==>
      && i.dst < 10 && i.src <= 10 && i.code < 14
      && (i.code == 13 ==> (i.imm == 16 || i.imm == 32 || i.imm == 64) && (i.source == 0 || i.cls == 4))
      && (i.code == 8 ==> i.source == 0)
      && (i.code == 11 && i.offset != 0 ==> i.source == 1 && (i.offset == 8 || i.offset == 16 || (i.offset == 32 && i.cls == 7)))
  {
  }

  /** Jumps: calls and exits. */
  lemma AcceptedJmp(i: Insn)
    requires i.cls == 5 || i.cls == 6
    ensures InsnOk(i) <==>
      && i.dst <= 10 && i.src <= 10 && i.code < 14
      && (i.code == 8 ==> i.src <= 2)
      && (i.code == 9 ==> i.src == 0 && i.offset == 0 && i.imm == 0)
  {
  }

  /** Memory: modes, widths and atomic operations, and r10 is not loaded. */
  lemma AcceptedMem(i: Insn)
    requires i.cls < 4 && i.size < 4
    ensures InsnOk(i) <==>
      && i.dst <= 10 && i.src <= 10 && (i.cls < 2 ==> i.dst < 10)
      && i.mode != 1 && i.mode != 2 && (i.mode == 0 ==> i.cls == 0 && i.src == 0)
      && (i.mode == 4 ==> i.size != 3) && (i.mode == 6 ==> i.size == 0 || i.size == 3)
      && (i.cls == 3 && i.mode == 6 ==> AcceptedAtomic(i.imm % 256, i.src))
  {
    if i.cls == 3 && i.mode == 6 { AtomicBits(i); }
  }

  /** Add, or, and, xor with or without fetch, exchange and compare-exchange; what is fetched does not go to r10. */
  ghost predicate AcceptedAtomic(op: nat, src: nat) {
    && op in {0x00, 0x01, 0x40, 0x41, 0x50, 0x51, 0xA0, 0xA1, 0xE0, 0xE1, 0xF0, 0xF1}
    && (op in {0x01, 0x41, 0x51, 0xA1, 0xE0, 0xE1} ==> src != 10)
  }

  /** The operation and its fetch bit, from the low byte of the immediate. */
  lemma AtomicBits(i: Insn)
    ensures AtomicOp(i) == i.imm % 256 / 2 * 2 && (Fetches(i) <==> i.imm % 256 % 2 == 1)
  {
    var u := U32(i.imm);
    LowByte(i.imm, i.imm / 0x1_0000_0000, u);
    HalfByte(u, u / 256, u % 256);
  }

  lemma LowByte(x: int, q: int, u: nat)
    requires x == 0x1_0000_0000 * q + u
    ensures x % 256 == u % 256
  {
    Remainder(x, 0x100_0000 * q + u / 256, u % 256);
  }

  lemma Remainder(x: int, a: int, r: nat)
    requires x == 256 * a + r && r < 256
    ensures x % 256 == r
  {
  }

  lemma HalfByte(u: nat, h: nat, low: nat)
    requires u == 256 * h + low && low < 256
    ensures u / 2 % 128 == low / 2 && u % 2 == low % 2
  {
    assert u / 2 == 128 * h + low / 2;
  }

  /** The forms that section 5 of RFC 9669 defines for memory instructions, legacy packet access aside. */
  predicate DefinedForm(i: Insn)
    requires i.cls < 4
  {
    match i.cls
    case 0 => i.mode == 0 && i.size == 3
    case 1 => i.mode == 3 || (i.mode == 4 && i.size != 3)
    case 2 => i.mode == 3
    case _ => i.mode == 3 || (i.mode == 6 && (i.size == 0 || i.size == 3))
  }

  /** Not all others are refused: exactly these are accepted all the same. */
  lemma UndefinedAccepted(i: Insn)
    requires i.cls < 4 && i.size < 4 && i.mode < 8
    ensures InsnOk(i) && !DefinedForm(i) <==>
      && i.dst <= 10 && i.src <= 10 && (i.cls < 2 ==> i.dst < 10)
      && match i.mode
         case 0 => i.cls == 0 && i.size != 3 && i.src == 0
         case 3 => i.cls == 0
         case 4 => i.cls != 1 && i.size != 3
         case 5 => true
         case 6 => i.cls != 3 && (i.size == 0 || i.size == 3)
         case 7 => true
         case _ => false
  {
    AcceptedMem(i);
  }

  /** Every refusal of bpf_validate by its code; registers come first. */
  lemma RefusalCodes(i: Insn)
    requires i.cls < 8 && i.size < 4
    ensures FormError(i).Some? <==> !FormOk(i)
    ensures FormError(i) == Some(BadRegister) <==> i.dst > 10 || i.src > 10
    ensures FormError(i).Some? ==>
      match FormError(i).value
      case BadRegister => true
      case BadEndian => (i.cls == 4 || i.cls == 7) && i.code == 13
      case BadNeg => (i.cls == 4 || i.cls == 7) && i.code == 8
      case BadMovsx => (i.cls == 4 || i.cls == 7) && i.code == 11
      case BadCall => (i.cls == 5 || i.cls == 6) && i.code == 8
      case BadExit => (i.cls == 5 || i.cls == 6) && i.code == 9
      case Deprecated => i.cls < 4 && (i.mode == 1 || i.mode == 2)
      case BadImm => i.cls == 0 && i.mode == 0 && i.src != 0
      case BadWidth => i.cls < 4 && ((i.mode == 0 && i.cls != 0) || (i.mode == 4 && i.size == 3) || (i.mode == 6 && (i.size == 1 || i.size == 2)))
      case _ => false
  {
  }

  /** The later checks: an operation that does not exist, then a write to r10. */
  lemma CheckCodes(i: Insn)
    requires i.cls < 8
    ensures CheckError(i) == Some(Unsupported) <==>
      (i.cls >= 4 && i.code >= 14) || (i.cls == 3 && i.mode == 6 && i.imm % 256 !in {0x00, 0x01, 0x40, 0x41, 0x50, 0x51, 0xA0, 0xA1, 0xE0, 0xE1, 0xF0, 0xF1})
    ensures CheckError(i).Some? && CheckError(i) != Some(Unsupported) ==> CheckError(i) == Some(WritesFrame)
  {
    AtomicBits(i);
  }

  // ---- conformance groups ----

  datatype Group = Base32 | Base64 | DivMul32 | DivMul64 | Atomic32 | Atomic64 | Packet

  /** bpf_insn_conf: the groups an instruction needs, with the groups these include. */
  function InsnGroups(i: Insn): set<Group> {
    var alu, alu64, jmp := i.cls == CLS_ALU, i.cls == CLS_ALU64, i.cls == CLS_JMP || i.cls == CLS_JMP32;
    var divmul := i.code == ALU_DIV || i.code == ALU_MOD || i.code == ALU_MUL;
    var g := (if alu || i.cls == CLS_JMP32 then {Base32} else {})
           + (if alu64 || i.cls == CLS_JMP || (i.code == ALU_END && i.imm == 64) then {Base64} else {})
           + (if divmul && alu then {DivMul32} else {}) + (if divmul && alu64 then {DivMul64} else {})
           + (if i.mode == MODE_ATOMIC && i.size == SIZE_W then {Atomic32} else {})
           + (if i.mode == MODE_ATOMIC && i.size == SIZE_DW then {Atomic64} else {})
           + (if i.mode == MODE_ABS || i.mode == MODE_IND then {Packet} else {})
           + (if alu || alu64 || jmp then {} else if i.size == SIZE_DW then {Base64} else {Base32});
    g + (if Base64 in g then {Base32} else {}) + (if DivMul64 in g then {DivMul32} else {}) + (if Atomic64 in g then {Atomic32} else {})
  }

  /** What each class needs. An arithmetic or jump instruction of code 13 with immediate 64 always needs the
      64-bit group: it is taken for a byte swap of 64 bits even where it is a 32-bit conditional jump. */
  lemma GroupsNeeded(i: Insn)
    requires i.cls < 8 && i.size < 4 && (i.cls < 4 ==> i.code == 0) && (i.cls >= 4 ==> i.mode == 0)
    ensures i.cls == 4 ==> InsnGroups(i) == {Base32} + (if i.code in {2, 3, 9} then {DivMul32} else {})
                                          + (if i.code == 13 && i.imm == 64 then {Base64} else {})
    ensures i.cls == 7 ==> InsnGroups(i) == {Base32, Base64} + if i.code in {2, 3, 9} then {DivMul32, DivMul64} else {}
    ensures i.cls == 5 ==> InsnGroups(i) == {Base32, Base64}
    ensures i.cls == 6 ==> InsnGroups(i) == {Base32} + if i.code == 13 && i.imm == 64 then {Base64} else {}
    ensures i.cls < 4 && i.size == 3 ==> InsnGroups(i) == {Base32, Base64} + (if i.mode == 6 then {Atomic32, Atomic64} else {})
                                                        + (if i.mode in {1, 2} then {Packet} else {})
    ensures i.cls < 4 && i.size < 3 ==> InsnGroups(i) == {Base32} + (if i.mode == 6 && i.size == 0 then {Atomic32} else {})
                                                       + (if i.mode in {1, 2} then {Packet} else {})
  {
  }

  /** The host's profile: a cap on instructions (zero for none) and the groups it permits (none given for all). */
  datatype Profile = Profile(maxInsn: nat, allowed: Option<set<Group>>)

  ghost predicate Permits(allowed: Option<set<Group>>, ins: seq<Insn>) {
    allowed.Some? ==> forall k :: 0 <= k < |ins| ==> InsnGroups(ins[k]) <= allowed.value
  }

  predicate IsLocalCall(i: Insn) {
    i.cls == CLS_JMP && i.code == JMP_CALL && i.src == 1
  }

  /** branch_delta: how far, in slots, the instruction may transfer control, if it may. */
  function BranchDelta(i: Insn): Option<int> {
    if i.cls == CLS_JMP then
      if i.code == JMP_EXIT then None
      else if i.code == JMP_CALL then (if i.src == 1 then Some(i.imm) else None)
      else Some(i.offset)
    else if i.cls == CLS_JMP32 then Some(if i.code == JMP_JA then i.imm else i.offset)
    else None
  }

  // ---- loaded programs ----

  datatype Rec = Rec(slot: nat, target: nat, hasTarget: bool, localCall: bool)
  datatype Program = Program(ins: seq<Insn>, rec: seq<Rec>)

  /** t is the instruction that starts where the branch at i leads. */
  ghost predicate LeadsTo(ins: seq<Insn>, i: nat, t: nat)
    requires i < |ins|
  {
    t < |ins| && BranchDelta(ins[i]).Some? && SlotOf(ins, t) == SlotOf(ins, i) + Width(ins[i]) + BranchDelta(ins[i]).value
  }

  ghost predicate Resolvable(ins: seq<Insn>, i: nat)
    requires i < |ins|
  {
    BranchDelta(ins[i]).Some? ==> exists t :: LeadsTo(ins, i, t)
  }

  /** Wide instructions lie wholly in the byte string. */
  ghost predicate AllFit(raw: seq<Byte>, ins: seq<Insn>) {
    forall k :: 0 <= k < |ins| && ins[k].wide ==> 8 * SlotOf(ins, k) + WIDE <= |raw|
  }

  lemma DecodedFit(raw: seq<Byte>, ins: seq<Insn>)
    requires DecodeFrom(raw, 0) == Some(ins)
    ensures AllFit(raw, ins) && Fielded(ins)
  {
    forall k | 0 <= k < |ins|
      ensures FieldsOk(ins[k]) && (ins[k].wide ==> 8 * SlotOf(ins, k) + WIDE <= |raw|)
    {
      StartsAt(raw, 0, ins, k);
      OpcodeFields(raw, 8 * SlotOf(ins, k), ins[k]);
    }
  }

  /** If instruction k is wide, the reserved bytes of its second half are zero. */
  ghost predicate Reserved(raw: seq<Byte>, ins: seq<Insn>, k: nat)
    requires k < |ins|
  {
    var p := 8 * SlotOf(ins, k);
    ins[k].wide ==> p + WIDE <= |raw| && WideReserved(raw, p)
  }

  /** What the loader accepts. */
  ghost predicate Acceptable(raw: seq<Byte>, prof: Profile) {
    |raw| > 0 && |raw| % 8 == 0 && DecodeFrom(raw, 0).Some? && AcceptableInsns(raw, DecodeFrom(raw, 0).value, prof)
  }

  ghost predicate AcceptableInsns(raw: seq<Byte>, ins: seq<Insn>, prof: Profile) {
    && (prof.maxInsn != 0 ==> |ins| <= prof.maxInsn)
    && AllReserved(raw, ins, |ins|)
    && (forall k :: 0 <= k < |ins| ==> InsnOk(ins[k]))
    && Permits(prof.allowed, ins)
    && AllResolvable(ins)
  }

  ghost predicate AllResolvable(ins: seq<Insn>) {
    forall k :: 0 <= k < |ins| ==> Resolvable(ins, k)
  }

  /** The first error among the instructions from k on. */
  ghost function FirstForm(ins: seq<Insn>, k: nat): Option<LoadError>
    requires k <= |ins|
    decreases |ins| - k
  {
    if k == |ins| then None else if FormError(ins[k]).Some? then FormError(ins[k]) else FirstForm(ins, k + 1)
  }

  ghost function FirstCheck(ins: seq<Insn>, k: nat): Option<LoadError>
    requires k <= |ins|
    decreases |ins| - k
  {
    if k == |ins| then None else if CheckError(ins[k]).Some? then CheckError(ins[k]) else FirstCheck(ins, k + 1)
  }

  /** The code with which a decoded program is refused: the first check that fails, in the loader's order. */
  ghost function InsnsError(raw: seq<Byte>, ins: seq<Insn>, prof: Profile): Option<LoadError> {
    if prof.maxInsn != 0 && |ins| > prof.maxInsn then Some(TooMany)
    else if !AllReserved(raw, ins, |ins|) then Some(ReservedBits)
    else if FirstForm(ins, 0).Some? then FirstForm(ins, 0)
    else if FirstCheck(ins, 0).Some? then FirstCheck(ins, 0)
    else if !Permits(prof.allowed, ins) then Some(BadProfile)
    else if !AllResolvable(ins) then Some(BadBranch)
    else None
  }

  ghost function RawError(raw: seq<Byte>, prof: Profile): Option<LoadError> {
    if |raw| == 0 then Some(Empty)
    else if |raw| % 8 != 0 || DecodeFrom(raw, 0).None? then Some(Truncated)
    else InsnsError(raw, DecodeFrom(raw, 0).value, prof)
  }

  lemma {:induction false} NoFirstError(ins: seq<Insn>, k: nat)
    requires k <= |ins|
    ensures FirstForm(ins, k).None? && FirstCheck(ins, k).None? <==> forall j :: k <= j < |ins| ==> InsnOk(ins[j])
    ensures FirstForm(ins, k).None? <==> forall j :: k <= j < |ins| ==> FormOk(ins[j])
    decreases |ins| - k
  {
    if k < |ins| {
      NoFirstError(ins, k + 1);
      assert FormError(ins[k]).None? <==> FormOk(ins[k]);
    }
  }

  /** The loader refuses with a code exactly what is not acceptable. */
  lemma ErrorIff(raw: seq<Byte>, prof: Profile)
    ensures RawError(raw, prof).None? <==> Acceptable(raw, prof)
  {
    if DecodeFrom(raw, 0).Some? { NoFirstError(DecodeFrom(raw, 0).value, 0); }
  }

  /** The loader's checks of a decoded program in their order. */
  ghost predicate Fails(raw: seq<Byte>, ins: seq<Insn>, prof: Profile, stage: nat) {
    match stage
    case 0 => prof.maxInsn != 0 && |ins| > prof.maxInsn
    case 1 => !AllReserved(raw, ins, |ins|)
    case 2 => exists k :: 0 <= k < |ins| && !FormOk(ins[k])
    case 3 => exists k :: 0 <= k < |ins| && !InsnOk(ins[k])
    case 4 => !Permits(prof.allowed, ins)
    case _ => !AllResolvable(ins)
  }

  function StageOf(e: LoadError): nat {
    match e
    case TooMany => 0
    case ReservedBits => 1
    case Unsupported => 3
    case WritesFrame => 3
    case BadProfile => 4
    case BadBranch => 5
    case _ => 2
  }

  /** A refusal names the first check that fails, and for instructions the first one that fails it. */
  lemma FirstFailure(raw: seq<Byte>, ins: seq<Insn>, prof: Profile)
    requires Fielded(ins)
    ensures var e := InsnsError(raw, ins, prof);
            && (e.None? <==> forall s: nat :: s < 6 ==> !Fails(raw, ins, prof, s))
            && (e.Some? ==> Fails(raw, ins, prof, StageOf(e.value)) && forall s: nat :: s < StageOf(e.value) ==> !Fails(raw, ins, prof, s))
            && (e.Some? && 2 <= StageOf(e.value) <= 3 ==> exists k :: FirstFault(ins, k, e.value, StageOf(e.value)))
  {
    NoFirstError(ins, 0);
    var e := InsnsError(raw, ins, prof);
    if FirstForm(ins, 0).Some? {
      var k := FirstFormAt(ins, 0);
      assert FirstFault(ins, k, FirstForm(ins, 0).value, 2);
    }
    if FirstCheck(ins, 0).Some? {
      var k := FirstCheckAt(ins, 0);
      assert FirstFault(ins, k, FirstCheck(ins, 0).value, 3);
    }
    if e.Some? {
      assert Fails(raw, ins, prof, StageOf(e.value));
    } else {
      assert !Fails(raw, ins, prof, 2) && !Fails(raw, ins, prof, 3);
    }
  }

  /** Instruction k is the first with a fault of that stage, and e is its code. */
  ghost predicate FirstFault(ins: seq<Insn>, k: int, e: LoadError, stage: nat) {
    0 <= k < |ins| && FaultOf(ins[k], stage) == Some(e) && forall j :: 0 <= j < k ==> FaultOf(ins[j], stage).None?
  }

  function FaultOf(i: Insn, stage: nat): Option<LoadError> {
    if stage == 2 then FormError(i) else CheckError(i)
  }

  lemma {:induction false} FirstFormAt(ins: seq<Insn>, k: nat) returns (j: nat)
    requires k <= |ins| && FirstForm(ins, k).Some?
    ensures k <= j < |ins| && FormError(ins[j]) == FirstForm(ins, k) && StageOf(FirstForm(ins, k).value) == 2
    ensures forall x :: k <= x < j ==> FormError(ins[x]).None?
    decreases |ins| - k
  {
    if FormError(ins[k]).Some? { j := k; } else { j := FirstFormAt(ins, k + 1); }
  }

  lemma {:induction false} FirstCheckAt(ins: seq<Insn>, k: nat) returns (j: nat)
    requires k <= |ins| && FirstCheck(ins, k).Some?
    ensures k <= j < |ins| && CheckError(ins[j]) == FirstCheck(ins, k) && StageOf(FirstCheck(ins, k).value) == 3
    ensures forall x :: k <= x < j ==> CheckError(ins[x]).None?
    decreases |ins| - k
  {
    if CheckError(ins[k]).Some? { j := k; } else { j := FirstCheckAt(ins, k + 1); }
  }

  /** Slots of instructions, and targets of exactly those that branch. */
  ghost predicate Recorded(ins: seq<Insn>, k: nat, r: Rec)
    requires k < |ins|
  {
    && r.slot == SlotOf(ins, k) && r.localCall == IsLocalCall(ins[k])
    && r.hasTarget == BranchDelta(ins[k]).Some?
    && (r.hasTarget ==> LeadsTo(ins, k, r.target))
  }

  /** What decoding gives every instruction. */
  predicate FieldsOk(i: Insn) {
    i.cls < 8 && i.size < 4 && i.source < 2 && (!i.wide ==> i.nextImm == 0)
  }

  ghost predicate Fielded(ins: seq<Insn>) {
    forall k :: 0 <= k < |ins| ==> FieldsOk(ins[k])
  }

  ghost predicate ProgramOk(p: Program) {
    && |p.ins| == |p.rec| && Fielded(p.ins)
    && (forall k :: 0 <= k < |p.ins| ==> InsnOk(p.ins[k]))
    && (forall k :: 0 <= k < |p.ins| ==> Recorded(p.ins, k, p.rec[k]))
  }

  /** No two instructions start at one slot, so a target is unique, and never inside a wide one. */
  lemma TargetUnique(ins: seq<Insn>, i: nat, t: nat, u: nat)
    requires i < |ins| && LeadsTo(ins, i, t) && LeadsTo(ins, i, u)
    ensures t == u
  {
    if t < u { SlotsIncrease(ins, t, u); }
    if u < t { SlotsIncrease(ins, u, t); }
  }

  lemma NotInside(ins: seq<Insn>, i: nat, t: nat, j: nat)
    requires i < |ins| && LeadsTo(ins, i, t) && j < |ins|
    ensures !(SlotOf(ins, j) < SlotOf(ins, t) < SlotOf(ins, j) + Width(ins[j]))
  {
    if j < t { SlotsIncrease(ins, j, t); }
    if t < j { SlotsIncrease(ins, t, j); }
  }

  /** What the machine branches on has a target. */
  lemma BranchesResolved(p: Program, k: nat)
    requires ProgramOk(p) && k < |p.ins| && (p.ins[k].cls == CLS_JMP || p.ins[k].cls == CLS_JMP32)
    requires p.ins[k].code != JMP_EXIT && (p.ins[k].code == JMP_CALL ==> p.ins[k].src == 1)
    ensures p.rec[k].hasTarget && p.rec[k].target < |p.ins|
  {
    assert Recorded(p.ins, k, p.rec[k]);
  }

  /** Which instructions get a target, and how many slots on it lies: local calls and 32-bit unconditional
      jumps count by their immediate, all other branches by their offset. */
  lemma TargetSlot(p: Program, k: nat)
    requires ProgramOk(p) && k < |p.ins|
    ensures var i, r := p.ins[k], p.rec[k];
            && (r.hasTarget <==> i.cls == 6 || (i.cls == 5 && i.code != 9 && (i.code == 8 ==> i.src == 1)))
            && (r.hasTarget ==> r.target < |p.ins|)
            && (r.hasTarget ==> SlotOf(p.ins, r.target) == SlotOf(p.ins, k) + Width(i)
                                 + if (i.cls == 5 && i.code == 8) || (i.cls == 6 && i.code == 0) then i.imm else i.offset)
  {
    assert Recorded(p.ins, k, p.rec[k]);
  }

  // ---- the passes ----

  ghost predicate SlotRec(ins: seq<Insn>, k: nat, r: Rec)
    requires k < |ins|
  {
    r == Rec(SlotOf(ins, k), 0, false, IsLocalCall(ins[k]))
  }

  /** The slot pass: start slots, local calls, and the reserved bytes of wide instructions. */
  method SlotPass(raw: seq<Byte>, ins: seq<Insn>, rec: array<Rec>) returns (ok: bool)
    requires AllFit(raw, ins) && rec.Length == |ins|
    modifies rec
    ensures ok <==> AllReserved(raw, ins, |ins|)
    ensures ok ==> forall k :: 0 <= k < |ins| ==> SlotRec(ins, k, rec[k])
  {
    var cursor := 0;
    for i := 0 to |ins|
      invariant cursor == 8 * SlotOf(ins, i)
      invariant forall k :: 0 <= k < i ==> SlotRec(ins, k, rec[k])
      invariant AllReserved(raw, ins, i)
    {
      ReservedMeans(raw, ins, i, cursor);
      rec[i] := Rec(cursor / 8, 0, false, IsLocalCall(ins[i]));
      if ins[i].wide {
        if !WideReserved(raw, cursor) { return false; }
        cursor := cursor + WIDE;
      } else {
        cursor := cursor + BASIC;
      }
    }
    return true;
  }

  lemma ReservedMeans(raw: seq<Byte>, ins: seq<Insn>, k: nat, p: nat)
    requires AllFit(raw, ins) && k < |ins| && p == 8 * SlotOf(ins, k)
    ensures ins[k].wide ==> p + WIDE <= |raw|
    ensures Reserved(raw, ins, k) <==> (ins[k].wide ==> WideReserved(raw, p))
    ensures AllReserved(raw, ins, k + 1) <==> AllReserved(raw, ins, k) && Reserved(raw, ins, k)
    ensures AllReserved(raw, ins, |ins|) ==> Reserved(raw, ins, k)
    ensures p / 8 == SlotOf(ins, k) && 8 * SlotOf(ins, k + 1) == p + Bytes(ins[k])
  {
  }

  /** bpf_validate: the first ill-formed instruction decides. */
  method ValidatePass(ins: seq<Insn>) returns (e: Option<LoadError>)
    ensures e == FirstForm(ins, 0)
  {
    for i := 0 to |ins|
      invariant FirstForm(ins, 0) == FirstForm(ins, i)
    {
      e := FormError(ins[i]);
      if e.Some? { return; }
    }
    return None;
  }

  /** The operation, atomic and frame-pointer checks. */
  method CheckPass(ins: seq<Insn>) returns (e: Option<LoadError>)
    ensures e == FirstCheck(ins, 0)
  {
    for i := 0 to |ins|
      invariant FirstCheck(ins, 0) == FirstCheck(ins, i)
    {
      e := CheckError(ins[i]);
      if e.Some? { return; }
    }
    return None;
  }

  /** The conformance fold and the profile check. */
  method ProfilePass(ins: seq<Insn>, allowed: Option<set<Group>>) returns (ok: bool)
    ensures ok <==> Permits(allowed, ins)
  {
    var conf: set<Group> := {};
    for i := 0 to |ins|
      invariant forall g :: g in conf <==> exists k :: 0 <= k < i && g in InsnGroups(ins[k])
    {
      conf := conf + InsnGroups(ins[i]);
    }
    if allowed.None? { return true; }
    ok := conf <= allowed.value;
    if Permits(allowed, ins) {
      forall g | g in conf ensures g in allowed.value { var k :| 0 <= k < |ins| && g in InsnGroups(ins[k]); }
    }
    if ok {
      forall k | 0 <= k < |ins| ensures InsnGroups(ins[k]) <= allowed.value {}
    }
  }

  /** slot_index: the last record that starts at the slot. */
  method SlotIndex(rec: array<Rec>, slot: int) returns (r: Option<nat>)
    ensures r.Some? ==> r.value < rec.Length && rec[r.value].slot == slot
    ensures r.None? ==> forall j :: 0 <= j < rec.Length ==> rec[j].slot != slot
  {
    r := None;
    for j := 0 to rec.Length
      invariant r.Some? ==> r.value < j && rec[r.value].slot == slot
      invariant r.None? ==> forall k :: 0 <= k < j ==> rec[k].slot != slot
    {
      if rec[j].slot == slot { r := Some(j); }
    }
  }

  ghost predicate SlotsOk(ins: seq<Insn>, rec: seq<Rec>) {
    |rec| == |ins| && forall k :: 0 <= k < |ins| ==> rec[k].slot == SlotOf(ins, k) && rec[k].localCall == IsLocalCall(ins[k])
  }

  /** One branch: refused unless its destination lies in the program and starts an instruction. */
  method ResolveOne(ins: seq<Insn>, rec: array<Rec>, i: nat, total: nat) returns (t: Option<nat>)
    requires SlotsOk(ins, rec[..]) && i < |ins| && BranchDelta(ins[i]).Some? && total == SlotOf(ins, |ins|)
    ensures t.Some? <==> Resolvable(ins, i)
    ensures t.Some? ==> LeadsTo(ins, i, t.value)
  {
    var delta := BranchDelta(ins[i]).value;
    var ts := rec[i].slot + Width(ins[i]) + delta;
    assert rec[..][i] == rec[i];
    LeadsInside(ins, i);
    if ts < 0 || ts >= total { return None; }
    t := SlotIndex(rec, ts);
    if t.Some? {
      assert rec[..][t.value] == rec[t.value];
      assert LeadsTo(ins, i, t.value);
    } else {
      LeadsNowhere(ins, rec[..], i, ts);
    }
  }

  lemma LeadsInside(ins: seq<Insn>, i: nat)
    requires i < |ins|
    ensures forall u: nat {:trigger LeadsTo(ins, i, u)} :: LeadsTo(ins, i, u) ==>
      0 <= SlotOf(ins, i) + Width(ins[i]) + BranchDelta(ins[i]).value < SlotOf(ins, |ins|)
  {
    forall u: nat | LeadsTo(ins, i, u)
      ensures 0 <= SlotOf(ins, i) + Width(ins[i]) + BranchDelta(ins[i]).value < SlotOf(ins, |ins|)
    {
      SlotsIncrease(ins, u, |ins|);
    }
  }

  lemma LeadsNowhere(ins: seq<Insn>, rec: seq<Rec>, i: nat, ts: int)
    requires SlotsOk(ins, rec) && i < |ins| && BranchDelta(ins[i]).Some? && ts == SlotOf(ins, i) + Width(ins[i]) + BranchDelta(ins[i]).value
    requires forall j :: 0 <= j < |rec| ==> rec[j].slot != ts
    ensures !Resolvable(ins, i)
  {
    forall u: nat ensures !LeadsTo(ins, i, u) { if u < |ins| { assert rec[u].slot != ts; } }
  }

  /** The resolution pass. */
  method ResolvePass(ins: seq<Insn>, rec: array<Rec>, total: nat) returns (ok: bool)
    requires rec.Length == |ins| && (forall k :: 0 <= k < |ins| ==> SlotRec(ins, k, rec[k])) && total == SlotOf(ins, |ins|)
    modifies rec
    ensures ok <==> AllResolvable(ins)
    ensures ok ==> forall k :: 0 <= k < |ins| ==> Recorded(ins, k, rec[k])
  {
    for i := 0 to |ins|
      invariant SlotsOk(ins, rec[..])
      invariant forall k :: 0 <= k < i ==> Resolvable(ins, k) && Recorded(ins, k, rec[k])
      invariant forall k :: i <= k < |ins| ==> !rec[k].hasTarget
    {
      if BranchDelta(ins[i]).Some? {
        var t := ResolveOne(ins, rec, i, total);
        if t.None? { return false; }
        ghost var before := rec[..];
        assert before[i] == rec[i];
        rec[i] := rec[i].(target := t.value, hasTarget := true);
        assert rec[..] == before[i := rec[i]];
      } else {
        assert rec[..][i] == rec[i];
      }
      assert Recorded(ins, i, rec[i]);
    }
    return true;
  }

  datatype LoadResult = Loaded(program: Program) | Refused(error: LoadError)

  /** The passes over a decoded program. */
  method LoadInsns(raw: seq<Byte>, ins: seq<Insn>, prof: Profile) returns (r: LoadResult)
    requires AllFit(raw, ins) && Fielded(ins) && 8 * SlotOf(ins, |ins|) == |raw|
    ensures r.Refused? ==> InsnsError(raw, ins, prof) == Some(r.error)
    ensures r.Loaded? ==> InsnsError(raw, ins, prof) == None && r.program.ins == ins && ProgramOk(r.program)
  {
    var n := |ins|;
    if prof.maxInsn != 0 && n > prof.maxInsn { return Refused(TooMany); }
    var rec := new Rec[n](i => Rec(0, 0, false, false));
    var ok := SlotPass(raw, ins, rec);
    if !ok { return Refused(ReservedBits); }
    var e := ValidatePass(ins);
    if e.Some? { return Refused(e.value); }
    e := CheckPass(ins);
    if e.Some? { return Refused(e.value); }
    NoFirstError(ins, 0);
    ok := ProfilePass(ins, prof.allowed);
    if !ok { return Refused(BadProfile); }
    ok := ResolvePass(ins, rec, |raw| / 8);
    if !ok { return Refused(BadBranch); }
    return Loaded(Program(ins, rec[..]));
  }

  /** bpf_program_load. */
  method Load(raw: seq<Byte>, prof: Profile) returns (r: LoadResult)
    ensures r.Loaded? <==> Acceptable(raw, prof)
    ensures r.Refused? ==> RawError(raw, prof) == Some(r.error)
    ensures r.Loaded? ==> ProgramOk(r.program) && DecodeFrom(raw, 0) == Some(r.program.ins)
    ensures r.Loaded? ==> 8 * SlotOf(r.program.ins, |r.program.ins|) == |raw|
  {
    ErrorIff(raw, prof);
    if |raw| == 0 { return Refused(Empty); }
    if |raw| % 8 != 0 { return Refused(Truncated); }
    var out := new Insn[|raw| / 8](i => Insn(0, 0, 0, 0, 0, 0, 0, 0, 0, 0, 0, false));
    var e, n := Decode(raw, out);
    FitsCapacity(raw);
    if e.Some? { return Refused(e.value); }
    WidthsSum(raw, 0);
    DecodedFit(raw, out[..n]);
    r := LoadInsns(raw, out[..n], prof);
  }

  /** There are never more instructions than 64-bit slots. */
  lemma FitsCapacity(raw: seq<Byte>)
    ensures DecodeFrom(raw, 0).Some? ==> |DecodeFrom(raw, 0).value| <= |raw| / 8
  {
    if DecodeFrom(raw, 0).Some? {
      WidthsSum(raw, 0);
      CountBelowSlots(DecodeFrom(raw, 0).value, |DecodeFrom(raw, 0).value|);
    }
  }

  lemma {:induction false} CountBelowSlots(ins: seq<Insn>, k: nat)
    requires k <= |ins|
    ensures k <= SlotOf(ins, k)
  {
    if k > 0 { CountBelowSlots(ins, k - 1); }
  }

  // ---- nothing of an accepted program is lost ----

  ghost predicate AllReserved(raw: seq<Byte>, ins: seq<Insn>, n: nat) {
    n <= |ins| && forall k :: 0 <= k < n ==> Reserved(raw, ins, k)
  }

  /** The bytes of instruction k are its encoding. */
  ghost predicate EncodedHere(raw: seq<Byte>, ins: seq<Insn>, k: nat)
    requires k < |ins|
  {
    var p := 8 * SlotOf(ins, k);
    Encodable(ins[k]) && p + Bytes(ins[k]) <= |raw| && EncodeInsn(ins[k]) == raw[p..p + Bytes(ins[k])]
  }

  lemma EncodedAt(raw: seq<Byte>, ins: seq<Insn>, k: nat)
    requires DecodeFrom(raw, 0) == Some(ins) && k < |ins| && Reserved(raw, ins, k) && 8 * SlotOf(ins, |ins|) == |raw|
    ensures EncodedHere(raw, ins, k)
  {
    SlotsIncrease(ins, k, |ins|);
    StartsAt(raw, 0, ins, k);
    EncodeDecoded(raw, 8 * SlotOf(ins, k), ins[k]);
  }

  lemma {:induction false} EncodedFrom(raw: seq<Byte>, ins: seq<Insn>, k: nat)
    requires k <= |ins| && (forall j :: 0 <= j < |ins| ==> EncodedHere(raw, ins, j)) && 8 * SlotOf(ins, |ins|) == |raw|
    ensures 8 * SlotOf(ins, k) <= |raw| && AllEncodable(ins[k..]) && EncodeAll(ins[k..]) == raw[8 * SlotOf(ins, k)..]
    decreases |ins| - k
  {
    if k < |ins| {
      var i, rest, p := ins[k], ins[k + 1..], 8 * SlotOf(ins, k);
      EncodedFrom(raw, ins, k + 1);
      assert EncodedHere(raw, ins, k);
      EncodeCons(i, rest);
      assert ins[k..] == [i] + rest;
      assert raw[p..] == raw[p..p + Bytes(i)] + raw[p + Bytes(i)..];
    }
  }

  lemma EncodeCons(i: Insn, rest: seq<Insn>)
    requires Encodable(i) && AllEncodable(rest)
    ensures AllEncodable([i] + rest) && EncodeAll([i] + rest) == EncodeInsn(i) + EncodeAll(rest)
  {
    assert ([i] + rest)[1..] == rest;
  }

  /** An accepted byte string is exactly the encoding of the loaded instructions. */
  lemma AcceptedIsEncoding(raw: seq<Byte>, ins: seq<Insn>, prof: Profile)
    requires Acceptable(raw, prof) && DecodeFrom(raw, 0) == Some(ins)
    ensures AllEncodable(ins) && EncodeAll(ins) == raw
  {
    WidthsSum(raw, 0);
    forall k | 0 <= k < |ins| ensures EncodedHere(raw, ins, k) { EncodedAt(raw, ins, k); }
    EncodedFrom(raw, ins, 0);
    assert ins[0..] == ins && raw[0..] == raw;
  }
}
