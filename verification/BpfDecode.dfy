/** Instruction framing of eBPF byte code (libbpf/src/decode.c, section 3 of RFC 9669). */
module BpfDecode {
  import opened Common
  import opened BpfMemory

  const BASIC: nat := 8
  const WIDE: nat := 16

  const CLS_LD := 0
  const CLS_LDX := 1
  const CLS_ST := 2
  const CLS_STX := 3
  const CLS_ALU := 4
  const CLS_JMP := 5
  const CLS_JMP32 := 6
  const CLS_ALU64 := 7

  const MODE_IMM := 0

  datatype Insn = Insn(opcode: Byte, cls: nat, code: nat, source: nat, mode: nat, size: nat,
                       src: nat, dst: nat, offset: int, imm: int, nextImm: nat, wide: bool)

  function Signed(u: nat, half: nat): int {
    if u >= half then u - 2 * half else u
  }

  function Unsigned(i: int, half: nat): nat
    requires 0 <= i + half < 2 * half
  {
    if i < 0 then i + 2 * half else i
  }

  const HALF16: nat := 0x8000
  const HALF32: nat := 0x8000_0000

  predicate IsWide(op: Byte) {
    op % 8 == CLS_LD && op / 32 == MODE_IMM
  }

  predicate IsAluOrJmp(cls: nat) {
    cls == CLS_ALU || cls == CLS_ALU64 || cls == CLS_JMP || cls == CLS_JMP32
  }

  /** The fields of the instruction at pos. */
  function DecodeAt(raw: seq<Byte>, pos: nat): Insn
    requires pos + BASIC <= |raw| && (IsWide(raw[pos]) ==> pos + WIDE <= |raw|)
  {
    var op := raw[pos];
    var cls := op % 8;
    var offset := Signed(LeValue(raw[pos + 2..pos + 4]), HALF16);
    var imm := Signed(LeValue(raw[pos + 4..pos + 8]), HALF32);
    var src, dst := raw[pos + 1] / 16, raw[pos + 1] % 16;
    if IsWide(op) then
      Insn(op, cls, op / 32, 0, MODE_IMM, op / 8 % 4, src, dst, offset, imm, LeValue(raw[pos + 12..pos + 16]), true)
    else if IsAluOrJmp(cls) then
      Insn(op, cls, op / 16, op / 8 % 2, 0, 0, src, dst, offset, imm, 0, false)
    else
      Insn(op, cls, 0, 0, op / 32, op / 8 % 4, src, dst, offset, imm, 0, false)
  }

  function Bytes(i: Insn): nat {
    if i.wide then WIDE else BASIC
  }

  function Width(i: Insn): nat {
    if i.wide then 2 else 1
  }

  /** The whole byte string from pos on, or nothing if it is cut short. */
  ghost function DecodeFrom(raw: seq<Byte>, pos: nat): Option<seq<Insn>>
    requires pos <= |raw|
    decreases |raw| - pos
  {
    if pos == |raw| then Some([])
    else if |raw| - pos < BASIC || (IsWide(raw[pos]) && |raw| - pos < WIDE) then None
    else
      var i := DecodeAt(raw, pos);
      var rest := DecodeFrom(raw, pos + Bytes(i));
      if rest.Some? then Some([i] + rest.value) else None
  }

  /** The codes with which loading refuses a program. */
  datatype LoadError = Empty | Truncated | TooMany | ReservedBits
                     | BadRegister | BadEndian | BadNeg | BadMovsx | BadCall | BadExit | Deprecated | BadWidth | BadImm
                     | Unsupported | WritesFrame | BadProfile | BadBranch

  /** The whole decodes exactly when the rest from pos does, and then starts with what is done. */
  ghost predicate Continues(raw: seq<Byte>, pos: nat, done: seq<Insn>) {
    && pos <= |raw|
    && var all, rest := DecodeFrom(raw, 0), DecodeFrom(raw, pos);
       (all.Some? <==> rest.Some?) && (all.Some? ==> all.value == done + rest.value)
  }

  /** One instruction moves from the rest to what has been decoded. */
  lemma ContinueStep(raw: seq<Byte>, pos: nat, done: seq<Insn>, i: Insn)
    requires Continues(raw, pos, done) && DecodedAt(raw, pos, i)
    ensures pos + Bytes(i) <= |raw| && Continues(raw, pos + Bytes(i), done + [i])
  {
    var rest := DecodeFrom(raw, pos);
    if rest.Some? { assert done + rest.value == (done + [i]) + rest.value[1..]; }
  }

  lemma CutShort(raw: seq<Byte>, pos: nat, done: seq<Insn>)
    requires Continues(raw, pos, done) && pos < |raw| && (|raw| - pos < BASIC || (IsWide(raw[pos]) && |raw| - pos < WIDE))
    ensures DecodeFrom(raw, 0).None?
  {
  }

  lemma MoreToCome(raw: seq<Byte>, pos: nat, done: seq<Insn>)
    requires Continues(raw, pos, done) && pos < |raw|
    ensures DecodeFrom(raw, 0).Some? ==> |DecodeFrom(raw, 0).value| > |done|
  {
  }

  ghost predicate DecodedAt(raw: seq<Byte>, p: nat, i: Insn) {
    p + BASIC <= |raw| && (IsWide(raw[p]) ==> p + WIDE <= |raw|) && i == DecodeAt(raw, p)
  }

  /** The body of bpf_decode's loop: one instruction, if it is all there. */
  method DecodeOne(raw: seq<Byte>, pos: nat) returns (i: Option<Insn>)
    requires pos + BASIC <= |raw|
    ensures i.None? <==> IsWide(raw[pos]) && |raw| - pos < WIDE
    ensures i.Some? ==> DecodedAt(raw, pos, i.value)
  {
    if IsWide(raw[pos]) && |raw| - pos < WIDE { return None; }
    return Some(DecodeAt(raw, pos));
  }

  /** bpf_decode: fills out from the front. */
  method Decode(raw: seq<Byte>, out: array<Insn>) returns (e: Option<LoadError>, n: nat)
    modifies out
    ensures e.None? <==> DecodeFrom(raw, 0).Some? && |DecodeFrom(raw, 0).value| <= out.Length
    ensures e.Some? && |raw| / 8 <= out.Length ==> e == Some(Truncated)
    ensures e.None? ==> n <= out.Length && out[..n] == DecodeFrom(raw, 0).value
  {
    var consumed := 0;
    n := 0;
    while consumed < |raw|
      invariant n <= out.Length && 8 * n <= consumed && Continues(raw, consumed, out[..n])
      decreases |raw| - consumed
    {
      ghost var before := out[..n];
      if |raw| - consumed < BASIC {
        CutShort(raw, consumed, before);
        return Some(Truncated), n;
      }
      if n >= out.Length {
        MoreToCome(raw, consumed, before);
        return Some(TooMany), n;
      }
      var i := DecodeOne(raw, consumed);
      if i.None? {
        CutShort(raw, consumed, before);
        return Some(Truncated), n;
      }
      ContinueStep(raw, consumed, before, i.value);
      out[n] := i.value;
      n := n + 1;
      assert out[..n] == before + [i.value];
      consumed := consumed + Bytes(i.value);
    }
    return None, n;
  }

  // ---- framing ----

  /** Slots taken by the first k instructions. */
  ghost function SlotOf(ins: seq<Insn>, k: nat): nat
    requires k <= |ins|
  {
    if k == 0 then 0 else SlotOf(ins, k - 1) + Width(ins[k - 1])
  }

  lemma {:induction false} SlotsIncrease(ins: seq<Insn>, i: nat, j: nat)
    requires i < j <= |ins|
    ensures SlotOf(ins, i) + Width(ins[i]) <= SlotOf(ins, j)
    decreases j
  {
    if i < j - 1 { SlotsIncrease(ins, i, j - 1); }
  }

  lemma {:induction false} SlotsShift(i: Insn, ins: seq<Insn>, k: nat)
    requires k <= |ins|
    ensures SlotOf([i] + ins, k + 1) == Width(i) + SlotOf(ins, k)
    decreases k
  {
    if k > 0 {
      SlotsShift(i, ins, k - 1);
      assert ([i] + ins)[k] == ins[k - 1];
    } else {
      assert SlotOf([i] + ins, 0) == 0;
    }
  }

  /** The instructions' slots cover the byte string exactly. */
  lemma {:induction false} WidthsSum(raw: seq<Byte>, pos: nat)
    requires pos <= |raw| && DecodeFrom(raw, pos).Some?
    ensures pos + 8 * SlotOf(DecodeFrom(raw, pos).value, |DecodeFrom(raw, pos).value|) == |raw|
    decreases |raw| - pos
  {
    if pos < |raw| {
      var i := DecodeAt(raw, pos);
      WidthsSum(raw, pos + Bytes(i));
      var rest := DecodeFrom(raw, pos + Bytes(i)).value;
      SlotsShift(i, rest, |rest|);
    }
  }

  /** Instruction k starts at byte 8 * SlotOf(k) and is decoded from there. */
  lemma {:induction false} StartsAt(raw: seq<Byte>, pos: nat, ins: seq<Insn>, k: nat)
    requires pos <= |raw| && DecodeFrom(raw, pos) == Some(ins) && k < |ins|
    ensures DecodedAt(raw, pos + 8 * SlotOf(ins, k), ins[k])
    ensures ins[k].wide ==> pos + 8 * SlotOf(ins, k) + WIDE <= |raw|
    decreases |raw| - pos
  {
    FirstDecoded(raw, pos, ins);
    if k > 0 {
      StartsAt(raw, pos + Bytes(ins[0]), ins[1..], k - 1);
      SlotsShift(ins[0], ins[1..], k - 1);
      assert ins == [ins[0]] + ins[1..];
      assert Bytes(ins[0]) == 8 * Width(ins[0]);
    }
  }

  lemma FirstDecoded(raw: seq<Byte>, pos: nat, ins: seq<Insn>)
    requires pos <= |raw| && DecodeFrom(raw, pos) == Some(ins) && |ins| > 0
    ensures DecodedAt(raw, pos, ins[0]) && ins[0].wide == IsWide(raw[pos])
    ensures pos + Bytes(ins[0]) <= |raw| && DecodeFrom(raw, pos + Bytes(ins[0])) == Some(ins[1..])
  {
  }

  // ---- the encoding ----

  ghost predicate Encodable(i: Insn) {
    i.src < 16 && i.dst < 16 && 0 <= i.offset + HALF16 < 2 * HALF16 && 0 <= i.imm + HALF32 < 2 * HALF32
  }

  ghost function EncodeInsn(i: Insn): (b: seq<Byte>)
    requires Encodable(i)
    ensures |b| == Bytes(i)
  {
    [i.opcode, i.src * 16 + i.dst] + LeBytes(Unsigned(i.offset, HALF16), 2) + LeBytes(Unsigned(i.imm, HALF32), 4)
    + if i.wide then [0, 0, 0, 0] + LeBytes(i.nextImm, 4) else []
  }

  /** check_wide_res: the reserved bytes of a wide instruction at p are zero. */
  predicate WideReserved(raw: seq<Byte>, p: nat)
    requires p + WIDE <= |raw|
  {
    raw[p + 8] == 0 && raw[p + 9] == 0 && raw[p + 10] == 0 && raw[p + 11] == 0
  }

  lemma SignedRoundTrip(u: nat, half: nat)
    requires u < 2 * half
    ensures 0 <= Signed(u, half) + half < 2 * half && Unsigned(Signed(u, half), half) == u
  {
  }

  lemma LeFieldRoundTrip(raw: seq<Byte>, a: nat, b: nat)
    requires a <= b <= |raw|
    ensures LeBytes(LeValue(raw[a..b]), b - a) == raw[a..b] && LeValue(raw[a..b]) < Pow256(b - a)
  {
    LeBytesRoundTrip(raw[a..b]);
    LeValueBound(raw[a..b]);
  }

  lemma Powers()
    ensures Pow256(2) == 2 * HALF16 && Pow256(4) == 2 * HALF32
  {
    assert Pow256(1) == 256 && Pow256(2) == 65536 && Pow256(3) == 0x100_0000;
  }

  lemma DecodedEncodable(raw: seq<Byte>, p: nat)
    requires p + BASIC <= |raw| && (IsWide(raw[p]) ==> p + WIDE <= |raw|)
    ensures Encodable(DecodeAt(raw, p))
  {
    Powers();
    LeFieldRoundTrip(raw, p + 2, p + 4);
    LeFieldRoundTrip(raw, p + 4, p + 8);
    SignedRoundTrip(LeValue(raw[p + 2..p + 4]), HALF16);
    SignedRoundTrip(LeValue(raw[p + 4..p + 8]), HALF32);
  }

  /** The two signed fields, encoded again. */
  lemma FieldsEncoded(raw: seq<Byte>, p: nat, i: Insn)
    requires DecodedAt(raw, p, i)
    ensures Encodable(i) && i.opcode == raw[p] && i.src * 16 + i.dst == raw[p + 1]
    ensures LeBytes(Unsigned(i.offset, HALF16), 2) == raw[p + 2..p + 4] && LeBytes(Unsigned(i.imm, HALF32), 4) == raw[p + 4..p + 8]
  {
    DecodedEncodable(raw, p);
    Powers();
    LeFieldRoundTrip(raw, p + 2, p + 4);
    LeFieldRoundTrip(raw, p + 4, p + 8);
    SignedRoundTrip(LeValue(raw[p + 2..p + 4]), HALF16);
    SignedRoundTrip(LeValue(raw[p + 4..p + 8]), HALF32);
  }

  lemma NextEncoded(raw: seq<Byte>, p: nat, i: Insn)
    requires DecodedAt(raw, p, i) && i.wide
    ensures p + WIDE <= |raw| && LeBytes(i.nextImm, 4) == raw[p + 12..p + 16]
  {
    LeFieldRoundTrip(raw, p + 12, p + 16);
  }

  /** Encoding what was decoded gives the bytes back. */
  lemma EncodeDecoded(raw: seq<Byte>, p: nat, i: Insn)
    requires DecodedAt(raw, p, i) && p + Bytes(i) <= |raw| && (i.wide ==> WideReserved(raw, p))
    ensures Encodable(i) && EncodeInsn(i) == raw[p..p + Bytes(i)]
  {
    FieldsEncoded(raw, p, i);
    if i.wide { NextEncoded(raw, p, i); }
    Joined(raw, p, i);
  }

  lemma Joined(raw: seq<Byte>, p: nat, i: Insn)
    requires Encodable(i) && p + Bytes(i) <= |raw| && i.opcode == raw[p] && i.src * 16 + i.dst == raw[p + 1]
    requires LeBytes(Unsigned(i.offset, HALF16), 2) == raw[p + 2..p + 4] && LeBytes(Unsigned(i.imm, HALF32), 4) == raw[p + 4..p + 8]
    requires i.wide ==> WideReserved(raw, p) && LeBytes(i.nextImm, 4) == raw[p + 12..p + 16]
    ensures EncodeInsn(i) == raw[p..p + Bytes(i)]
  {
    assert raw[p..p + 8] == [raw[p], raw[p + 1]] + raw[p + 2..p + 4] + raw[p + 4..p + 8];
    if i.wide { assert raw[p..p + 16] == raw[p..p + 8] + [0, 0, 0, 0] + raw[p + 12..p + 16]; }
  }

  // ---- the fields, from the bytes ----

  function Number16(a: nat, b: nat): nat {
    a + 0x100 * b
  }

  function Number32(a: nat, b: nat, c: nat, d: nat): nat {
    a + 0x100 * b + 0x1_0000 * c + 0x100_0000 * d
  }

  lemma TwoBytes(raw: seq<Byte>, p: nat)
    requires p + 2 <= |raw|
    ensures LeValue(raw[p..p + 2]) == Number16(raw[p], raw[p + 1])
  {
    var b := raw[p..p + 2];
    assert b[1..] == [b[1]] && LeValue([b[1]]) == b[1];
  }

  lemma FourBytes(raw: seq<Byte>, p: nat)
    requires p + 4 <= |raw|
    ensures LeValue(raw[p..p + 4]) == Number32(raw[p], raw[p + 1], raw[p + 2], raw[p + 3])
  {
    TwoBytes(raw, p + 2);
    var b := raw[p..p + 4];
    assert b[1..][1..] == raw[p + 2..p + 4];
    assert LeValue(b[1..]) == b[1] + 256 * LeValue(b[1..][1..]);
  }

  /** The opcode byte is made of class, size and mode, or of class, source and code; the next byte of the registers. */
  lemma OpcodeFields(raw: seq<Byte>, p: nat, i: Insn)
    requires DecodedAt(raw, p, i)
    ensures i.cls < 8 && i.opcode == raw[p] && raw[p + 1] == i.dst + 16 * i.src && i.dst < 16 && i.src < 16
    ensures i.cls < 4 ==> i.opcode == i.cls + 8 * i.size + 32 * i.mode && i.size < 4 && i.mode < 8 && i.code == 0 && i.source == 0
    ensures i.cls >= 4 ==> i.opcode == i.cls + 8 * i.source + 16 * i.code && i.source < 2 && i.code < 16 && i.mode == 0 && i.size == 0
    ensures (i.wide <==> i.cls == 0 && i.mode == 0) && (!i.wide ==> i.nextImm == 0)
  {
    OpcodeBits(raw[p]);
  }

  lemma OpcodeBits(op: Byte)
    ensures op == op % 8 + 8 * (op / 8 % 4) + 32 * (op / 32) && op / 32 < 8
    ensures op == op % 8 + 8 * (op / 8 % 2) + 16 * (op / 16) && op / 16 < 16
  {
    var h: nat := op / 8;
    assert h == 4 * (h / 4) + h % 4 && h == 2 * (h / 2) + h % 2;
    assert op / 32 == h / 4 && op / 16 == h / 2;
  }

  lemma Signed16(u: nat)
    requires u < 0x1_0000
    ensures -0x8000 <= Signed(u, HALF16) < 0x8000 && Signed(u, HALF16) % 0x1_0000 == u
  {
  }

  lemma Signed32(u: nat)
    requires u < 0x1_0000_0000
    ensures -0x8000_0000 <= Signed(u, HALF32) < 0x8000_0000 && Signed(u, HALF32) % 0x1_0000_0000 == u
  {
  }

  /** Offset and immediate are the two's complement readings of bytes 2, 3 and 4 to 7. */
  lemma SignedFields(raw: seq<Byte>, p: nat, i: Insn)
    requires DecodedAt(raw, p, i)
    ensures -0x8000 <= i.offset < 0x8000 && i.offset % 0x1_0000 == Number16(raw[p + 2], raw[p + 3])
    ensures -0x8000_0000 <= i.imm < 0x8000_0000 && i.imm % 0x1_0000_0000 == Number32(raw[p + 4], raw[p + 5], raw[p + 6], raw[p + 7])
    ensures i.wide ==> p + 16 <= |raw| && i.nextImm == Number32(raw[p + 12], raw[p + 13], raw[p + 14], raw[p + 15])
  {
    TwoBytes(raw, p + 2);
    FourBytes(raw, p + 4);
    Signed16(Number16(raw[p + 2], raw[p + 3]));
    Signed32(Number32(raw[p + 4], raw[p + 5], raw[p + 6], raw[p + 7]));
    if i.wide { FourBytes(raw, p + 12); }
  }

  ghost predicate AllEncodable(ins: seq<Insn>) {
    forall k :: 0 <= k < |ins| ==> Encodable(ins[k])
  }

  ghost function EncodeAll(ins: seq<Insn>): seq<Byte>
    requires AllEncodable(ins)
  {
    if ins == [] then [] else EncodeInsn(ins[0]) + EncodeAll(ins[1..])
  }
}
