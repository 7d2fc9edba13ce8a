/** The streaming Internet checksum of libcksum89 (src/cksum89_inet16.c, section 1 of RFC 1071). */
module Inet16 {
  import opened Common

  // ---- what it must compute ----

  function Word(hi: nat, lo: nat): nat {
    256 * hi + lo
  }

  /** The sum of the first k big-endian 16-bit words. */
  ghost function PairSum(data: seq<Byte>, k: nat): nat
    requires 2 * k <= |data|
  {
    if k == 0 then 0 else PairSum(data, k - 1) + Word(data[2 * k - 2], data[2 * k - 1])
  }

  /** The sum of all words, a last odd byte padded with zero. */
  ghost function WordSum(data: seq<Byte>): nat {
    var k := |data| / 2;
    PairSum(data, k) + if |data| == 2 * k + 1 then Word(data[2 * k], 0) else 0
  }

  lemma {:induction false} PairSumPrefix(data: seq<Byte>, more: seq<Byte>, k: nat)
    requires 2 * k <= |data|
    ensures PairSum(data + more, k) == PairSum(data, k)
    decreases k
  {
    if k > 0 { PairSumPrefix(data, more, k - 1); }
  }

  /** The one's-complement sum: congruent modulo 65535, at most 65535, zero only for zero. */
  function Ones(n: nat): nat {
    if n == 0 then 0 else (n - 1) % 0xffff + 1
  }

  /** s stands for n: it differs by a multiple of 65535, and is zero only for zero. */
  ghost predicate Stands(s: nat, n: nat) {
    s <= 0xffff && (s == 0 <==> n == 0) && exists k: nat :: n == s + Multiple(k)
  }

  function Multiple(k: nat): nat {
    0xffff * k
  }

  lemma StandsIsOnes(s: nat, n: nat)
    requires Stands(s, n)
    ensures s == Ones(n)
  {
    var k: nat :| n == s + Multiple(k);
    if n > 0 { Residue(s - 1, k); }
  }

  lemma {:induction false} Residue(r: nat, k: nat)
    requires r < 0xffff
    ensures (r + Multiple(k)) % 0xffff == r
    decreases k
  {
    if k > 0 {
      Residue(r, k - 1);
      assert r + Multiple(k) == (r + Multiple(k - 1)) + 0xffff;
    }
  }

  lemma OnesStands(n: nat)
    ensures Stands(Ones(n), n) && Ones(n) % 0xffff == n % 0xffff
  {
    if n == 0 {
      assert n == 0 + Multiple(0);
    } else {
      var k: nat := (n - 1) / 0xffff;
      assert n == Ones(n) + Multiple(k);
    }
  }

  function Fold(sum: nat): nat {
    var folded := sum % 0x1_0000 + sum / 0x1_0000;
    folded % 0x1_0000 + folded / 0x1_0000
  }

  /** Two end-around folds take one 65535 off a sum of two words, if it is there. */
  lemma FoldMeans(x: nat)
    requires x <= 2 * 0xffff
    ensures Fold(x) == if x <= 0xffff then x else x - 0xffff
  {
    if x <= 0xffff {
      assert x % 0x1_0000 == x && x / 0x1_0000 == 0;
    } else {
      assert x / 0x1_0000 == 1 && x % 0x1_0000 == x - 0x1_0000;
    }
  }

  /** Adding a word to the running sum. */
  lemma AddWord(s: nat, n: nat, w: nat)
    requires Stands(s, n) && w <= 0xffff
    ensures Stands(Fold(s + w), n + w)
  {
    FoldMeans(s + w);
    var k: nat :| n == s + Multiple(k);
    if s + w <= 0xffff {
      assert n + w == s + w + Multiple(k);
    } else {
      assert n + w == s + w - 0xffff + Multiple(k + 1);
    }
  }

  // ---- the context ----

  class Context {
    var sum: nat
    var pending: Byte
    var hasPending: bool
    ghost var data: seq<Byte>
    ghost var words: nat

    /** The sum stands for the complete words, the pending byte for the odd one. */
    ghost predicate Valid()
      reads this
    {
      && |data| == 2 * words + (if hasPending then 1 else 0)
      && (hasPending ==> pending == data[2 * words])
      && Stands(sum, PairSum(data, words))
    }

    constructor ()
      ensures Valid() && data == []
    {
      sum, pending, hasPending, data, words := 0, 0, false, [], 0;
      OnesStands(0);
    }

    /** cksum89_inet16_byte: completes a word or holds its first byte. */
    method AddByte(b: Byte)
      requires Valid()
      modifies this
      ensures Valid() && data == old(data) + [b]
    {
      PairSumPrefix(data, [b], words);
      if hasPending {
        var word := Word(pending, b);
        AddWord(sum, PairSum(data, words), word);
        sum := Fold(sum + word);
        hasPending := false;
        words := words + 1;
      } else {
        pending, hasPending := b, true;
      }
      data := data + [b];
    }

    /** cksum89_inet16_update: however the stream is cut into calls. */
    method Update(bytes: seq<Byte>)
      requires Valid()
      modifies this
      ensures Valid() && data == old(data) + bytes
    {
      for i := 0 to |bytes|
        invariant Valid() && data == old(data) + bytes[..i]
      {
        AddByte(bytes[i]);
        assert bytes[..i + 1] == bytes[..i] + [bytes[i]];
      }
      assert bytes[..|bytes|] == bytes;
    }

    /** cksum89_inet16_final. */
    method Final() returns (c: nat)
      requires Valid()
      ensures c == 0xffff - Ones(WordSum(data))
    {
      var total := sum;
      if hasPending {
        total := Fold(sum + Word(pending, 0));
        AddWord(sum, PairSum(data, words), Word(pending, 0));
      }
      assert |data| / 2 == words;
      FoldMeans(total);
      StandsIsOnes(total, WordSum(data));
      c := 0xffff - Fold(total);
    }
  }

  /** cksum89_inet16: the one-shot form. */
  method Checksum(bytes: seq<Byte>) returns (c: nat)
    ensures c == 0xffff - Ones(WordSum(bytes))
  {
    var ctx := new Context();
    ctx.Update(bytes);
    assert ctx.data == bytes;
    c := ctx.Final();
  }

  // ---- what it is for ----

  lemma {:induction false} PairSumZero(data: seq<Byte>, k: nat)
    requires 2 * k <= |data|
    ensures PairSum(data, k) == 0 <==> forall i :: 0 <= i < 2 * k ==> data[i] == 0
    decreases k
  {
    if k > 0 {
      PairSumZero(data, k - 1);
      assert Word(data[2 * k - 2], data[2 * k - 1]) == 0 <==> data[2 * k - 2] == 0 && data[2 * k - 1] == 0;
    }
  }

  /** The checksum is 65535 only for all-zero data. */
  lemma ZeroOnlyForZeros(data: seq<Byte>)
    ensures Ones(WordSum(data)) == 0 <==> forall i :: 0 <= i < |data| ==> data[i] == 0
  {
    PairSumZero(data, |data| / 2);
    OnesStands(WordSum(data));
  }

  /** Data padded to whole words: one zero byte behind an odd last byte. */
  function Padded(data: seq<Byte>): seq<Byte> {
    if |data| % 2 == 0 then data else data + [0]
  }

  /** An odd last byte is the high half of its word: padding the data behind it changes nothing. */
  lemma PaddingNeutral(data: seq<Byte>)
    ensures WordSum(Padded(data)) == WordSum(data)
  {
    var k := |data| / 2;
    if |data| % 2 == 1 {
      assert |data| == 2 * k + 1;
      var all := data + [0];
      PairSumPrefix(data, [0], k);
      assert |all| / 2 == k + 1;
      assert PairSum(all, k + 1) == PairSum(all, k) + Word(all[2 * k], all[2 * k + 1]);
    }
  }

  /** Data, padded to whole words, followed by its own checksum sums to all ones: the receiver computes zero. */
  lemma AppendedChecksum(data: seq<Byte>, c: nat)
    requires c == 0xffff - Ones(WordSum(data))
    ensures 0xffff - Ones(WordSum(Padded(data) + [c / 256, c % 256])) == 0
  {
    var p := Padded(data);
    var k, n := |p| / 2, WordSum(p);
    PaddingNeutral(data);
    assert |p| == 2 * k;
    WordSumAppend(p, k, c / 256, c % 256);
    OnesStands(n);
    CompletesToOnes(n, Ones(n), c);
    StandsIsOnes(0xffff, n + c);
  }

  lemma WordSumAppend(data: seq<Byte>, k: nat, hi: Byte, lo: Byte)
    requires |data| == 2 * k
    ensures WordSum(data + [hi, lo]) == WordSum(data) + Word(hi, lo)
  {
    var all := data + [hi, lo];
    PairSumPrefix(data, [hi, lo], k);
    assert |all| / 2 == k + 1 && |data| / 2 == k;
    assert PairSum(all, k + 1) == PairSum(all, k) + Word(all[2 * k], all[2 * k + 1]);
  }

  lemma CompletesToOnes(n: nat, s: nat, c: nat)
    requires Stands(s, n) && c == 0xffff - s
    ensures Stands(0xffff, n + c)
  {
    var k: nat :| n == s + Multiple(k);
    assert n + c == 0xffff + Multiple(k);
  }
}
