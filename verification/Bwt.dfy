/** The regular transform and its inverse as the library runs them (bwt89_bwt.c). */
module Bwt {
  import opened Common
  import opened LexOrder
  import opened SuffixTypes
  import opened InducedSort
  import opened Seeding
  import opened LfMapping
  import opened BwtTheory
  import SaIs

  datatype Status = Ok | BadIndex | TooLarge | BadData

  /** BWT89_MAX_N: one below INT_MAX. */
  const MAX_N: nat := 0x7fff_fffe

  const ALPHA: nat := 256

  // ---- forward ----

  method BuildSymbols(s: seq<Byte>) returns (sym: array<int>)
    ensures fresh(sym) && sym[..] == Symbols(s)
  {
    var n := |s|;
    sym := new int[n + 1];
    for i := 0 to n
      invariant forall k :: 0 <= k < i ==> sym[k] == RankByte(s[k])
    {
      sym[i] := RankByte(s[i]);
    }
    sym[n] := 0;
  }

  method LocateOrig(sa: seq<int>) returns (i: nat)
    requires Permutation(sa) && |sa| >= 1
    ensures i < |sa| && sa[i] == 0
  {
    PermutationHits(sa, 0);
    i := 0;
    while i < |sa|
      invariant i <= |sa| && forall k :: 0 <= k < i ==> sa[k] != 0
    {
      if sa[i] == 0 { break; }
      i := i + 1;
    }
  }

  /** emit_row over all rows: the column of preceding symbols without the sentinel's row. */
  method EmitRows(s: seq<Byte>, sym: seq<int>, sa: seq<int>, orig: nat, out: array<Byte>)
    requires sym == Symbols(s) && IsSuffixArray(sym, sa) && orig < |sa| && sa[orig] == 0 && |s| <= out.Length
    modifies out
    ensures TransformVia(s, sa, out[..|s|], orig)
    ensures out[|s|..] == old(out[|s|..])
  {
    var N := |sa|;
    for row := 0 to N
      invariant forall x :: 0 <= x < row && x < orig ==> RankByte(out[x]) == sym[Pred(sa[x], N)]
      invariant forall x :: orig <= x < row - 1 ==> RankByte(out[x]) == sym[Pred(sa[x + 1], N)]
      invariant out[|s|..] == old(out[|s|..])
    {
      if row != orig {
        var slot := if row < orig then row else row - 1;
        var p := sa[row];
        RealSymbol(s, sa, orig, row);
        PredMod(p, N);
        var c := sym[(p + N - 1) % N];
        out[slot] := c - 1;
      }
    }
    assert out[..|s|] == out[..][..|s|];
    ColumnFromRows(s, sa, out[..|s|], orig);
  }

  lemma PredMod(p: int, n: int)
    requires 0 <= p < n
    ensures (p + n - 1) % n == Pred(p, n)
  {
    if p == 0 {
      assert (p + n - 1) % n == n - 1;
    } else {
      assert (p - 1 + n) % n == (p - 1) % n;
    }
  }

  lemma RealSymbol(s: seq<Byte>, sa: seq<int>, orig: nat, row: nat)
    requires Permutation(sa) && |sa| == |s| + 1 && orig < |sa| && sa[orig] == 0 && row < |sa| && row != orig
    ensures 1 <= Symbols(s)[Pred(sa[row], |sa|)] <= 256
  {
    assert sa[row] != 0;
  }

  lemma ColumnFromRows(s: seq<Byte>, sa: seq<int>, b: seq<Byte>, orig: nat)
    requires IsSuffixArray(Symbols(s), sa) && orig < |sa| && sa[orig] == 0 && |b| == |s|
    requires forall x :: 0 <= x < orig ==> RankByte(b[x]) == Symbols(s)[Pred(sa[x], |sa|)]
    requires forall x :: orig <= x < |b| ==> RankByte(b[x]) == Symbols(s)[Pred(sa[x + 1], |sa|)]
    ensures TransformVia(s, sa, b, orig)
  {
    var last, sym := InsertSentinel(b, orig), Symbols(s);
    forall x | 0 <= x < |sa| ensures last[x] == sym[Pred(sa[x], |sym|)] {
      if x > orig { assert RankByte(b[x - 1]) == sym[Pred(sa[x - 1 + 1], |sa|)]; }
    }
  }

  /** bwt89_bwt. The output buffer may be the input buffer. */
  method Transform(s: array<Byte>, n: nat, out: array<Byte>) returns (st: Status, index: nat)
    requires n <= s.Length && n <= out.Length
    modifies out
    ensures st == if n > MAX_N then TooLarge else Ok
    ensures st == Ok ==> IsTransform(old(s[..n]), out[..n], index)
    ensures st != Ok ==> out[..] == old(out[..])
    ensures out[n..] == old(out[n..])
  {
    index := 0;
    if n > MAX_N { return TooLarge, index; }
    if n == 0 {
      EmptyTransform();
      return Ok, 0;
    }
    ghost var text := s[..n];
    var sym := BuildSymbols(s[..n]);
    SymbolsValid(text);
    var sa := new int[n + 1];
    SaIs.SaIsCore(sym[..], sa, ALPHA);
    assert sa[..n + 1] == sa[..];
    index := LocateOrig(sa[..]);
    EmitRows(s[..n], sym[..], sa[..], index, out);
    assert TransformVia(text, sa[..], out[..n], index);
    st := Ok;
  }

  lemma EmptyTransform()
    ensures IsTransform([], [], 0)
  {
    assert TransformVia([], [0], [], 0);
  }

  // ---- inverse ----

  lemma InsertedByte(b: seq<Byte>, index: nat, k: nat)
    requires index <= |b| && k < |b|
    ensures InsertSentinel(b, index)[if k < index then k else k + 1] == RankByte(b[k])
  {
  }

  /** The sentinel is in its own row only. */
  lemma SentinelRow(b: seq<Byte>, index: nat, x: nat)
    requires index <= |b| && x <= |b|
    ensures 0 <= InsertSentinel(b, index)[x] <= ALPHA
    ensures InsertSentinel(b, index)[x] == 0 <==> x == index
  {
  }

  method BuildLast(b: seq<Byte>, index: nat) returns (last: array<int>)
    requires index <= |b|
    ensures fresh(last) && last[..] == InsertSentinel(b, index)
  {
    var n := |b|;
    ghost var column := InsertSentinel(b, index);
    last := new int[n + 1];
    last[index] := 0;
    for k := 0 to n
      invariant last[index] == column[index]
      invariant forall x :: 0 <= x < k && x < index ==> last[x] == column[x]
      invariant forall x :: index < x <= k ==> last[x] == column[x]
    {
      InsertedByte(b, index, k);
      last[if k < index then k else k + 1] := RankByte(b[k]);
    }
  }

  /** lower_count: how many symbols are below c. */
  method LowerCount(freq: array<int>, c: nat, ghost last: seq<int>) returns (acc: int)
    requires c <= freq.Length
    requires forall i :: 0 <= i < |last| ==> 0 <= last[i]
    requires forall d :: 0 <= d < freq.Length ==> freq[d] == Head(last, d + 1) - Head(last, d)
    ensures acc == Head(last, c)
  {
    HeadOfZero(last);
    acc := 0;
    for k := 0 to c
      invariant acc == Head(last, k)
    {
      acc := acc + freq[k];
    }
  }

  /** build_less: the first row of each symbol. */
  method BuildLess(freq: array<int>, ghost last: seq<int>) returns (less: array<int>)
    requires freq.Length == ALPHA + 1
    requires forall i :: 0 <= i < |last| ==> 0 <= last[i]
    requires forall d :: 0 <= d < freq.Length ==> freq[d] == Head(last, d + 1) - Head(last, d)
    ensures fresh(less) && less.Length == ALPHA + 1 && forall c :: 0 <= c <= ALPHA ==> less[c] == Head(last, c)
  {
    less := new int[ALPHA + 1];
    for c := 0 to ALPHA + 1
      invariant forall d :: 0 <= d < freq.Length ==> freq[d] == Head(last, d + 1) - Head(last, d)
      invariant forall d :: 0 <= d < c ==> less[d] == Head(last, d)
    {
      less[c] := LowerCount(freq, c, last);
    }
  }

  /** map_row over all rows: the LF mapping, by counting occurrences. */
  method MapRows(last: seq<int>, less: array<int>) returns (rowOf: array<int>)
    requires forall i :: 0 <= i < |last| ==> 0 <= last[i] <= ALPHA
    requires less.Length == ALPHA + 1 && forall c :: 0 <= c <= ALPHA ==> less[c] == Head(last, c)
    ensures fresh(rowOf) && rowOf[..] == Lf(last)
  {
    var occ := new int[ALPHA + 1](_ => 0);
    rowOf := new int[|last|];
    ghost var lf := Lf(last);
    forall c | 0 <= c <= ALPHA ensures |Earlier(last, 0, c)| == 0 {
      assert Earlier(last, 0, c) == {};
    }
    for i := 0 to |last|
      invariant forall c :: 0 <= c <= ALPHA ==> less[c] == Head(last, c)
      invariant forall c :: 0 <= c <= ALPHA ==> occ[c] == |Earlier(last, i, c)|
      invariant forall k :: 0 <= k < i ==> rowOf[k] == lf[k]
    {
      var sym := last[i];
      LfCounts(last, i);
      rowOf[i] := less[sym] + occ[sym];
      ghost var before := occ[..];
      occ[sym] := occ[sym] + 1;
      forall c | 0 <= c <= ALPHA ensures occ[c] == |Earlier(last, i + 1, c)| {
        EarlierStep(last, i, c);
        assert before[c] == |Earlier(last, i, c)|;
      }
    }
  }

  /** The walk stays off the sentinel for its first n steps. */
  ghost predicate Consumes(last: seq<int>, f: seq<int>, index: int, n: int)
    requires Permutation(f) && |f| == |last| && 0 <= index < |f|
  {
    forall k {:trigger Iter(f, index, k)} :: 1 <= k <= n ==> last[Iter(f, index, k)] != 0
  }

  /** The first pass: peek n steps without writing; -1 marks the sentinel (step_peek). */
  method Peek(rowOf: seq<int>, last: seq<int>, index: nat, n: nat) returns (ok: bool)
    requires Permutation(rowOf) && |rowOf| == |last| == n + 1 && index < |rowOf|
    ensures ok <==> Consumes(last, rowOf, index, n)
  {
    var row: int := index;
    var i := 0;
    while i < n
      invariant 0 <= i <= n
      invariant row >= 0 ==> row == Iter(rowOf, index, i) && Consumes(last, rowOf, index, i)
      invariant row >= 0
    {
      row := rowOf[row];
      if last[row] == 0 {
        assert row == Iter(rowOf, index, i + 1);
        return false;
      }
      i := i + 1;
    }
    return true;
  }

  /** The second pass: write the n bytes back to front (walk_row). */
  method Walk(rowOf: seq<int>, last: seq<int>, index: nat, n: nat, out: array<Byte>)
    requires Permutation(rowOf) && |rowOf| == |last| == n + 1 && index < |rowOf| && n <= out.Length
    requires Consumes(last, rowOf, index, n) && forall x :: 0 <= x < |last| ==> 0 <= last[x] <= ALPHA
    modifies out
    ensures Spells(last, rowOf, index, out[..n])
    ensures out[n..] == old(out[n..])
  {
    var row: nat := index;
    for i := 0 to n
      invariant row == Iter(rowOf, index, i)
      invariant forall k {:trigger Iter(rowOf, index, k)} :: 1 <= k <= i ==> last[Iter(rowOf, index, k)] == RankByte(out[n - k])
      invariant out[n..] == old(out[n..])
    {
      row := rowOf[row];
      assert row == Iter(rowOf, index, i + 1);
      var c := last[row];
      out[n - 1 - i] := c - 1;
    }
    forall k | 1 <= k <= n ensures SpellsAt(last, rowOf, index, out[..n], k) {
      assert last[Iter(rowOf, index, k)] == RankByte(out[n - k]);
    }
  }

  /** When a pair is accepted: its index names a row and its LF mapping is one cycle. */
  ghost predicate Accepted(b: seq<Byte>, index: nat) {
    index <= |b| && SingleCycle(Lf(InsertSentinel(b, index)), index)
  }

  lemma ConsumesIff(b: seq<Byte>, index: nat)
    requires index <= |b| && Permutation(Lf(InsertSentinel(b, index)))
    ensures Consumes(InsertSentinel(b, index), Lf(InsertSentinel(b, index)), index, |b|) <==> Accepted(b, index)
  {
    SingleCycleIff(Lf(InsertSentinel(b, index)), index);
    OffSentinel(b, index, Lf(InsertSentinel(b, index)), InsertSentinel(b, index));
  }

  lemma OffSentinel(b: seq<Byte>, index: nat, f: seq<int>, last: seq<int>)
    requires index <= |b| && Permutation(f) && |f| == |b| + 1 && last == InsertSentinel(b, index)
    ensures Consumes(last, f, index, |b|) <==> NoReturn(f, index, |b|)
  {
    forall k | 1 <= k <= |b| ensures last[Iter(f, index, k)] != 0 <==> Iter(f, index, k) != index {
      SentinelRow(b, index, Iter(f, index, k));
    }
  }

  /** The bytes that a walk over last meets, back to front. */
  ghost function WalkText(last: seq<int>, f: seq<int>, index: int): (s: seq<Byte>)
    requires Permutation(f) && |f| == |last| && 0 <= index < |f|
    requires Consumes(last, f, index, |f| - 1)
    requires forall x :: 0 <= x < |last| ==> 0 <= last[x] <= ALPHA
    ensures Spells(last, f, index, s)
  {
    var n := |f| - 1;
    var s: seq<Byte> := seq(n, i requires 0 <= i < n => last[Iter(f, index, n - i)] - 1);
    assert forall k :: 1 <= k <= n ==> SpellsAt(last, f, index, s, k) by {
      forall k | 1 <= k <= n ensures SpellsAt(last, f, index, s, k) {
        assert s[n - k] == last[Iter(f, index, k)] - 1;
      }
    }
    s
  }

  /** Accepted pairs are exactly the transforms of texts. */
  lemma AcceptedIff(b: seq<Byte>, index: nat)
    ensures Accepted(b, index) <==> exists s :: IsTransform(s, b, index)
  {
    if Accepted(b, index) { AcceptedTransform(b, index); }
    if s :| IsTransform(s, b, index) { TransformIsCycle(s, b, index); }
  }

  lemma AcceptedTransform(b: seq<Byte>, index: nat)
    requires Accepted(b, index)
    ensures exists s :: IsTransform(s, b, index)
  {
    var last := InsertSentinel(b, index);
    ConsumesIff(b, index);
    forall x | 0 <= x < |last| ensures 0 <= last[x] <= ALPHA { SentinelRow(b, index, x); }
    SpelledIsTransform(b, index, WalkText(last, Lf(last), index));
  }

  /** The inverse on a nonempty buffer with an index in range. */
  method InvertWalk(b: seq<Byte>, index: nat, out: array<Byte>) returns (ok: bool)
    requires index <= |b| <= out.Length
    modifies out
    ensures ok <==> Accepted(b, index)
    ensures ok ==> IsTransform(out[..|b|], b, index)
    ensures !ok ==> out[..] == old(out[..])
    ensures out[|b|..] == old(out[|b|..])
  {
    var n := |b|;
    var last := BuildLast(b, index);
    ghost var column := InsertSentinel(b, index);
    forall x | 0 <= x < |column| ensures 0 <= column[x] <= ALPHA { SentinelRow(b, index, x); }
    var freq := CountSymbols(last[..], ALPHA);
    var less := BuildLess(freq, column);
    var rowOf := MapRows(last[..], less);
    LfPermutes(column);
    ConsumesIff(b, index);
    ok := Peek(rowOf[..], last[..], index, n);
    if ok {
      Walk(rowOf[..], last[..], index, n, out);
      SpelledIsTransform(b, index, out[..n]);
    }
  }

  /** bwt89_ibwt. The output buffer may be the input buffer; on any error it is untouched. */
  method Invert(b: array<Byte>, n: nat, index: nat, out: array<Byte>) returns (st: Status)
    requires n <= b.Length && n <= out.Length
    modifies out
    ensures st == if index > n then BadIndex else if n > MAX_N then TooLarge
                  else if Accepted(old(b[..n]), index) then Ok else BadData
    ensures st == Ok ==> IsTransform(out[..n], old(b[..n]), index)
    ensures st != Ok ==> out[..] == old(out[..])
    ensures out[n..] == old(out[n..])
  {
    if n == 0 {
      if index != 0 { return BadIndex; }
      EmptyTransform();
      TransformIsCycle([], [], 0);
      assert b[..0] == [] && out[..0] == [];
      return Ok;
    }
    if index > n { return BadIndex; }
    if n > MAX_N { return TooLarge; }
    var ok := InvertWalk(b[..n], index, out);
    return if ok then Ok else BadData;
  }

  // ---- the two together ----

  /** Inverting a transform gives the text back, in place and for every byte string. */
  method RoundTrip(buf: array<Byte>) returns (st: Status)
    requires buf.Length <= MAX_N
    modifies buf
    ensures st == Ok && buf[..] == old(buf[..])
  {
    var n := buf.Length;
    ghost var text := buf[..n];
    var index;
    st, index := Transform(buf, n, buf);
    ghost var b := buf[..n];
    TransformIsCycle(text, b, index);
    st := Invert(buf, n, index, buf);
    TransformInjective(text, buf[..n], b, index);
    assert buf[..] == buf[..n];
  }
}
