/** What the regular transform is: the last column of the sorted rotations of the text
    with a sentinel, and why its inverse walk recovers the text (bwt89_bwt.c). */
module BwtTheory {
  import opened Common
  import opened LexOrder
  import opened SuffixTypes
  import opened LfMapping

  function RankByte(b: Byte): (r: int) {
    b as int + 1
  }

  /** Bytes shifted to 1..256, then the sentinel 0 (build_symbols). */
  ghost function Symbols(s: seq<Byte>): (r: seq<int>)
    ensures |r| == |s| + 1 && r[|s|] == 0
    ensures forall i :: 0 <= i < |s| ==> r[i] == RankByte(s[i])
  {
    seq(|s| + 1, i requires 0 <= i <= |s| => if i < |s| then RankByte(s[i]) else 0)
  }

  lemma SymbolsValid(s: seq<Byte>)
    ensures ValidText(Symbols(s), 256)
  {
  }

  /** The cyclic predecessor of a text position. */
  ghost function Pred(p: int, n: int): int {
    if p == 0 then n - 1 else p - 1
  }

  /** last is the column of symbols preceding the sorted suffixes. */
  ghost predicate LastColumn(sym: seq<int>, sa: seq<int>, last: seq<int>) {
    && |last| == |sa| == |sym|
    && (forall x :: 0 <= x < |sa| ==> 0 <= sa[x] < |sym| && last[x] == sym[Pred(sa[x], |sym|)])
  }

  /** Row k of the rebuilt column: the bytes around the sentinel's row. */
  ghost function ColumnAt(b: seq<Byte>, index: nat, k: nat): (r: int)
    requires index <= |b| && k <= |b|
    ensures 0 <= r <= 256 && (r == 0 <==> k == index)
  {
    if k < index then RankByte(b[k]) else if k == index then 0 else RankByte(b[k - 1])
  }

  /** The last column rebuilt from the bytes and the sentinel's row (build_last). */
  ghost function InsertSentinel(b: seq<Byte>, index: nat): (r: seq<int>)
    requires index <= |b|
    ensures |r| == |b| + 1 && forall k :: 0 <= k <= |b| ==> r[k] == ColumnAt(b, index, k)
  {
    seq(|b| + 1, k requires 0 <= k <= |b| => ColumnAt(b, index, k))
  }

  ghost predicate TransformVia(s: seq<Byte>, sa: seq<int>, b: seq<Byte>, index: int) {
    && |b| == |s| && 0 <= index <= |s|
    && IsSuffixArray(Symbols(s), sa)
    && sa[index] == 0
    && LastColumn(Symbols(s), sa, InsertSentinel(b, index))
  }

  /** (b, index) is the Burrows-Wheeler transform of s. */
  ghost predicate IsTransform(s: seq<Byte>, b: seq<Byte>, index: int) {
    exists sa :: TransformVia(s, sa, b, index)
  }

  // ---- the same on the bytes alone ----

  lemma RankKeepsOrder(a: Byte, b: Byte)
    ensures RankByte(a) < RankByte(b) <==> a < b
    ensures 0 < RankByte(a) <= 256
  {
  }

  /** Suffixes with the sentinel order as the suffixes of the bytes themselves. */
  lemma {:induction false} SymbolsOrder(s: seq<Byte>, i: nat, j: nat)
    requires i <= |s| && j <= |s|
    ensures LexLess(Symbols(s)[i..], Symbols(s)[j..]) <==> LexLess(s[i..], s[j..])
    decreases |s| - i
  {
    if i < |s| && j < |s| {
      RankKeepsOrder(s[i], s[j]);
      RankKeepsOrder(s[j], s[i]);
      SymbolsOrder(s, i + 1, j + 1);
      SuffixCons(Symbols(s), i, j);
      SuffixCons(s, i, j);
    } else if i == |s| && j == |s| {
      LexIrreflexive(Symbols(s)[i..]);
      LexIrreflexive(s[i..]);
    }
  }

  /** sa lists the suffixes of s in ascending byte order, the empty one first; b lists the byte
      before each, and index is the row of the whole text, which has none. */
  ghost predicate SortedVia(s: seq<Byte>, sa: seq<int>, b: seq<Byte>, index: int) {
    && Permutation(sa) && |sa| == |s| + 1 && |b| == |s| && 0 <= index <= |s|
    && (forall x, y :: 0 <= x < y < |sa| ==> LexLess(s[sa[x]..], s[sa[y]..]))
    && sa[0] == |s| && sa[index] == 0
    && (forall x :: 0 <= x < index ==> b[x] == s[sa[x] - 1])
    && (forall x :: index < x <= |s| ==> b[x - 1] == s[sa[x] - 1])
  }

  /** The symbols and the sentinel are a device: transforms are about ascending bytes. */
  lemma TransformOfBytes(s: seq<Byte>, b: seq<Byte>, index: int)
    ensures IsTransform(s, b, index) <==> exists sa :: SortedVia(s, sa, b, index)
  {
    if sa :| TransformVia(s, sa, b, index) { ViaIff(s, sa, b, index); }
    if sa :| SortedVia(s, sa, b, index) { ViaIff(s, sa, b, index); }
  }

  lemma ViaIff(s: seq<Byte>, sa: seq<int>, b: seq<Byte>, index: int)
    ensures TransformVia(s, sa, b, index) <==> SortedVia(s, sa, b, index)
  {
    if Permutation(sa) && |sa| == |s| + 1 && |b| == |s| && 0 <= index <= |s| {
      forall x, y | 0 <= x < |sa| && 0 <= y < |sa|
        ensures LexLess(Symbols(s)[sa[x]..], Symbols(s)[sa[y]..]) <==> LexLess(s[sa[x]..], s[sa[y]..])
      {
        SymbolsOrder(s, sa[x], sa[y]);
      }
      if IsSuffixArray(Symbols(s), sa) { EmptyFirst(s, sa); }
      if sa[index] == 0 { ColumnIff(s, sa, b, index); }
    }
  }

  lemma EmptyFirst(s: seq<Byte>, sa: seq<int>)
    requires Permutation(sa) && |sa| == |s| + 1
    requires forall x, y :: 0 <= x < y < |sa| ==> LexLess(s[sa[x]..], s[sa[y]..])
    ensures sa[0] == |s|
  {
    PermutationHits(sa, |s|);
    var x :| 0 <= x < |sa| && sa[x] == |s|;
    assert s[sa[x]..] == [];
  }

  lemma ColumnIff(s: seq<Byte>, sa: seq<int>, b: seq<Byte>, index: nat)
    requires Permutation(sa) && |sa| == |s| + 1 && |b| == |s| && index <= |s| && sa[index] == 0
    ensures LastColumn(Symbols(s), sa, InsertSentinel(b, index)) <==>
              (forall x :: 0 <= x < index ==> b[x] == s[sa[x] - 1]) && (forall x :: index < x <= |s| ==> b[x - 1] == s[sa[x] - 1])
  {
    var last := InsertSentinel(b, index);
    forall x | 0 <= x <= |s| && x != index
      ensures last[x] == Symbols(s)[Pred(sa[x], |sa|)] <==> b[if x < index then x else x - 1] == s[sa[x] - 1]
    {
      assert sa[x] != 0;
    }
  }

  // ---- forward direction: the walk spells the text backwards ----

  lemma SuffixArrayOrder(s: seq<int>, sa: seq<int>, x: nat, y: nat)
    requires IsSuffixArray(s, sa) && x < |sa| && y < |sa|
    ensures LexLess(s[sa[x]..], s[sa[y]..]) <==> x < y
  {
    if x == y { LexIrreflexive(s[sa[x]..]); }
    if y < x && LexLess(s[sa[x]..], s[sa[y]..]) {
      LexTransitive(s[sa[x]..], s[sa[y]..], s[sa[x]..]);
      LexIrreflexive(s[sa[x]..]);
    }
  }

  /** Rows order stably by last symbol as the suffixes one position earlier order. */
  lemma PredOrder(sym: seq<int>, K: int, sa: seq<int>, last: seq<int>, x: nat, y: nat)
    requires ValidText(sym, K) && IsSuffixArray(sym, sa) && LastColumn(sym, sa, last)
    requires x < |sa| && y < |sa|
    ensures LexLess(sym[Pred(sa[x], |sym|)..], sym[Pred(sa[y], |sym|)..]) <==> StableLess(last, x, y)
  {
    var p, q := Pred(sa[x], |sym|), Pred(sa[y], |sym|);
    SuffixCons(sym, p, q);
    if x == y {
      LexIrreflexive(sym[p..]);
    } else if last[x] == last[y] {
      assert p != q;
      SuffixArrayOrder(sym, sa, x, y);
    }
  }

  /** f sends the row of suffix p to the row of suffix p - 1. */
  ghost predicate StepsBack(sa: seq<int>, f: seq<int>) {
    && Permutation(f) && |sa| == |f|
    && (forall x {:trigger StepsBackAt(sa, f, x)} :: 0 <= x < |f| ==> StepsBackAt(sa, f, x))
  }

  ghost predicate StepsBackAt(sa: seq<int>, f: seq<int>, x: int)
    requires Permutation(f) && |sa| == |f| && 0 <= x < |f|
  {
    sa[f[x]] == Pred(sa[x], |sa|)
  }

  ghost function RowOfPred(sa: seq<int>, r: seq<int>): (g: seq<int>)
    requires Permutation(sa) && Inverse(sa, r)
    ensures |g| == |sa| && forall i :: 0 <= i < |sa| ==> g[i] == r[Pred(sa[i], |sa|)]
  {
    seq(|sa|, i requires 0 <= i < |sa| => r[Pred(sa[i], |sa|)])
  }

  lemma RowOfPredPermutes(sa: seq<int>, r: seq<int>)
    requires Permutation(sa) && Inverse(sa, r) && Permutation(r)
    ensures StepsBack(sa, RowOfPred(sa, r))
  {
    var g := RowOfPred(sa, r);
    forall i, j | 0 <= i < |g| && 0 <= j < |g| && i != j ensures g[i] != g[j] {
      assert sa[i] != sa[j];
      assert Pred(sa[i], |sa|) != Pred(sa[j], |sa|);
    }
    forall i | 0 <= i < |g| ensures sa[g[i]] == Pred(sa[i], |sa|) {
      assert sa[r[Pred(sa[i], |sa|)]] == Pred(sa[i], |sa|);
    }
  }

  /** The LF mapping of a last column steps back through the text. */
  lemma LfStepsBack(sym: seq<int>, K: int, sa: seq<int>, last: seq<int>)
    requires ValidText(sym, K) && IsSuffixArray(sym, sa) && LastColumn(sym, sa, last)
    ensures StepsBack(sa, Lf(last))
  {
    var r := InverseExists(sa);
    var g := RowOfPred(sa, r);
    RowOfPredPermutes(sa, r);
    forall i, j ensures SortsAt(last, g, i, j) {
      if 0 <= i < |g| && 0 <= j < |g| {
        assert StepsBackAt(sa, g, i) && StepsBackAt(sa, g, j);
        PredOrder(sym, K, sa, last, i, j);
        SuffixArrayOrder(sym, sa, g[i], g[j]);
      }
    }
    LfUnique(last, g);
  }

  /** After k steps from the text's own row the walk is at the suffix of length k. */
  lemma {:induction false} WalkPosition(sa: seq<int>, f: seq<int>, index: nat, k: nat)
    requires StepsBack(sa, f) && index < |sa| && sa[index] == 0 && k <= |sa|
    ensures sa[Iter(f, index, k)] == if k == 0 then 0 else |sa| - k
  {
    if k > 0 {
      WalkPosition(sa, f, index, k - 1);
      assert StepsBackAt(sa, f, Iter(f, index, k - 1));
    }
  }

  /** out is the text that a walk of f over last spells from row index, back to front. */
  ghost predicate Spells(last: seq<int>, f: seq<int>, index: int, out: seq<Byte>) {
    && Permutation(f) && |f| == |last| == |out| + 1 && 0 <= index < |f|
    && (forall k {:trigger SpellsAt(last, f, index, out, k)} :: 1 <= k <= |out| ==> SpellsAt(last, f, index, out, k))
  }

  ghost predicate SpellsAt(last: seq<int>, f: seq<int>, index: int, out: seq<Byte>, k: int)
    requires Permutation(f) && |f| == |last| && 0 <= index < |f| && 1 <= k <= |out|
  {
    last[Iter(f, index, k)] == RankByte(out[|out| - k])
  }

  /** The walk over a transform meets the text's bytes from the last to the first. */
  lemma WalkSpells(s: seq<Byte>, b: seq<Byte>, index: int)
    requires IsTransform(s, b, index)
    ensures Spells(InsertSentinel(b, index), Lf(InsertSentinel(b, index)), index, s)
  {
    var sa :| TransformVia(s, sa, b, index);
    var last, sym := InsertSentinel(b, index), Symbols(s);
    SymbolsValid(s);
    LfStepsBack(sym, 256, sa, last);
    StepsBackSpells(s, sa, last, Lf(last), index);
  }

  lemma StepsBackSpells(s: seq<Byte>, sa: seq<int>, last: seq<int>, f: seq<int>, index: nat)
    requires StepsBack(sa, f) && LastColumn(Symbols(s), sa, last) && index < |sa| && sa[index] == 0
    ensures Spells(last, f, index, s)
  {
    forall k | 1 <= k <= |s| ensures SpellsAt(last, f, index, s, k) {
      WalkPosition(sa, f, index, k);
      assert last[Iter(f, index, k)] == Symbols(s)[|s| - k];
    }
  }

  lemma SpellsOnce(last: seq<int>, f: seq<int>, index: int, s: seq<Byte>, s': seq<Byte>)
    requires Spells(last, f, index, s) && Spells(last, f, index, s')
    ensures s == s'
  {
    forall i | 0 <= i < |s| ensures s[i] == s'[i] {
      assert SpellsAt(last, f, index, s, |s| - i) && SpellsAt(last, f, index, s', |s| - i);
    }
  }

  /** A transform determines its text. */
  lemma TransformInjective(s: seq<Byte>, s': seq<Byte>, b: seq<Byte>, index: int)
    requires IsTransform(s, b, index) && IsTransform(s', b, index)
    ensures s == s'
  {
    WalkSpells(s, b, index);
    WalkSpells(s', b, index);
    SpellsOnce(InsertSentinel(b, index), Lf(InsertSentinel(b, index)), index, s, s');
  }

  /** A walk that spells real bytes throughout never returns to the sentinel's row. */
  lemma SpellsNoReturn(last: seq<int>, f: seq<int>, index: int, out: seq<Byte>)
    requires Spells(last, f, index, out) && last[index] == 0
    ensures NoReturn(f, index, |out|)
  {
    forall k | 1 <= k <= |out| ensures Iter(f, index, k) != index {
      assert SpellsAt(last, f, index, out, k);
    }
  }

  /** Every transform is one LF cycle. */
  lemma TransformIsCycle(s: seq<Byte>, b: seq<Byte>, index: int)
    requires IsTransform(s, b, index)
    ensures SingleCycle(Lf(InsertSentinel(b, index)), index)
  {
    var last := InsertSentinel(b, index);
    WalkSpells(s, b, index);
    SpellsNoReturn(last, Lf(last), index, s);
    SingleCycleIff(Lf(last), index);
  }

  /** The suffix array, and so the transform, of a text is unique. */
  lemma SuffixArrayUnique(s: seq<int>, sa: seq<int>, sb: seq<int>)
    requires IsSuffixArray(s, sa) && IsSuffixArray(s, sb)
    ensures sa == sb
  {
    var ra := InverseExists(sa);
    var rb := InverseExists(sb);
    forall i, j | 0 <= i < |s| && 0 <= j < |s| ensures ra[i] < ra[j] <==> rb[i] < rb[j] {
      SuffixArrayOrder(s, sa, ra[i], ra[j]);
      SuffixArrayOrder(s, sb, rb[i], rb[j]);
    }
    forall x | 0 <= x < |s| ensures sa[x] == sb[x] {
      SameOrderSamePermutation(ra, rb, sa[x]);
      assert ra[sa[x]] == x;
    }
  }

  lemma TransformUnique(s: seq<Byte>, b: seq<Byte>, index: int, b': seq<Byte>, index': int)
    requires IsTransform(s, b, index) && IsTransform(s, b', index')
    ensures b == b' && index == index'
  {
    var sa :| TransformVia(s, sa, b, index);
    var sa' :| TransformVia(s, sa', b', index');
    SuffixArrayUnique(Symbols(s), sa, sa');
    var last, last' := InsertSentinel(b, index), InsertSentinel(b', index');
    assert index == index';
    forall k | 0 <= k < |b| ensures b[k] == b'[k] {
      var x := if k < index then k else k + 1;
      assert last[x] == last'[x];
      assert ColumnAt(b, index, x) == RankByte(b[k]) && ColumnAt(b', index, x) == RankByte(b'[k]);
    }
  }

  // ---- backward direction: any single cycle is a transform ----

  /** The symbol a walk row shows is the one before the suffix spelled so far. */
  lemma SpelledSymbol(last: seq<int>, f: seq<int>, index: int, out: seq<Byte>, k: nat)
    requires Spells(last, f, index, out) && last[index] == 0 && k <= |out|
    ensures last[Iter(f, index, k)] == Symbols(out)[|out| - k]
  {
    if k > 0 { assert SpellsAt(last, f, index, out, k); }
  }

  ghost predicate ShowsAt(last: seq<int>, f: seq<int>, index: int, sym: seq<int>, k: nat)
    requires Permutation(f) && |sym| == |f| == |last| && 0 <= index < |f|
  {
    k < |f| ==> last[Iter(f, index, k)] == sym[|f| - 1 - k]
  }

  /** Walk rows and the suffixes of the spelled text are in the same order. */
  lemma {:induction false} WalkOrder(last: seq<int>, f: seq<int>, index: int, sym: seq<int>, k: nat, l: nat)
    requires SortsRows(last, f) && |sym| == |f| && 0 <= index < |f| && ValidText(sym, 256)
    requires forall k: nat {:trigger ShowsAt(last, f, index, sym, k)} :: ShowsAt(last, f, index, sym, k)
    requires 1 <= k <= |f| && 1 <= l <= |f|
    ensures Iter(f, index, k) < Iter(f, index, l) <==> LexLess(sym[|f| - k..], sym[|f| - l..])
    decreases k
  {
    var p, q := |f| - k, |f| - l;
    assert ShowsAt(last, f, index, sym, k - 1) && ShowsAt(last, f, index, sym, l - 1);
    if sym[p] == sym[q] {
      if k == 1 || l == 1 {
        SentinelOnce(sym, p, q);
        LexIrreflexive(sym[p + 1..]);
      } else {
        WalkOrder(last, f, index, sym, k - 1, l - 1);
      }
    }
    WalkOrderStep(last, f, Iter(f, index, k - 1), Iter(f, index, l - 1), sym, p, q);
  }

  lemma SentinelOnce(sym: seq<int>, p: nat, q: nat)
    requires ValidText(sym, 256) && p < |sym| && q < |sym| && sym[p] == sym[q] && (p == |sym| - 1 || q == |sym| - 1)
    ensures p == q
  {
  }

  lemma WalkOrderStep(last: seq<int>, f: seq<int>, x: nat, y: nat, sym: seq<int>, p: nat, q: nat)
    requires x < |last| && y < |last| && p < |sym| && q < |sym| && last[x] == sym[p] && last[y] == sym[q]
    requires SortsRows(last, f)
    requires sym[p] == sym[q] ==> (x < y <==> LexLess(sym[p + 1..], sym[q + 1..]))
    ensures f[x] < f[y] <==> LexLess(sym[p..], sym[q..])
  {
    assert SortsAt(last, f, x, y);
    SuffixCons(sym, p, q);
  }

  /** sa gives row y the position that the walk from index assigns to it. */
  ghost predicate WalkPos(f: seq<int>, index: int, sa: seq<int>, y: int)
    requires Permutation(f) && 0 <= index < |f|
  {
    0 <= y < |sa| && 0 <= sa[y] < |f| && Iter(f, index, |f| - sa[y]) == y
  }

  lemma OnOrbit(f: seq<int>, x: int, y: int) returns (k: nat)
    requires Permutation(f) && 0 <= x < |f| && NoReturn(f, x, |f| - 1) && 0 <= y < |f|
    ensures 1 <= k <= |f| && Iter(f, x, k) == y
  {
    OrbitPermutes(f, x);
    PermutationHits(Orbit(f, x, |f|), y);
    k :| 0 <= k < |f| && Orbit(f, x, |f|)[k] == y;
    if k == 0 { k := |f|; }
  }

  ghost predicate WalkArray(f: seq<int>, index: int, sa: seq<int>) {
    && Permutation(f) && 0 <= index < |f| && |sa| == |f|
    && (forall y {:trigger WalkPos(f, index, sa, y)} :: 0 <= y < |f| ==> WalkPos(f, index, sa, y))
  }

  lemma WalkArrayExists(f: seq<int>, index: int) returns (sa: seq<int>)
    requires Permutation(f) && 0 <= index < |f| && NoReturn(f, index, |f| - 1)
    ensures WalkArray(f, index, sa)
  {
    sa := [];
    while |sa| < |f|
      invariant |sa| <= |f|
      invariant forall y {:trigger WalkPos(f, index, sa, y)} :: 0 <= y < |sa| ==> WalkPos(f, index, sa, y)
    {
      var k := OnOrbit(f, index, |sa|);
      ghost var before := sa;
      sa := sa + [|f| - k];
      forall y | 0 <= y < |sa| ensures WalkPos(f, index, sa, y) {
        if y < |before| { assert WalkPos(f, index, before, y); }
      }
    }
  }

  lemma WalkArrayPermutes(f: seq<int>, index: int, sa: seq<int>)
    requires WalkArray(f, index, sa)
    ensures Permutation(sa)
  {
    forall y | 0 <= y < |sa| ensures 0 <= sa[y] < |sa| {
      assert WalkPos(f, index, sa, y);
    }
    forall x, y | 0 <= x < |sa| && 0 <= y < |sa| && x != y ensures sa[x] != sa[y] {
      assert WalkPos(f, index, sa, x) && WalkPos(f, index, sa, y);
    }
  }

  /** Transforming what a single-cycle walk spells gives back the same bytes and index. */
  lemma SpelledIsTransform(b: seq<Byte>, index: nat, out: seq<Byte>)
    requires index <= |b| == |out| && Spells(InsertSentinel(b, index), Lf(InsertSentinel(b, index)), index, out)
    ensures IsTransform(out, b, index)
  {
    var last := InsertSentinel(b, index);
    var f := Lf(last);
    LfSorts(last);
    SpellsNoReturn(last, f, index, out);
    var sa := WalkArrayExists(f, index);
    WalkArrayPermutes(f, index, sa);
    SpelledSuffixArray(last, f, index, out, sa);
    SpelledLastColumn(last, f, index, out, sa);
    assert TransformVia(out, sa, b, index);
  }

  lemma SpelledSuffixArray(last: seq<int>, f: seq<int>, index: int, out: seq<Byte>, sa: seq<int>)
    requires Spells(last, f, index, out) && SortsRows(last, f) && last[index] == 0
    requires WalkArray(f, index, sa) && Permutation(sa)
    ensures IsSuffixArray(Symbols(out), sa)
  {
    var sym := Symbols(out);
    SymbolsValid(out);
    forall k: nat ensures ShowsAt(last, f, index, sym, k) {
      if k < |f| { SpelledSymbol(last, f, index, out, k); }
    }
    forall x, y | 0 <= x < y < |sa| ensures LexLess(sym[sa[x]..], sym[sa[y]..]) {
      assert WalkPos(f, index, sa, x) && WalkPos(f, index, sa, y);
      WalkOrder(last, f, index, sym, |f| - sa[x], |f| - sa[y]);
    }
  }

  lemma SpelledLastColumn(last: seq<int>, f: seq<int>, index: int, out: seq<Byte>, sa: seq<int>)
    requires Spells(last, f, index, out) && last[index] == 0
    requires WalkArray(f, index, sa) && Permutation(sa)
    ensures LastColumn(Symbols(out), sa, last) && sa[index] == 0
  {
    SpellsNoReturn(last, f, index, out);
    OrbitPermutes(f, index);
    forall x | 0 <= x < |sa| ensures last[x] == Symbols(out)[Pred(sa[x], |f|)] {
      assert WalkPos(f, index, sa, x);
      if sa[x] > 0 { SpelledSymbol(last, f, index, out, |f| - sa[x]); }
    }
    assert WalkPos(f, index, sa, index);
  }
}
