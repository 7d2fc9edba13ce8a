/** Lyndon words and the factorization of a text into non-increasing Lyndon words:
    it exists, it is unique, and the step on which Duval's scan relies. */
module Lyndon {
  import opened LexOrder

  /** Nonempty and strictly smaller than each of its proper suffixes. */
  ghost predicate IsLyndon(w: seq<int>) {
    w != [] && forall j :: 0 < j < |w| ==> LexLess(w, w[j..])
  }

  /** A word smaller than one of its shorter suffixes differs from it inside that suffix. */
  lemma SuffixDifference(w: seq<int>, j: nat) returns (e: nat)
    requires 0 < j < |w| && LexLess(w, w[j..])
    ensures j + e < |w| && w[e] < w[j + e] && forall i :: 0 <= i < e ==> w[i] == w[j + i]
  {
    e := LexFirstDifference(w, w[j..]);
    forall i | 0 <= i < e ensures w[i] == w[j + i] {
      assert w[..e][i] == w[j..][..e][i];
    }
  }

  /** The converse: a first difference upwards makes the word smaller than the suffix. */
  lemma DifferenceSmaller(w: seq<int>, j: nat, e: nat)
    requires j + e < |w| && w[e] < w[j + e] && forall i :: 0 <= i < e ==> w[i] == w[j + i]
    ensures LexLess(w, w[j..])
  {
    assert w[..e] == w[j..][..e];
    LexDiffer(w, w[j..], e);
  }

  // ---- Duval's step ----

  /** x is a repeated Lyndon word of length len, cut off, then a symbol larger than the period predicts. */
  ghost predicate BrokenPeriod(x: seq<int>, len: nat) {
    && 1 <= len < |x|
    && IsLyndon(x[..len])
    && (forall i :: 0 <= i < |x| - 1 - len ==> x[i] == x[i + len])
    && x[|x| - 1 - len] < x[|x| - 1]
  }

  lemma BrokenPeriodShort(x: seq<int>, len: nat, j: nat)
    requires BrokenPeriod(x, len) && 0 < j < len
    ensures LexLess(x, x[j..])
  {
    var w := x[..len];
    assert LexLess(w, w[j..]);
    var e := SuffixDifference(w, j);
    forall i | 0 <= i < e ensures x[i] == x[j + i] {
      assert w[i] == w[j + i];
    }
    assert x[e] == w[e] && x[j + e] == w[j + e];
    DifferenceSmaller(x, j, e);
  }

  lemma BrokenPeriodShift(x: seq<int>, len: nat, j: nat)
    requires BrokenPeriod(x, len) && len <= j < |x|
    ensures LexLess(x[j - len..], x[j..])
  {
    var u, v := x[j - len..], x[j..];
    var d := |x| - 1 - j;
    forall i | 0 <= i < d ensures u[..d][i] == v[..d][i] {
      assert x[j - len + i] == x[j - len + i + len];
    }
    LexDiffer(u, v, d);
  }

  lemma {:induction false} BrokenPeriodSuffix(x: seq<int>, len: nat, j: nat)
    requires BrokenPeriod(x, len) && 0 < j < |x|
    ensures LexLess(x, x[j..])
    decreases j
  {
    if j < len {
      BrokenPeriodShort(x, len, j);
    } else {
      BrokenPeriodShift(x, len, j);
      if j == len {
        assert x[0..] == x;
      } else {
        BrokenPeriodSuffix(x, len, j - len);
        LexTransitive(x, x[j - len..], x[j..]);
      }
    }
  }

  /** Breaking the period upwards makes the whole word Lyndon. */
  lemma DuvalStep(x: seq<int>, len: nat)
    requires BrokenPeriod(x, len)
    ensures IsLyndon(x)
  {
    forall j | 0 < j < |x| ensures LexLess(x, x[j..]) { BrokenPeriodSuffix(x, len, j); }
  }

  // ---- factorizations ----

  /** The i-th word cut out by consecutive starts. */
  ghost function Word(s: seq<int>, st: seq<int>, i: nat): seq<int>
    requires Cuts(s, st) && i < |st| - 1
  {
    CutsAt(s, st, i);
    s[st[i]..st[i + 1]]
  }

  ghost predicate CutAt(s: seq<int>, st: seq<int>, i: int) {
    0 <= i < |st| - 1 ==> 0 <= st[i] < st[i + 1] <= |s|
  }

  /** st holds word starts from 0 up to |s|, strictly increasing. */
  ghost predicate Cuts(s: seq<int>, st: seq<int>) {
    && |st| >= 1 && st[0] == 0 && st[|st| - 1] == |s|
    && (forall i {:trigger CutAt(s, st, i)} :: CutAt(s, st, i))
  }

  lemma CutsAt(s: seq<int>, st: seq<int>, i: nat)
    requires Cuts(s, st) && i < |st| - 1
    ensures 0 <= st[i] < st[i + 1] <= |s|
  {
    assert CutAt(s, st, i);
  }

  lemma {:induction false} CutsIncrease(s: seq<int>, st: seq<int>, i: nat, j: nat)
    requires Cuts(s, st) && i <= j < |st|
    ensures 0 <= st[i] && st[i] + (j - i) <= st[j] <= |s|
    decreases j - i
  {
    if i < j {
      CutsIncrease(s, st, i, j - 1);
      assert CutAt(s, st, j - 1);
    } else if j < |st| - 1 {
      assert CutAt(s, st, j);
    }
  }

  /** Each word is Lyndon and no word is smaller than the next. */
  ghost predicate LyndonCuts(s: seq<int>, st: seq<int>) {
    && Cuts(s, st)
    && (forall i {:trigger Word(s, st, i)} :: 0 <= i < |st| - 1 ==> IsLyndon(Word(s, st, i)))
    && (forall i {:trigger NonIncreasing(s, st, i)} :: 0 <= i < |st| - 2 ==> NonIncreasing(s, st, i))
  }

  ghost predicate NonIncreasing(s: seq<int>, st: seq<int>, i: nat)
    requires Cuts(s, st) && i < |st| - 2
  {
    !LexLess(Word(s, st, i), Word(s, st, i + 1))
  }

  lemma LexNotLessTransitive(x: seq<int>, y: seq<int>, z: seq<int>)
    requires !LexLess(x, y) && !LexLess(y, z)
    ensures !LexLess(x, z)
  {
    if LexLess(x, z) {
      LexTotal(x, y);
      LexTotal(y, z);
      if LexLess(z, y) { LexTransitive(x, z, y); }
    }
  }

  lemma {:induction false} WordsDescend(s: seq<int>, st: seq<int>, i: nat, j: nat)
    requires LyndonCuts(s, st) && i <= j < |st| - 1
    ensures !LexLess(Word(s, st, i), Word(s, st, j))
    decreases j - i
  {
    if i == j {
      LexIrreflexive(Word(s, st, i));
    } else {
      WordsDescend(s, st, i, j - 1);
      assert NonIncreasing(s, st, j - 1);
      LexNotLessTransitive(Word(s, st, i), Word(s, st, j - 1), Word(s, st, j));
    }
  }

  // ---- uniqueness ----

  lemma {:induction false} PrefixNotLarger(x: seq<int>, d: nat)
    requires d <= |x|
    ensures !LexLess(x, x[..d])
  {
    if LexLess(x, x[..d]) {
      var e := LexFirstDifference(x, x[..d]);
    }
  }

  /** The piece index of a text position. */
  lemma {:induction false} PieceOf(s: seq<int>, st: seq<int>, p: nat, k: nat) returns (i: nat)
    requires Cuts(s, st) && p < |s| && k < |st| && st[k] <= p
    ensures k <= i < |st| - 1 && st[i] <= p < st[i + 1]
    decreases |st| - k
  {
    assert CutAt(s, st, k);
    if p < st[k + 1] { i := k; } else { i := PieceOf(s, st, p, k + 1); }
  }

  /** No Lyndon word starting at a cut reaches beyond the next cut. */
  lemma LongestLyndon(s: seq<int>, st: seq<int>, k: nat, e: nat)
    requires LyndonCuts(s, st) && k < |st| - 1 && 0 <= st[k] < st[k + 1] < e <= |s|
    ensures !IsLyndon(s[st[k]..e])
  {
    var a := st[k];
    CutsAt(s, st, k);
    var v := s[a..e];
    if IsLyndon(v) {
      var i := PieceOf(s, st, e - 1, k + 1);
      CutsAt(s, st, i);
      CutsIncrease(s, st, k + 1, i);
      var x := s[st[i]..e];
      assert x == v[st[i] - a..];
      WordsDescend(s, st, k, i);
      assert x == Word(s, st, i)[..e - st[i]];
      PrefixNotLarger(Word(s, st, i), e - st[i]);
      assert Word(s, st, k) == v[..st[k + 1] - a];
      PrefixNotLarger(v, st[k + 1] - a);
      LexNotLessTransitive(v, Word(s, st, k), Word(s, st, i));
      LexNotLessTransitive(v, Word(s, st, i), x);
    }
  }

  /** Lyndon factorizations agree cut by cut. */
  lemma {:induction false} SameCut(s: seq<int>, st: seq<int>, sr: seq<int>, k: nat)
    requires LyndonCuts(s, st) && LyndonCuts(s, sr) && k < |st| && k < |sr|
    ensures st[k] == sr[k]
  {
    if k > 0 {
      SameCut(s, st, sr, k - 1);
      CutsAt(s, st, k - 1);
      CutsAt(s, sr, k - 1);
      assert IsLyndon(Word(s, st, k - 1)) && IsLyndon(Word(s, sr, k - 1));
      if st[k] < sr[k] {
        LongestLyndon(s, st, k - 1, sr[k]);
      } else if sr[k] < st[k] {
        LongestLyndon(s, sr, k - 1, st[k]);
      }
    }
  }

  /** A text has at most one Lyndon factorization. */
  lemma LyndonUnique(s: seq<int>, st: seq<int>, sr: seq<int>)
    requires LyndonCuts(s, st) && LyndonCuts(s, sr)
    ensures st == sr
  {
    var m := if |st| <= |sr| then |st| else |sr|;
    SameCut(s, st, sr, m - 1);
    if m < |st| { CutsAt(s, st, m - 1); }
    if m < |sr| { CutsAt(s, sr, m - 1); }
    forall k | 0 <= k < m ensures st[k] == sr[k] { SameCut(s, st, sr, k); }
  }

  // ---- existence ----

  lemma ConcatBelowSecond(u: seq<int>, v: seq<int>)
    requires IsLyndon(u) && IsLyndon(v) && LexLess(u, v)
    ensures LexLess(u + v, v)
  {
    var d := LexFirstDifference(u, v);
    if d < |u| {
      assert (u + v)[..d] == u[..d];
      LexDiffer(u + v, v, d);
    } else {
      assert v[..|u|] == u;
      ConcatPrefix(u, v);
    }
  }

  lemma ConcatPrefix(u: seq<int>, v: seq<int>)
    requires |u| < |v| && v[..|u|] == u && LexLess(v, v[|u|..])
    ensures LexLess(u + v, v)
  {
    var y := v[|u|..];
    SharedPrefix(u, v, y);
    assert u + y == v;
  }

  lemma {:induction false} SharedPrefix(u: seq<int>, x: seq<int>, y: seq<int>)
    ensures LexLess(u + x, u + y) <==> LexLess(x, y)
  {
    if u == [] {
      assert u + x == x && u + y == y;
    } else {
      assert u + x == [u[0]] + (u[1..] + x) && u + y == [u[0]] + (u[1..] + y);
      LexCons(u[0], u[1..] + x, u[0], u[1..] + y);
      SharedPrefix(u[1..], x, y);
    }
  }

  /** Increasing Lyndon words concatenate to a Lyndon word. */
  lemma LyndonConcat(u: seq<int>, v: seq<int>)
    requires IsLyndon(u) && IsLyndon(v) && LexLess(u, v)
    ensures IsLyndon(u + v)
  {
    var x := u + v;
    ConcatBelowSecond(u, v);
    forall j | 0 < j < |x| ensures LexLess(x, x[j..]) {
      if j < |u| {
        var e := SuffixDifference(u, j);
        DifferenceSmaller(x, j, e);
      } else {
        assert x[j..] == v[j - |u|..];
        if j > |u| { LexTransitive(x, v, v[j - |u|..]); }
      }
    }
  }

  /** The longest Lyndon prefix. */
  lemma LongestPrefix(s: seq<int>) returns (e: nat)
    requires s != []
    ensures 1 <= e <= |s| && IsLyndon(s[..e])
    ensures forall f :: e < f <= |s| ==> !IsLyndon(s[..f])
  {
    e := 1;
    var f := 1;
    while f < |s|
      invariant 1 <= e <= f <= |s| && IsLyndon(s[..e])
      invariant forall g :: e < g <= f ==> !IsLyndon(s[..g])
    {
      f := f + 1;
      if IsLyndon(s[..f]) { e := f; }
    }
  }

  ghost function Shifted(e: int, st: seq<int>): (r: seq<int>)
    ensures |r| == |st| && forall i :: 0 <= i < |st| ==> r[i] == st[i] + e
  {
    seq(|st|, i requires 0 <= i < |st| => st[i] + e)
  }

  /** Every text has a Lyndon factorization. */
  lemma {:induction false} LyndonExists(s: seq<int>) returns (st: seq<int>)
    ensures LyndonCuts(s, st)
    decreases |s|
  {
    if s == [] {
      st := [0];
    } else {
      var e := LongestPrefix(s);
      var rest := LyndonExists(s[e..]);
      st := [0] + Shifted(e, rest);
      PrependCuts(s, e, rest);
    }
  }

  lemma PrependCuts(s: seq<int>, e: nat, rest: seq<int>)
    requires 1 <= e <= |s| && IsLyndon(s[..e]) && LyndonCuts(s[e..], rest)
    requires forall f :: e < f <= |s| ==> !IsLyndon(s[..f])
    ensures LyndonCuts(s, [0] + Shifted(e, rest))
  {
    var st := [0] + Shifted(e, rest);
    forall i ensures CutAt(s, st, i) {
      assert CutAt(s[e..], rest, i - 1);
    }
    forall i | 1 <= i < |st| - 1 ensures Word(s, st, i) == Word(s[e..], rest, i - 1) {
      CutsAt(s[e..], rest, i - 1);
    }
    assert Word(s, st, 0) == s[..e];
    forall i | 0 <= i < |st| - 2 ensures NonIncreasing(s, st, i) {
      if i > 0 {
        assert NonIncreasing(s[e..], rest, i - 1);
      } else {
        CutsAt(s[e..], rest, 0);
        var v := Word(s[e..], rest, 0);
        assert s[..e] + v == s[..e + rest[1]];
        if LexLess(s[..e], v) { LyndonConcat(s[..e], v); }
      }
    }
  }
}
