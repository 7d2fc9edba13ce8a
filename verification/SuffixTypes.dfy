/** Texts with a sentinel, the L/S classification of their suffixes and the
    leftmost-S (LMS) positions (bwt89_sa.c). */
module SuffixTypes {
  import opened LexOrder

  datatype SuffixType = L | S

  /** The input contract of SA-IS: the last symbol is 0 and is the unique minimum. */
  ghost predicate ValidText(s: seq<int>, K: int) {
    && |s| >= 1
    && s[|s| - 1] == 0
    && (forall i :: 0 <= i < |s| - 1 ==> 0 < s[i])
    && (forall i :: 0 <= i < |s| ==> 0 <= s[i] <= K)
  }

  /** The result contract: every position once, suffixes strictly increasing. */
  ghost predicate IsSuffixArray(s: seq<int>, sa: seq<int>) {
    && |sa| == |s|
    && Permutation(sa)
    && (forall x, y :: 0 <= x < y < |sa| ==> LexLess(s[sa[x]..], s[sa[y]..]))
  }

  function ClassifyOne(a: int, b: int, next: SuffixType): SuffixType {
    if a < b then S else if a > b then L else next
  }

  ghost predicate TypeAt(s: seq<int>, t: seq<SuffixType>, i: int)
    requires |t| == |s|
  {
    0 <= i < |s| - 1 ==> t[i] == ClassifyOne(s[i], s[i + 1], t[i + 1])
  }

  ghost predicate IsTypes(s: seq<int>, t: seq<SuffixType>) {
    && |t| == |s| >= 1
    && t[|s| - 1] == S
    && (forall i :: TypeAt(s, t, i))
  }

  predicate IsLms(t: seq<SuffixType>, x: int) {
    && 0 <= x < |t|
    && t[x] == S
    && (x == |t| - 1 || (x > 0 && t[x - 1] == L))
  }

  ghost predicate IsL(t: seq<SuffixType>, x: int) {
    0 <= x < |t| - 1 && t[x] == L
  }

  /** An S position other than the sentinel. */
  ghost predicate IsS(t: seq<SuffixType>, x: int) {
    0 <= x < |t| - 1 && t[x] == S
  }

  /** The suffixes sorted by the first induced pass: all L ones, plus the LMS seeds. */
  ghost predicate InFirstPass(t: seq<SuffixType>, x: int) {
    IsL(t, x) || IsLms(t, x)
  }

  lemma AfterL(s: seq<int>, t: seq<SuffixType>, K: int, i: int)
    requires ValidText(s, K) && IsTypes(s, t) && IsL(t, i)
    ensures i + 1 < |s| && InFirstPass(t, i + 1) && s[i + 1] <= s[i]
    ensures s[i + 1] == s[i] ==> IsL(t, i + 1)
  {
    assert TypeAt(s, t, i);
  }

  lemma AfterS(s: seq<int>, t: seq<SuffixType>, K: int, i: int)
    requires ValidText(s, K) && IsTypes(s, t) && IsS(t, i)
    ensures s[i] <= s[i + 1]
    ensures s[i + 1] == s[i] ==> IsS(t, i + 1)
  {
    assert TypeAt(s, t, i);
  }

  method ClassifyTypes(s: seq<int>) returns (t: array<SuffixType>)
    requires |s| >= 1
    ensures fresh(t) && IsTypes(s, t[..])
  {
    var n := |s|;
    t := new SuffixType[n](_ => S);
    var i := n - 2;
    while i >= 0
      invariant -1 <= i <= n - 2 || (n == 1 && i == -1)
      invariant t[n - 1] == S
      invariant forall k :: i < k < n - 1 ==> t[k] == ClassifyOne(s[k], s[k + 1], t[k + 1])
    {
      t[i] := ClassifyOne(s[i], s[i + 1], t[i + 1]);
      i := i - 1;
    }
    forall k ensures TypeAt(s, t[..], k) {
      if 0 <= k < n - 1 { assert t[k] == ClassifyOne(s[k], s[k + 1], t[k + 1]); }
    }
  }

  // ---- the suffixes themselves, as keys ----

  ghost function Suffixes(s: seq<int>): (r: seq<seq<int>>)
    ensures |r| == |s| && forall i :: 0 <= i < |s| ==> r[i] == s[i..]
  {
    seq(|s|, i requires 0 <= i < |s| => s[i..])
  }

  lemma SuffixCons(s: seq<int>, i: nat, j: nat)
    requires i < |s| && j < |s|
    ensures LexLess(s[i..], s[j..]) <==> s[i] < s[j] || (s[i] == s[j] && LexLess(s[i + 1..], s[j + 1..]))
  {
    assert s[i..] == [s[i]] + s[i + 1..] && s[j..] == [s[j]] + s[j + 1..];
    LexCons(s[i], s[i + 1..], s[j], s[j + 1..]);
  }

  /** Types are what they are meant to be: S suffixes precede their successor, L ones follow it. */
  lemma {:induction false} TypeMeaning(s: seq<int>, t: seq<SuffixType>, K: int, i: nat)
    requires ValidText(s, K) && IsTypes(s, t) && i < |s| - 1
    ensures t[i] == S ==> LexLess(s[i..], s[i + 1..])
    ensures t[i] == L ==> LexLess(s[i + 1..], s[i..])
    decreases |s| - i
  {
    SuffixCons(s, i, i + 1);
    SuffixCons(s, i + 1, i);
    assert TypeAt(s, t, i);
    if s[i] == s[i + 1] { TypeMeaning(s, t, K, i + 1); }
  }

  /** Among suffixes with the same first symbol, the L ones come first. */
  lemma {:induction false} LBeforeS(s: seq<int>, t: seq<SuffixType>, K: int, i: nat, j: nat)
    requires ValidText(s, K) && IsTypes(s, t) && i < |s| && j < |s|
    requires s[i] == s[j] && t[i] == L && t[j] == S
    ensures LexLess(s[i..], s[j..])
    decreases |s| - i
  {
    AfterL(s, t, K, i);
    SuffixCons(s, i, j);
    if j < |s| - 1 {
      AfterS(s, t, K, j);
      SuffixCons(s, i + 1, j + 1);
      if s[i + 1] == s[i] && s[j + 1] == s[j] { LBeforeS(s, t, K, i + 1, j + 1); }
    }
  }
}
