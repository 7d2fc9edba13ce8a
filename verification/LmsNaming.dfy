/** Naming of LMS substrings and the reduced string (bwt89_sa.c:93-137, 282-312).

    lms_equal compares two LMS substrings without their closing symbol. The names
    it produces still order the reduced string's suffixes as the text's own. */
module LmsNaming {
  import opened LexOrder
  import opened SuffixTypes
  import opened InducedSort
  import opened StageOrders

  /** The first LMS position after start, or |t|. */
  ghost function NextLms(t: seq<SuffixType>, start: nat): (r: nat)
    requires start < |t|
    ensures start < r <= |t|
    ensures r < |t| ==> IsLms(t, r)
    ensures forall k :: start < k < r ==> !IsLms(t, k)
    decreases |t| - start
  {
    if start + 1 == |t| then |t| else if IsLms(t, start + 1) then start + 1 else NextLms(t, start + 1)
  }

  method FindNextLms(t: seq<SuffixType>, start: nat) returns (r: nat)
    requires start < |t|
    ensures r == NextLms(t, start)
  {
    var i := start + 1;
    while i < |t|
      invariant start < i <= |t|
      invariant NextLms(t, i - 1) == NextLms(t, start)
    {
      if IsLms(t, i) { return i; }
      i := i + 1;
    }
    return |t|;
  }

  /** The symbols from an LMS position up to, excluding, the next one. */
  ghost function Body(s: seq<int>, t: seq<SuffixType>, a: nat): seq<int>
    requires |t| == |s| && a < |s|
  {
    s[a..NextLms(t, a)]
  }

  method LmsEqual(s: seq<int>, t: seq<SuffixType>, a: nat, b: nat) returns (r: bool)
    requires |t| == |s| && a < |s| && b < |s|
    ensures r <==> Body(s, t, a) == Body(s, t, b)
  {
    var ea := FindNextLms(t, a);
    var eb := FindNextLms(t, b);
    if ea - a != eb - b {
      assert |Body(s, t, a)| != |Body(s, t, b)|;
      return false;
    }
    for i := a to ea
      invariant forall k :: 0 <= k < i - a ==> Body(s, t, a)[k] == Body(s, t, b)[k]
    {
      if s[i] != s[b + (i - a)] {
        assert Body(s, t, a)[i - a] != Body(s, t, b)[i - a];
        return false;
      }
    }
    return true;
  }

  // ---- what the first stage's keys spell ----

  /** e is the first LMS position after p. */
  ghost predicate Span(t: seq<SuffixType>, p: int, e: int) {
    0 <= p < e < |t| && IsLms(t, e) && forall k {:trigger IsLms(t, k)} :: p < k < e ==> !IsLms(t, k)
  }

  /** The typed symbols p..e, followed by e itself. */
  ghost predicate Spells(s: seq<int>, t: seq<SuffixType>, p: int, e: int, k: seq<int>)
    requires |t| == |s|
  {
    && 0 <= p < e < |s|
    && |k| == e - p + 2
    && (forall x :: 0 <= x <= e - p ==> k[x] == Enc(s, t, p + x))
    && k[e - p + 1] == e
  }

  lemma NextLmsSpan(t: seq<SuffixType>, i: nat)
    requires i < |t| - 1 && t[|t| - 1] == S
    ensures Span(t, i, NextLms(t, i))
  {
    assert IsLms(t, |t| - 1);
  }

  lemma SpellsCons(s: seq<int>, t: seq<SuffixType>, p: nat, e: int, k: seq<int>)
    requires |t| == |s| && p < |s| && Spells(s, t, p + 1, e, k)
    ensures Spells(s, t, p, e, [Enc(s, t, p)] + k)
  {
  }

  lemma {:induction false} KeyLShape(s: seq<int>, t: seq<SuffixType>, K: int, i: int)
    requires ValidText(s, K) && IsTypes(s, t) && IsL(t, i)
    ensures Spells(s, t, i, NextLms(t, i), KeyL(s, t, i))
    decreases |s| - i
  {
    AfterL(s, t, K, i);
    if !IsLms(t, i + 1) {
      KeyLShape(s, t, K, i + 1);
      SpellsCons(s, t, i, NextLms(t, i + 1), KeyL(s, t, i + 1));
    }
  }

  lemma {:induction false} KeySShape(s: seq<int>, t: seq<SuffixType>, K: int, i: nat)
    requires ValidText(s, K) && IsTypes(s, t) && i < |s| - 1
    ensures Span(t, i, NextLms(t, i)) && Spells(s, t, i, NextLms(t, i), KeyS(s, t, i))
    decreases |s| - i
  {
    NextLmsSpan(t, i);
    if IsL(t, i) {
      KeyLShape(s, t, K, i);
    } else {
      AfterS(s, t, K, i);
      assert TypeAt(s, t, i);
      KeySShape(s, t, K, i + 1);
      SpellsCons(s, t, i, NextLms(t, i + 1), KeyS(s, t, i + 1));
    }
  }

  lemma BeforeLms(s: seq<int>, t: seq<SuffixType>, K: int, e: nat)
    requires ValidText(s, K) && IsTypes(s, t) && 0 < e < |s| && IsLms(t, e)
    ensures t[e - 1] == L
  {
    assert TypeAt(s, t, e - 1);
  }

  /** A typed LMS substring is never a proper prefix of another. */
  lemma NoProperPrefix(s: seq<int>, t: seq<SuffixType>, K: int, p: nat, e: nat, q: nat, f: nat)
    requires ValidText(s, K) && IsTypes(s, t) && Span(t, p, e) && Span(t, q, f)
    requires q + (e - p) < |s|
    requires Enc(s, t, e) == Enc(s, t, q + (e - p)) && Enc(s, t, e - 1) == Enc(s, t, q + (e - p) - 1)
    ensures f - q <= e - p
  {
    BeforeLms(s, t, K, e);
    assert IsLms(t, q + (e - p));
  }

  ghost function Encs(s: seq<int>, t: seq<SuffixType>, i: nat, j: nat): (r: seq<int>)
    requires |t| == |s| && i <= j <= |s|
    ensures |r| == j - i && forall k :: 0 <= k < j - i ==> r[k] == Enc(s, t, i + k)
  {
    seq(j - i, k requires 0 <= k < j - i => Enc(s, t, i + k))
  }

  /** Two spans hold the same typed LMS substring. */
  ghost predicate SameSpan(s: seq<int>, t: seq<SuffixType>, p: int, e: int, q: int, f: int)
    requires |t| == |s|
  {
    && 0 <= p < e < |s| && 0 <= q < f < |s|
    && e - p == f - q
    && Encs(s, t, p, e + 1) == Encs(s, t, q, f + 1)
  }

  /** Suffixes with a common prefix order as what follows it. */
  lemma {:induction false} SuffixSkip(s: seq<int>, p: nat, q: nat, d: nat)
    requires p + d <= |s| && q + d <= |s| && s[p..p + d] == s[q..q + d]
    ensures LexLess(s[p..], s[q..]) <==> LexLess(s[p + d..], s[q + d..])
    decreases d
  {
    if d > 0 {
      assert s[p] == s[p..p + d][0] == s[q..q + d][0] == s[q];
      assert s[p + 1..p + d] == s[p..p + d][1..] == s[q..q + d][1..] == s[q + 1..q + d];
      SuffixSkip(s, p + 1, q + 1, d - 1);
      SuffixCons(s, p, q);
    }
  }

  lemma {:induction false} Sandwich(x: seq<int>, y: seq<int>, z: seq<int>, c: nat)
    requires LexLess(x, y) && LexLess(y, z)
    requires c <= |x| && c <= |z| && x[..c] == z[..c]
    ensures c <= |y| && y[..c] == x[..c]
  {
    if c > 0 {
      assert x[0] == x[..c][0] == z[..c][0] == z[0];
      assert y[0] == x[0];
      assert x[1..][..c - 1] == x[..c][1..] == z[..c][1..] == z[1..][..c - 1];
      Sandwich(x[1..], y[1..], z[1..], c - 1);
      assert y[..c] == [y[0]] + y[1..][..c - 1];
      assert x[..c] == [x[0]] + x[1..][..c - 1];
    }
  }

  /** A key that starts with p's substring spells the same substring. */
  lemma PrefixIsSame(s: seq<int>, t: seq<SuffixType>, K: int, p: nat, e: nat, kp: seq<int>, q: nat, f: nat, kq: seq<int>)
    requires ValidText(s, K) && IsTypes(s, t) && Span(t, p, e) && Span(t, q, f)
    requires Spells(s, t, p, e, kp) && Spells(s, t, q, f, kq)
    requires e - p < |kq| && forall x :: 0 <= x <= e - p ==> kp[x] == kq[x]
    ensures SameSpan(s, t, p, e, q, f)
  {
    if e - p <= f - q {
      assert kp[e - p] == kq[e - p] && kp[e - p - 1] == kq[e - p - 1];
      NoProperPrefix(s, t, K, p, e, q, f);
    } else {
      assert kp[f - q] == kq[f - q] && kp[f - q - 1] == kq[f - q - 1];
      NoProperPrefix(s, t, K, q, f, p, e);
    }
    var a, b := Encs(s, t, p, e + 1), Encs(s, t, q, f + 1);
    forall x | 0 <= x <= e - p ensures a[x] == b[x] {
      assert kp[x] == kq[x];
    }
  }

  /** Unless they spell the same substring, first-stage keys order suffixes truly. */
  lemma KeyOrderIsSuffixOrder(s: seq<int>, t: seq<SuffixType>, K: int, p: nat, e: nat, kp: seq<int>, q: nat, f: nat, kq: seq<int>)
    requires ValidText(s, K) && IsTypes(s, t) && Span(t, p, e) && Span(t, q, f)
    requires Spells(s, t, p, e, kp) && Spells(s, t, q, f, kq)
    requires LexLess(kp, kq) && !SameSpan(s, t, p, e, q, f)
    ensures LexLess(s[p..], s[q..])
  {
    var d := LexFirstDifference(kp, kq);
    forall x | 0 <= x < d ensures kp[x] == kq[x] {
      assert kp[..d][x] == kq[..d][x];
    }
    if d > e - p {
      PrefixIsSame(s, t, K, p, e, kp, q, f, kq);
    } else if d > f - q {
      PrefixIsSame(s, t, K, q, f, kq, p, e, kp);
    } else {
      TypedDifference(s, t, K, p, e, kp, q, f, kq, d);
    }
  }

  lemma TypedDifference(s: seq<int>, t: seq<SuffixType>, K: int, p: nat, e: nat, kp: seq<int>, q: nat, f: nat, kq: seq<int>, d: nat)
    requires ValidText(s, K) && IsTypes(s, t)
    requires Spells(s, t, p, e, kp) && Spells(s, t, q, f, kq) && d <= e - p && d <= f - q
    requires (forall x :: 0 <= x < d ==> kp[x] == kq[x]) && kp[d] < kq[d]
    ensures LexLess(s[p..], s[q..])
  {
    SpellsSymbols(s, t, p, e, kp, q, f, kq, d);
    SuffixSkip(s, p, q, d);
    SuffixCons(s, p + d, q + d);
    if s[p + d] == s[q + d] { LBeforeS(s, t, K, p + d, q + d); }
  }

  lemma SpellsSymbols(s: seq<int>, t: seq<SuffixType>, p: nat, e: nat, kp: seq<int>, q: nat, f: nat, kq: seq<int>, d: nat)
    requires |t| == |s|
    requires Spells(s, t, p, e, kp) && Spells(s, t, q, f, kq) && d <= e - p && d <= f - q
    requires forall x :: 0 <= x < d ==> kp[x] == kq[x]
    ensures s[p..p + d] == s[q..q + d]
  {
    var a, b := s[p..p + d], s[q..q + d];
    forall x | 0 <= x < d ensures a[x] == b[x] {
      assert kp[x] == kq[x];
    }
  }

  // ---- names along the sorted LMS list ----

  /** ls lists LMS positions, smallest key first. */
  ghost predicate SortedLms(s: seq<int>, t: seq<SuffixType>, ls: seq<int>) {
    && |t| == |s|
    && (forall k :: 0 <= k < |ls| ==> IsLms(t, ls[k]))
    && (forall k, l :: 0 <= k < l < |ls| ==> LexLess(KeyS(s, t, ls[k]), KeyS(s, t, ls[l])))
  }

  ghost predicate NameStep(s: seq<int>, t: seq<SuffixType>, ls: seq<int>, nm: seq<int>, k: int)
    requires |t| == |s| && |nm| == |ls| && 0 < k < |ls| && IsLms(t, ls[k - 1]) && IsLms(t, ls[k])
  {
    nm[k] == nm[k - 1] + if Body(s, t, ls[k - 1]) == Body(s, t, ls[k]) then 0 else 1
  }

  /** nm[k] is the name given to ls[k] (name_one). */
  ghost predicate Naming(s: seq<int>, t: seq<SuffixType>, ls: seq<int>, nm: seq<int>) {
    && |nm| == |ls| >= 1 && |t| == |s|
    && (forall k :: 0 <= k < |ls| ==> IsLms(t, ls[k]))
    && nm[0] == 0
    && (forall k {:trigger NameStep(s, t, ls, nm, k)} :: 0 < k < |ls| ==> NameStep(s, t, ls, nm, k))
  }

  lemma {:induction false} NamesGrow(s: seq<int>, t: seq<SuffixType>, ls: seq<int>, nm: seq<int>, k: nat, l: nat)
    requires Naming(s, t, ls, nm) && k <= l < |ls|
    ensures nm[k] <= nm[l] <= nm[k] + (l - k)
    ensures nm[k] == nm[l] ==> Body(s, t, ls[k]) == Body(s, t, ls[l])
    decreases l - k
  {
    if k < l {
      NamesGrow(s, t, ls, nm, k, l - 1);
      assert NameStep(s, t, ls, nm, l);
    }
  }

  /** Text positions p and q start the same typed LMS substring. */
  ghost predicate SameSubstring(s: seq<int>, t: seq<SuffixType>, p: int, q: int)
    requires |t| == |s|
  {
    0 <= p < |s| - 1 && 0 <= q < |s| - 1 && SameSpan(s, t, p, NextLms(t, p), q, NextLms(t, q))
  }

  lemma SameSubstringSameBody(s: seq<int>, t: seq<SuffixType>, p: nat, q: nat)
    requires |t| == |s| && SameSubstring(s, t, p, q)
    ensures Body(s, t, p) == Body(s, t, q)
  {
    var e, f := NextLms(t, p), NextLms(t, q);
    forall k | 0 <= k < e - p ensures s[p..e][k] == s[q..f][k] {
      assert Encs(s, t, p, e + 1)[k] == Encs(s, t, q, f + 1)[k];
    }
  }

  lemma {:induction false} SameSubstringSameName(s: seq<int>, t: seq<SuffixType>, K: int, ls: seq<int>, nm: seq<int>, k: nat, l: nat)
    requires ValidText(s, K) && IsTypes(s, t) && SortedLms(s, t, ls) && Naming(s, t, ls, nm)
    requires k <= l < |ls| && SameSubstring(s, t, ls[k], ls[l])
    ensures nm[k] == nm[l]
    decreases l - k
  {
    if k < l - 1 {
      Between(s, t, K, ls[k], ls[l - 1], ls[l]);
      SameSubstringSameName(s, t, K, ls, nm, k, l - 1);
    }
    if k < l { SameNameStep(s, t, ls, nm, k, l); }
  }

  lemma SameNameStep(s: seq<int>, t: seq<SuffixType>, ls: seq<int>, nm: seq<int>, k: nat, l: nat)
    requires Naming(s, t, ls, nm) && k < l < |ls| && nm[k] == nm[l - 1]
    requires SameSubstring(s, t, ls[k], ls[l]) && (k < l - 1 ==> SameSubstring(s, t, ls[k], ls[l - 1]))
    ensures nm[k] == nm[l]
  {
    if k < l - 1 { SameSubstringSameBody(s, t, ls[k], ls[l - 1]); }
    SameSubstringSameBody(s, t, ls[k], ls[l]);
    assert NameStep(s, t, ls, nm, l);
  }

  /** Everything sorted between two equal substrings is that substring again. */
  lemma Between(s: seq<int>, t: seq<SuffixType>, K: int, p: nat, r: nat, q: nat)
    requires ValidText(s, K) && IsTypes(s, t) && r < |s| && SameSubstring(s, t, p, q)
    requires LexLess(KeyS(s, t, p), KeyS(s, t, r)) && LexLess(KeyS(s, t, r), KeyS(s, t, q))
    ensures SameSubstring(s, t, p, r)
  {
    if r == |s| - 1 {
      SentinelFirst(s, t, K, p, r);
    } else {
      KeySShape(s, t, K, p);
      KeySShape(s, t, K, q);
      KeySShape(s, t, K, r);
      BetweenKeys(s, t, K, p, NextLms(t, p), KeyS(s, t, p), r, NextLms(t, r), KeyS(s, t, r), q, NextLms(t, q), KeyS(s, t, q));
    }
  }

  lemma BetweenKeys(s: seq<int>, t: seq<SuffixType>, K: int, p: nat, e: nat, kp: seq<int>,
                    r: nat, g: nat, kr: seq<int>, q: nat, f: nat, kq: seq<int>)
    requires ValidText(s, K) && IsTypes(s, t) && Span(t, p, e) && Span(t, r, g) && SameSpan(s, t, p, e, q, f)
    requires Spells(s, t, p, e, kp) && Spells(s, t, r, g, kr) && Spells(s, t, q, f, kq)
    requires LexLess(kp, kr) && LexLess(kr, kq)
    ensures SameSpan(s, t, p, e, r, g)
  {
    var c := e - p + 1;
    forall x | 0 <= x < c ensures kp[x] == kq[x] {
      assert Encs(s, t, p, e + 1)[x] == Encs(s, t, q, f + 1)[x];
    }
    assert kp[..c] == kq[..c];
    Sandwich(kp, kr, kq, c);
    forall x | 0 <= x < c ensures kp[x] == kr[x] {
      assert kp[..c][x] == kr[..c][x];
    }
    PrefixIsSame(s, t, K, p, e, kp, r, g, kr);
  }

  lemma SentinelFirst(s: seq<int>, t: seq<SuffixType>, K: int, p: nat, q: nat)
    requires ValidText(s, K) && IsTypes(s, t) && p < |s| && q < |s|
    requires LexLess(KeyS(s, t, p), KeyS(s, t, q))
    ensures q < |s| - 1
  {
    LexIrreflexive(KeyS(s, t, q));
  }

  /** Smaller names mean smaller suffixes. */
  lemma NameOrder(s: seq<int>, t: seq<SuffixType>, K: int, ls: seq<int>, nm: seq<int>, k: nat, l: nat)
    requires ValidText(s, K) && IsTypes(s, t) && SortedLms(s, t, ls) && Naming(s, t, ls, nm)
    requires k < |ls| && l < |ls| && nm[k] < nm[l]
    ensures LexLess(s[ls[k]..], s[ls[l]..])
  {
    if l <= k { NamesGrow(s, t, ls, nm, l, k); }
    if SameSubstring(s, t, ls[k], ls[l]) { SameSubstringSameName(s, t, K, ls, nm, k, l); }
    DistinctKeysOrder(s, t, K, ls[k], ls[l]);
  }

  lemma DistinctKeysOrder(s: seq<int>, t: seq<SuffixType>, K: int, p: nat, q: nat)
    requires ValidText(s, K) && IsTypes(s, t) && p < |s| && q < |s|
    requires LexLess(KeyS(s, t, p), KeyS(s, t, q)) && !SameSubstring(s, t, p, q)
    ensures LexLess(s[p..], s[q..])
  {
    SentinelFirst(s, t, K, p, q);
    if p == |s| - 1 {
      SuffixCons(s, p, q);
    } else {
      KeySShape(s, t, K, p);
      KeySShape(s, t, K, q);
      KeyOrderIsSuffixOrder(s, t, K, p, NextLms(t, p), KeyS(s, t, p), q, NextLms(t, q), KeyS(s, t, q));
    }
  }
}
