/** Comparing and merge-sorting the conjugates (bwt89_bwts.c:41-86, 186-298). */
module ConjugateSort {
  import opened LexOrder
  import opened PeriodicWords
  import opened Conjugates

  lemma MultipleAtLeast(a: int, n: int)
    requires a >= 1 && n >= 0
    ensures a * n >= n
  {
    assert a * n == (a - 1) * n + n;
  }

  lemma SameRemainder(n: int, q: int, m: int, k: int, r: int)
    requires 0 <= m < n && 0 <= r < n && q * n + m == k * n + r
    ensures m == r
  {
    assert (q - k) * n == r - m;
    if q > k { MultipleAtLeast(q - k, n); }
    if k > q {
      assert (k - q) * n == m - r;
      MultipleAtLeast(k - q, n);
    }
  }

  lemma RemainderUnique(i: nat, n: nat, k: nat, r: nat)
    requires n > 0 && r < n && i == k * n + r
    ensures i % n == r
  {
    SameRemainder(n, i / n, i % n, k, r);
  }

  lemma {:induction false} CycIsModulo(w: seq<int>, i: nat)
    requires w != []
    ensures Cyc(w, i) == w[i % |w|]
    decreases i
  {
    var n := |w|;
    if i < n {
      RemainderUnique(i, n, 0, i);
    } else {
      CycIsModulo(w, i - n);
      var k, r := (i - n) / n, (i - n) % n;
      assert i == (k + 1) * n + r;
      RemainderUnique(i, n, k + 1, r);
    }
  }

  /** Symbol d of the infinite word of the conjugate at p. */
  function ConjByte(s: seq<int>, ws: seq<int>, ln: seq<int>, p: int, d: nat): (c: int)
    requires PosOk(s, ws, ln, p)
    ensures c == Cyc(WordOf(s, ws, ln, p), p - ws[p] + d)
  {
    var a := ws[p];
    var off := (p - a + d) % ln[p];
    CycIsModulo(WordOf(s, ws, ln, p), p - a + d);
    assert s[a + off] == WordOf(s, ws, ln, p)[off];
    s[a + off]
  }

  /** conj_cmp: ln[p] + ln[q] symbols decide the order of the infinite words. */
  method ConjCmp(s: seq<int>, ws: seq<int>, ln: seq<int>, p: int, q: int) returns (r: int)
    requires PosOk(s, ws, ln, p) && PosOk(s, ws, ln, q)
    ensures r < 0 <==> CLess(s, ws, ln, p, q)
    ensures r > 0 <==> CLess(s, ws, ln, q, p)
    ensures r == 0 <==> CSame(s, ws, ln, p, q)
  {
    ghost var w, v, o, o' := WordOf(s, ws, ln, p), WordOf(s, ws, ln, q), p - ws[p], q - ws[q];
    var lim := ln[p] + ln[q];
    for d := 0 to lim
      invariant AgreeBelow(w, o, v, o', d)
    {
      var x := ConjByte(s, ws, ln, p, d);
      var y := ConjByte(s, ws, ln, q, d);
      if x < y {
        assert LessAt(w, o, v, o', d);
        LessNotSame(w, o, v, o');
        return -1;
      }
      if x > y {
        AgreeBelowSymmetric(w, o, v, o', d);
        assert LessAt(v, o', w, o, d);
        LessNotSame(v, o', w, o);
        return 1;
      }
    }
    AgreeForever(w, o, v, o');
    SameExcludes(w, o, v, o');
    return 0;
  }

  lemma AgreeBelowSymmetric(w: seq<int>, o: nat, v: seq<int>, q: nat, n: nat)
    requires w != [] && v != [] && AgreeBelow(w, o, v, q, n)
    ensures AgreeBelow(v, q, w, o, n)
  {
    forall d: nat | d < n ensures AgreeAt(v, q, w, o, d) { assert AgreeAt(w, o, v, q, d); }
  }

  lemma SameExcludes(w: seq<int>, o: nat, v: seq<int>, q: nat)
    requires w != [] && v != [] && Same(w, o, v, q)
    ensures !Less(w, o, v, q) && !Less(v, q, w, o)
  {
    if Less(w, o, v, q) { LessNotSame(w, o, v, q); }
    if Less(v, q, w, o) { LessNotSame(v, q, w, o); }
  }

  // ---- merge sort by the ranks r of the conjugates ----

  /** ord[k..l] rises strictly in r. */
  ghost predicate Rises(r: seq<int>, ord: seq<int>, k: int, l: int) {
    0 <= k < |ord| && 0 <= l < |ord| && 0 <= ord[k] < |r| && 0 <= ord[l] < |r| && r[ord[k]] < r[ord[l]]
  }

  /** ord[lo..hi] holds positions lo..hi only, in strictly rising order of r. */
  ghost predicate SortedRun(r: seq<int>, ord: seq<int>, lo: int, hi: int) {
    && 0 <= lo <= hi <= |ord| && hi <= |r|
    && (forall k :: lo <= k < hi ==> lo <= ord[k] < hi)
    && (forall k, l {:trigger Rises(r, ord, k, l)} :: lo <= k < l < hi ==> Rises(r, ord, k, l))
  }

  /** Taking from the right run exactly when its head comes first (take_right). */
  method TakeRight(s: seq<int>, ws: seq<int>, ln: seq<int>, ord: array<int>, i: nat, j: nat, mid: nat, hi: nat, ghost r: seq<int>) returns (right: bool)
    requires ConjOrder(s, ws, ln, r) && i <= mid <= j <= hi <= ord.Length && (i < mid || j < hi)
    requires i < mid ==> 0 <= ord[i] < |s|
    requires j < hi ==> 0 <= ord[j] < |s|
    requires i < mid && j < hi ==> ord[i] < ord[j]
    ensures right ==> j < hi && (i < mid ==> r[ord[j]] < r[ord[i]])
    ensures !right ==> i < mid && (j < hi ==> r[ord[i]] < r[ord[j]])
  {
    if j >= hi { return false; }
    if i >= mid { return true; }
    assert OrderedAt(s, ws, ln, r, ord[j], ord[i]) && OrderedAt(s, ws, ln, r, ord[i], ord[j]);
    var cmp := ConjCmp(s, ws, ln, ord[j], ord[i]);
    return cmp < 0;
  }

  /** What the merge has put into tmp[lo..k]: values in range, rising, all below both remaining heads. */
  ghost predicate Merged(r: seq<int>, ord: seq<int>, tmp: seq<int>, lo: int, mid: int, hi: int, i: int, j: int, k: int) {
    && SortedRun(r, ord, lo, mid) && SortedRun(r, ord, mid, hi)
    && lo <= i <= mid <= j <= hi && k - lo == (i - lo) + (j - mid) && hi <= |tmp|
    && (forall x :: lo <= x < k ==> lo <= tmp[x] < hi)
    && (forall x, y {:trigger Rises(r, tmp, x, y)} :: lo <= x < y < k ==> Rises(r, tmp, x, y))
    && (forall x {:trigger BelowHeads(r, ord, tmp, mid, hi, i, j, x)} :: lo <= x < k ==> BelowHeads(r, ord, tmp, mid, hi, i, j, x))
  }

  ghost predicate BelowHeads(r: seq<int>, ord: seq<int>, tmp: seq<int>, mid: int, hi: int, i: int, j: int, x: int) {
    && 0 <= x < |tmp| && 0 <= tmp[x] < |r| && 0 <= i && mid <= |ord| && 0 <= j && hi <= |ord|
    && (i < mid ==> 0 <= ord[i] < |r| && r[tmp[x]] < r[ord[i]])
    && (j < hi ==> 0 <= ord[j] < |r| && r[tmp[x]] < r[ord[j]])
  }

  lemma MergeStep(r: seq<int>, ord: seq<int>, tmp: seq<int>, lo: int, mid: int, hi: int, i: int, j: int, k: int, right: bool)
    requires Merged(r, ord, tmp, lo, mid, hi, i, j, k) && k < hi
    requires right ==> j < hi && (i < mid ==> r[ord[j]] < r[ord[i]])
    requires !right ==> i < mid && (j < hi ==> r[ord[i]] < r[ord[j]])
    ensures right ==> Merged(r, ord, tmp[k := ord[j]], lo, mid, hi, i, j + 1, k + 1)
    ensures !right ==> Merged(r, ord, tmp[k := ord[i]], lo, mid, hi, i + 1, j, k + 1)
  {
    var i', j', v := if right then i else i + 1, if right then j + 1 else j, if right then ord[j] else ord[i];
    var tmp' := tmp[k := v];
    forall x, y | lo <= x < y < k + 1 ensures Rises(r, tmp', x, y) {
      if y < k { assert Rises(r, tmp, x, y); } else { assert BelowHeads(r, ord, tmp, mid, hi, i, j, x); }
    }
    forall x | lo <= x < k + 1 ensures BelowHeads(r, ord, tmp', mid, hi, i', j', x) {
      if x < k { assert BelowHeads(r, ord, tmp, mid, hi, i, j, x); }
      if right && j' < hi { assert Rises(r, ord, j, j'); }
      if !right && i' < mid { assert Rises(r, ord, i, i'); }
    }
  }

  /** The merge loop: both runs of ord, interleaved into tmp. */
  method MergeInto(s: seq<int>, ws: seq<int>, ln: seq<int>, ord: array<int>, tmp: array<int>, lo: nat, mid: nat, hi: nat, ghost r: seq<int>)
    requires ConjOrder(s, ws, ln, r) && ord != tmp && ord.Length == tmp.Length == |s|
    requires SortedRun(r, ord[..], lo, mid) && SortedRun(r, ord[..], mid, hi)
    modifies tmp
    ensures SortedRun(r, tmp[..], lo, hi)
  {
    var i, j, k := lo, mid, lo;
    while k < hi
      invariant lo <= k <= hi && Merged(r, ord[..], tmp[..], lo, mid, hi, i, j, k)
    {
      assert i < mid ==> lo <= ord[i] < mid;
      assert j < hi ==> mid <= ord[j] < hi;
      var right := TakeRight(s, ws, ln, ord, i, j, mid, hi, r);
      MergeStep(r, ord[..], tmp[..], lo, mid, hi, i, j, k, right);
      ghost var before := tmp[..];
      var src := if right then j else i;
      tmp[k] := ord[src];
      assert tmp[..] == before[k := ord[src]];
      if right { j := j + 1; } else { i := i + 1; }
      k := k + 1;
    }
  }

  /** merge_run: two adjacent sorted runs become one. */
  method MergeRun(s: seq<int>, ws: seq<int>, ln: seq<int>, ord: array<int>, tmp: array<int>, lo: nat, mid: nat, hi: nat, ghost r: seq<int>)
    requires ConjOrder(s, ws, ln, r) && ord != tmp && ord.Length == tmp.Length == |s|
    requires SortedRun(r, ord[..], lo, mid) && SortedRun(r, ord[..], mid, hi)
    modifies ord, tmp
    ensures SortedRun(r, ord[..], lo, hi)
    ensures forall x :: 0 <= x < ord.Length && !(lo <= x < hi) ==> ord[x] == old(ord[x])
  {
    CopyRange(tmp, ord, lo, hi);
    MergeInto(s, ws, ln, ord, tmp, lo, mid, hi, r);
    ghost var merged := tmp[..];
    CopyRange(ord, tmp, lo, hi);
    SameRun(r, merged, ord[..], lo, hi);
  }

  /** copy_to_tmp and copy_from_tmp over one stretch: dst[lo..hi] becomes src[lo..hi]. */
  method CopyRange(dst: array<int>, src: array<int>, lo: nat, hi: nat)
    requires dst != src && lo <= hi <= dst.Length == src.Length
    modifies dst
    ensures forall x :: lo <= x < hi ==> dst[x] == src[x]
    ensures forall x :: 0 <= x < dst.Length && !(lo <= x < hi) ==> dst[x] == old(dst[x])
  {
    for t := lo to hi
      invariant forall x :: lo <= x < t ==> dst[x] == src[x]
      invariant forall x :: 0 <= x < dst.Length && !(lo <= x < t) ==> dst[x] == old(dst[x])
    {
      dst[t] := src[t];
    }
  }

  lemma SameRun(r: seq<int>, a: seq<int>, b: seq<int>, lo: int, hi: int)
    requires SortedRun(r, a, lo, hi) && |b| == |a| && forall x :: lo <= x < hi ==> b[x] == a[x]
    ensures SortedRun(r, b, lo, hi)
  {
    forall k, l | lo <= k < l < hi ensures Rises(r, b, k, l) {
      assert Rises(r, a, k, l);
    }
  }

  /** sort_run: positions lo..hi, initially in place, end in the order of their conjugates. */
  method SortRun(s: seq<int>, ws: seq<int>, ln: seq<int>, ord: array<int>, tmp: array<int>, lo: nat, hi: nat, ghost r: seq<int>)
    requires ConjOrder(s, ws, ln, r) && ord != tmp && ord.Length == tmp.Length == |s| && lo <= hi <= |s|
    requires forall x :: lo <= x < hi ==> ord[x] == x
    modifies ord, tmp
    ensures SortedRun(r, ord[..], lo, hi)
    ensures forall x :: 0 <= x < ord.Length && !(lo <= x < hi) ==> ord[x] == old(ord[x])
    decreases hi - lo
  {
    if hi - lo <= 1 { return; }
    var mid := lo + (hi - lo) / 2;
    SortRun(s, ws, ln, ord, tmp, lo, mid, r);
    ghost var half := ord[..];
    SortRun(s, ws, ln, ord, tmp, mid, hi, r);
    SameRun(r, half, ord[..], lo, mid);
    MergeRun(s, ws, ln, ord, tmp, lo, mid, hi, r);
  }

  /** A complete sorted run lists every position at its rank. */
  lemma SortedIsInverse(r: seq<int>, ord: seq<int>)
    requires Permutation(r) && |ord| == |r| && SortedRun(r, ord, 0, |r|)
    ensures Inverse(r, ord)
  {
    forall x | 0 <= x < |r| ensures r[ord[x]] == x {
      RankAtLeast(r, ord, x);
      RankAtMost(r, ord, x);
    }
    forall i | 0 <= i < |r| ensures ord[r[i]] == i {
      assert r[ord[r[i]]] == r[i];
    }
  }

  lemma {:induction false} RankAtLeast(r: seq<int>, ord: seq<int>, x: nat)
    requires Permutation(r) && |ord| == |r| && SortedRun(r, ord, 0, |r|) && x < |r|
    ensures r[ord[x]] >= x
  {
    if x > 0 {
      RankAtLeast(r, ord, x - 1);
      assert Rises(r, ord, x - 1, x);
    }
  }

  lemma {:induction false} RankAtMost(r: seq<int>, ord: seq<int>, x: nat)
    requires Permutation(r) && |ord| == |r| && SortedRun(r, ord, 0, |r|) && x < |r|
    ensures r[ord[x]] <= x
    decreases |r| - x
  {
    if x < |r| - 1 {
      RankAtMost(r, ord, x + 1);
      assert Rises(r, ord, x, x + 1);
    }
  }
}
