/** Infinite periodic words: a finite word repeated forever, read from some offset.
    Their order is decided by finitely many symbols, and for Lyndon words it follows
    the order of the finite words (bwt89_bwts.c:69-86). */
module PeriodicWords {
  import opened LexOrder
  import opened Lyndon

  /** Symbol i of w repeated forever. */
  ghost function Cyc(w: seq<int>, i: nat): int
    requires w != []
    decreases i
  {
    if i < |w| then w[i] else Cyc(w, i - |w|)
  }

  lemma CycPeriod(w: seq<int>, i: nat)
    requires w != []
    ensures Cyc(w, i + |w|) == Cyc(w, i)
  {
  }

  /** The words from offsets o and q agree at depth d. */
  ghost predicate AgreeAt(w: seq<int>, o: nat, v: seq<int>, q: nat, d: nat)
    requires w != [] && v != []
  {
    Cyc(w, o + d) == Cyc(v, q + d)
  }

  ghost predicate AgreeBelow(w: seq<int>, o: nat, v: seq<int>, q: nat, n: nat)
    requires w != [] && v != []
  {
    forall d: nat {:trigger AgreeAt(w, o, v, q, d)} :: d < n ==> AgreeAt(w, o, v, q, d)
  }

  ghost predicate Same(w: seq<int>, o: nat, v: seq<int>, q: nat)
    requires w != [] && v != []
  {
    forall d: nat {:trigger AgreeAt(w, o, v, q, d)} :: AgreeAt(w, o, v, q, d)
  }

  /** First difference at depth d, downwards. */
  ghost predicate LessAt(w: seq<int>, o: nat, v: seq<int>, q: nat, d: nat)
    requires w != [] && v != []
  {
    AgreeBelow(w, o, v, q, d) && Cyc(w, o + d) < Cyc(v, q + d)
  }

  /** The infinite word of w from offset o is smaller than that of v from q. */
  ghost predicate Less(w: seq<int>, o: nat, v: seq<int>, q: nat)
    requires w != [] && v != []
  {
    exists d: nat :: LessAt(w, o, v, q, d)
  }

  /** Words of periods a and b that agree on a + b symbols agree forever. */
  lemma {:induction false} FineWilf(w: seq<int>, o: nat, v: seq<int>, q: nat, d: nat)
    requires w != [] && v != [] && AgreeBelow(w, o, v, q, |w| + |v|)
    ensures AgreeAt(w, o, v, q, d)
    decreases d
  {
    var a, b := |w|, |v|;
    if d >= a + b {
      FineWilf(w, o, v, q, d - a);
      FineWilf(w, o, v, q, d - b);
      FineWilf(w, o, v, q, d - a - b);
      CycPeriod(w, o + d - a);
      CycPeriod(w, o + d - b - a);
      CycPeriod(v, q + d - b);
      CycPeriod(v, q + d - a - b);
    } else {
      assert AgreeAt(w, o, v, q, d);
    }
  }

  lemma AgreeForever(w: seq<int>, o: nat, v: seq<int>, q: nat)
    requires w != [] && v != [] && AgreeBelow(w, o, v, q, |w| + |v|)
    ensures Same(w, o, v, q)
  {
    forall d: nat ensures AgreeAt(w, o, v, q, d) { FineWilf(w, o, v, q, d); }
  }

  // ---- it is a strict weak order ----

  lemma LessNotSame(w: seq<int>, o: nat, v: seq<int>, q: nat)
    requires w != [] && v != [] && Less(w, o, v, q)
    ensures !Same(w, o, v, q) && !Same(v, q, w, o) && !Less(v, q, w, o)
  {
    var d: nat :| LessAt(w, o, v, q, d);
    assert !AgreeAt(w, o, v, q, d) && !AgreeAt(v, q, w, o, d);
    forall e: nat ensures !LessAt(v, q, w, o, e) {
      if e < d { assert AgreeAt(w, o, v, q, e); }
    }
  }

  /** Both words begin with c: they order as what follows. */
  lemma LessStep(w: seq<int>, o: nat, v: seq<int>, q: nat)
    requires w != [] && v != []
    ensures Less(w, o, v, q) <==> Cyc(w, o) < Cyc(v, q) || (Cyc(w, o) == Cyc(v, q) && Less(w, o + 1, v, q + 1))
  {
    var o', q' := o + 1, q + 1;
    if Cyc(w, o) < Cyc(v, q) {
      assert LessAt(w, o, v, q, 0);
    }
    if Cyc(w, o) == Cyc(v, q) && Less(w, o', v, q') {
      var d: nat :| LessAt(w, o', v, q', d);
      forall e: nat | e < d + 1 ensures AgreeAt(w, o, v, q, e) {
        if e > 0 { assert AgreeAt(w, o', v, q', e - 1); }
      }
      assert LessAt(w, o, v, q, d + 1);
    }
    if Less(w, o, v, q) {
      var d: nat :| LessAt(w, o, v, q, d);
      if d > 0 {
        assert AgreeAt(w, o, v, q, 0);
        forall e: nat | e < d - 1 ensures AgreeAt(w, o', v, q', e) {
          assert AgreeAt(w, o, v, q, e + 1);
        }
        assert LessAt(w, o', v, q', d - 1);
      }
    }
  }

  lemma SameStep(w: seq<int>, o: nat, v: seq<int>, q: nat)
    requires w != [] && v != []
    ensures Same(w, o, v, q) <==> Cyc(w, o) == Cyc(v, q) && Same(w, o + 1, v, q + 1)
  {
    var o', q' := o + 1, q + 1;
    if Same(w, o, v, q) {
      assert AgreeAt(w, o, v, q, 0);
      SameShift(w, o, v, q, 1);
    }
    if Cyc(w, o) == Cyc(v, q) && Same(w, o', v, q') {
      forall e: nat ensures AgreeAt(w, o, v, q, e) {
        if e > 0 { assert AgreeAt(w, o', v, q', e - 1); }
      }
    }
  }

  lemma SameShift(w: seq<int>, o: nat, v: seq<int>, q: nat, k: nat)
    requires w != [] && v != [] && Same(w, o, v, q)
    ensures Same(w, o + k, v, q + k)
  {
    var o', q' := o + k, q + k;
    forall e: nat ensures AgreeAt(w, o', v, q', e) { assert AgreeAt(w, o, v, q, k + e); }
  }

  /** Reading a whole period later reads the same word. */
  lemma SamePeriod(w: seq<int>, o: nat)
    requires w != []
    ensures Same(w, o + |w|, w, o) && Same(w, o, w, o + |w|)
  {
    var o' := o + |w|;
    forall d: nat ensures AgreeAt(w, o', w, o, d) && AgreeAt(w, o, w, o', d) { CycPeriod(w, o + d); }
  }

  lemma LessSame(w: seq<int>, o: nat, v: seq<int>, q: nat, u: seq<int>, r: nat)
    requires w != [] && v != [] && u != [] && Less(w, o, v, q) && Same(v, q, u, r)
    ensures Less(w, o, u, r)
  {
    var d: nat :| LessAt(w, o, v, q, d);
    forall e: nat | e < d ensures AgreeAt(w, o, u, r, e) {
      assert AgreeAt(w, o, v, q, e) && AgreeAt(v, q, u, r, e);
    }
    assert AgreeAt(v, q, u, r, d);
    assert LessAt(w, o, u, r, d);
  }

  lemma SameLess(w: seq<int>, o: nat, v: seq<int>, q: nat, u: seq<int>, r: nat)
    requires w != [] && v != [] && u != [] && Same(w, o, v, q) && Less(v, q, u, r)
    ensures Less(w, o, u, r)
  {
    var d: nat :| LessAt(v, q, u, r, d);
    forall e: nat | e < d ensures AgreeAt(w, o, u, r, e) {
      assert AgreeAt(w, o, v, q, e) && AgreeAt(v, q, u, r, e);
    }
    assert AgreeAt(w, o, v, q, d);
    assert LessAt(w, o, u, r, d);
  }

  /** Replacing both words by words that read the same keeps the order. */
  lemma LessCongruent(w: seq<int>, o: nat, o': nat, v: seq<int>, q: nat, q': nat)
    requires w != [] && v != [] && Same(w, o, w, o') && Same(v, q, v, q')
    ensures Less(w, o, v, q) <==> Less(w, o', v, q')
    ensures Same(w, o, v, q) <==> Same(w, o', v, q')
  {
    SameSymmetric(w, o, w, o');
    SameSymmetric(v, q, v, q');
    if Less(w, o, v, q) { LessSame(w, o, v, q, v, q'); SameLess(w, o', w, o, v, q'); }
    if Less(w, o', v, q') { LessSame(w, o', v, q', v, q); SameLess(w, o, w, o', v, q); }
    if Same(w, o, v, q) { SameTransitive(w, o, v, q, v, q'); SameTransitive(w, o', w, o, v, q'); }
    if Same(w, o', v, q') { SameTransitive(w, o', v, q', v, q); SameTransitive(w, o, w, o', v, q); }
  }

  lemma SameTransitive(w: seq<int>, o: nat, v: seq<int>, q: nat, u: seq<int>, r: nat)
    requires w != [] && v != [] && u != [] && Same(w, o, v, q) && Same(v, q, u, r)
    ensures Same(w, o, u, r)
  {
    forall d: nat ensures AgreeAt(w, o, u, r, d) { assert AgreeAt(w, o, v, q, d) && AgreeAt(v, q, u, r, d); }
  }

  lemma SameReflexive(w: seq<int>, o: nat)
    requires w != []
    ensures Same(w, o, w, o)
  {
  }

  lemma SameSymmetric(w: seq<int>, o: nat, v: seq<int>, q: nat)
    requires w != [] && v != [] && Same(w, o, v, q)
    ensures Same(v, q, w, o)
  {
    forall d: nat ensures AgreeAt(v, q, w, o, d) { assert AgreeAt(w, o, v, q, d); }
  }

  // ---- Lyndon words ----

  /** A Lyndon word repeated is smaller than its proper rotations repeated. */
  lemma LyndonMinimal(w: seq<int>, o: nat)
    requires IsLyndon(w) && 0 < o < |w|
    ensures Less(w, 0, w, o)
  {
    var e := SuffixDifference(w, o);
    forall d: nat | d < e ensures AgreeAt(w, 0, w, o, d) {
      assert w[d] == w[o + d];
    }
    assert LessAt(w, 0, w, o, e);
  }

  /** The first place where a longer Lyndon word leaves the repetition of its Lyndon prefix. */
  lemma LeavesPrefix(u: seq<int>, v: seq<int>) returns (d: nat)
    requires IsLyndon(u) && 0 < |v| < |u| && u[..|v|] == v
    ensures |v| <= d < |u| && u[d] > Cyc(v, d) && forall i: nat :: i < d ==> u[i] == Cyc(v, i)
  {
    var L := |v|;
    forall i: nat | i < L ensures u[i] == Cyc(v, i) {
      assert u[i] == u[..L][i];
    }
    var e := SuffixDifference(u, L);
    d := L;
    while u[d] == Cyc(v, d)
      invariant L <= d <= L + e
      invariant forall i: nat :: i < d ==> u[i] == Cyc(v, i)
      decreases L + e - d
    {
      CycPeriod(v, d - L);
      assert u[d] == u[d - L];
      assert d - L != e;
      d := d + 1;
    }
    CycPeriod(v, d - L);
    assert u[d - L] == Cyc(v, d);
  }

  /** Lyndon words order alike finite and repeated. */
  lemma LyndonOrder(v: seq<int>, u: seq<int>)
    requires IsLyndon(u) && IsLyndon(v) && LexLess(v, u)
    ensures Less(v, 0, u, 0)
  {
    var d := LexFirstDifference(v, u);
    if d < |v| {
      forall i: nat | i < d ensures AgreeAt(v, 0, u, 0, i) {
        assert v[..d][i] == u[..d][i];
      }
      assert LessAt(v, 0, u, 0, d);
    } else {
      assert u[..|v|] == v;
      var e := LeavesPrefix(u, v);
      forall i: nat | i < e ensures AgreeAt(v, 0, u, 0, i) {
        assert u[i] == Cyc(v, i);
      }
      assert LessAt(v, 0, u, 0, e);
    }
  }

  /** No rotation of a Lyndon word repeated is smaller than the word repeated. */
  lemma {:induction false} LyndonLeast(w: seq<int>, k: nat)
    requires IsLyndon(w)
    ensures Less(w, 0, w, k) || Same(w, 0, w, k)
    decreases k
  {
    if k >= |w| {
      LyndonLeast(w, k - |w|);
      SamePeriod(w, k - |w|);
      if Less(w, 0, w, k - |w|) {
        LessSame(w, 0, w, k - |w|, w, k);
      } else {
        SameTransitive(w, 0, w, k - |w|, w, k);
      }
    } else if k > 0 {
      LyndonMinimal(w, k);
    }
  }

  /** If a rotation of v repeats to u repeated, then u is not the smaller of the two. */
  lemma NotLessRotated(u: seq<int>, v: seq<int>, k: nat)
    requires IsLyndon(u) && IsLyndon(v) && Same(v, k, u, 0)
    ensures !Less(u, 0, v, 0)
  {
    LyndonLeast(v, k);
    if Less(v, 0, v, k) {
      LessSame(v, 0, v, k, u, 0);
      LessNotSame(v, 0, u, 0);
    } else {
      SameTransitive(v, 0, v, k, u, 0);
      if Less(u, 0, v, 0) { LessNotSame(u, 0, v, 0); }
    }
  }

  /** The rotation that undoes an offset. */
  lemma Unrotate(u: seq<int>, o: nat, v: seq<int>, q: nat)
    requires u != [] && v != [] && o <= |u| && Same(v, q, u, o)
    ensures Same(v, q + (|u| - o), u, 0)
  {
    SameShift(v, q, u, o, |u| - o);
    SamePeriod(u, 0);
    SameTransitive(v, q + (|u| - o), u, |u|, u, 0);
  }

  /** Rotations of Lyndon words that repeat to the same infinite word are the same rotation of the same word. */
  lemma SameRotation(u: seq<int>, o: nat, v: seq<int>, q: nat)
    requires IsLyndon(u) && IsLyndon(v) && o < |u| && q < |v| && Same(u, o, v, q)
    ensures u == v && o == q
  {
    SameSymmetric(u, o, v, q);
    Unrotate(u, o, v, q);
    Unrotate(v, q, u, o);
    NotLessRotated(u, v, q + (|u| - o));
    NotLessRotated(v, u, o + (|v| - q));
    LexTotal(u, v);
    if LexLess(u, v) { LyndonOrder(u, v); }
    if LexLess(v, u) { LyndonOrder(v, u); }
    if o < q { DistinctOffsets(u, o, q); }
    if q < o { DistinctOffsets(u, q, o); }
  }

  lemma DistinctOffsets(u: seq<int>, o: nat, q: nat)
    requires IsLyndon(u) && o < q < |u|
    ensures !Same(u, o, u, q) && !Same(u, q, u, o)
  {
    var k := q - o;
    LyndonMinimal(u, k);
    LessNotSame(u, 0, u, k);
    if Same(u, o, u, q) { SameSymmetric(u, o, u, q); }
    if Same(u, q, u, o) {
      Unrotate(u, o, u, q);
      SamePeriod(u, k);
      SameTransitive(u, k, u, k + |u|, u, 0);
    }
  }
}
