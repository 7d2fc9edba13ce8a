/** The LF mapping of a last column: rows sent to their place in the stable order by
    symbol. Both inverse transforms walk its cycles (bwt89_bwt.c:183-216, bwt89_bwts.c:312-322). */
module LfMapping {
  import opened LexOrder
  import opened InducedSort

  /** Row x comes before row y when sorted stably by last symbol. */
  ghost predicate StableLess(last: seq<int>, x: int, y: int) {
    0 <= x < |last| && 0 <= y < |last| && (last[x] < last[y] || (last[x] == last[y] && x < y))
  }

  ghost function RowKeys(last: seq<int>): (r: seq<seq<int>>)
    ensures |r| == |last| && forall i :: 0 <= i < |last| ==> r[i] == [last[i], i]
  {
    seq(|last|, i requires 0 <= i < |last| => [last[i], i])
  }

  ghost function Lf(last: seq<int>): (r: seq<int>)
    ensures |r| == |last|
  {
    Ranks(RowKeys(last))
  }

  lemma RowKeyOrder(last: seq<int>, x: nat, y: nat)
    requires x < |last| && y < |last|
    ensures LexLess(RowKeys(last)[x], RowKeys(last)[y]) <==> StableLess(last, x, y)
  {
    assert [last[x], x] == [last[x]] + [x] && [last[y], y] == [last[y]] + [y];
    LexCons(last[x], [x], last[y], [y]);
    assert LexLess([x], [y]) <==> x < y;
  }

  /** Lf is a permutation, and it sorts rows stably by symbol. */
  lemma LfOrder(last: seq<int>, x: nat, y: nat)
    requires x < |last| && y < |last|
    ensures Lf(last)[x] < Lf(last)[y] <==> StableLess(last, x, y)
  {
    RowKeyOrder(last, x, y);
    RankOrder(RowKeys(last), x, y);
  }

  /** f sends rows x and y to places in their stable order by symbol. */
  ghost predicate SortsAt(last: seq<int>, f: seq<int>, x: int, y: int) {
    0 <= x < |last| == |f| && 0 <= y < |last| ==> (f[x] < f[y] <==> StableLess(last, x, y))
  }

  ghost predicate SortsRows(last: seq<int>, f: seq<int>) {
    && Permutation(f) && |f| == |last|
    && (forall x, y {:trigger SortsAt(last, f, x, y)} :: SortsAt(last, f, x, y))
  }

  lemma LfSorts(last: seq<int>)
    ensures SortsRows(last, Lf(last))
  {
    LfPermutes(last);
    forall x, y ensures SortsAt(last, Lf(last), x, y) {
      if 0 <= x < |last| && 0 <= y < |last| { LfOrder(last, x, y); }
    }
  }

  lemma LfPermutes(last: seq<int>)
    ensures Permutation(Lf(last))
  {
    forall i, j | 0 <= i < |last| && 0 <= j < |last| && RowKeys(last)[i] == RowKeys(last)[j] ensures i == j {
      assert RowKeys(last)[i][1] == i && RowKeys(last)[j][1] == j;
    }
    RanksPermute(RowKeys(last));
  }

  /** A permutation that sorts rows stably by symbol is the LF mapping. */
  lemma LfUnique(last: seq<int>, g: seq<int>)
    requires SortsRows(last, g)
    ensures g == Lf(last)
  {
    var f := Lf(last);
    LfSorts(last);
    forall x, y | 0 <= x < |last| && 0 <= y < |last| ensures f[x] < f[y] <==> g[x] < g[y] {
      assert SortsAt(last, f, x, y) && SortsAt(last, g, x, y);
    }
    forall x | 0 <= x < |last| ensures f[x] == g[x] {
      SameOrderSamePermutation(f, g, x);
    }
  }

  // ---- computing it by counting ----

  ghost function Earlier(last: seq<int>, i: nat, c: int): (r: set<int>)
    requires i <= |last|
  {
    set j | 0 <= j < i && last[j] == c
  }

  /** The counted value: smaller symbols anywhere, plus equal symbols above. */
  lemma LfCounts(last: seq<int>, i: nat)
    requires i < |last|
    ensures Lf(last)[i] == Head(last, last[i]) + |Earlier(last, i, last[i])|
  {
    var a, b := Smaller(last, last[i]), Earlier(last, i, last[i]);
    forall j | 0 <= j < |last| ensures j in Below(RowKeys(last), i) <==> j in a + b {
      RowKeyOrder(last, j, i);
    }
    assert Below(RowKeys(last), i) == a + b && a !! b;
  }

  lemma EarlierStep(last: seq<int>, i: nat, c: int)
    requires i < |last|
    ensures |Earlier(last, i + 1, c)| == |Earlier(last, i, c)| + (if last[i] == c then 1 else 0)
  {
    if last[i] == c {
      assert Earlier(last, i + 1, c) == Earlier(last, i, c) + {i};
    } else {
      assert Earlier(last, i + 1, c) == Earlier(last, i, c);
    }
  }

  // ---- walking it ----

  /** The row reached from x in k steps of f. */
  ghost function Iter(f: seq<int>, x: int, k: nat): (y: int)
    requires Permutation(f) && 0 <= x < |f|
    ensures 0 <= y < |f|
  {
    if k == 0 then x else f[Iter(f, x, k - 1)]
  }

  /** Every row is reached from x: f is one cycle through all rows. */
  ghost predicate SingleCycle(f: seq<int>, x: int) {
    && Permutation(f) && 0 <= x < |f|
    && forall y :: 0 <= y < |f| ==> Reached(f, x, y)
  }

  ghost predicate Reached(f: seq<int>, x: int, y: int)
    requires Permutation(f) && 0 <= x < |f|
  {
    exists k :: Iter(f, x, k) == y
  }

  /** The walk from x does not return to x within n steps. */
  ghost predicate NoReturn(f: seq<int>, x: int, n: int)
    requires Permutation(f) && 0 <= x < |f|
  {
    forall k :: 1 <= k <= n ==> Iter(f, x, k) != x
  }

  lemma {:induction false} IterBack(f: seq<int>, x: int, i: nat, j: nat)
    requires Permutation(f) && 0 <= x < |f| && i <= j && Iter(f, x, i) == Iter(f, x, j)
    ensures Iter(f, x, j - i) == x
  {
    if i > 0 { IterBack(f, x, i - 1, j - 1); }
  }

  ghost function Orbit(f: seq<int>, x: int, n: nat): (r: seq<int>)
    requires Permutation(f) && 0 <= x < |f|
    ensures |r| == n && forall k :: 0 <= k < n ==> r[k] == Iter(f, x, k)
  {
    seq(n, k requires 0 <= k => Iter(f, x, k))
  }

  lemma OrbitPermutes(f: seq<int>, x: int)
    requires Permutation(f) && 0 <= x < |f| && NoReturn(f, x, |f| - 1)
    ensures Permutation(Orbit(f, x, |f|)) && Iter(f, x, |f|) == x
  {
    var o := Orbit(f, x, |f|);
    forall i, j | 0 <= i < j < |f| ensures o[i] != o[j] {
      if o[i] == o[j] { IterBack(f, x, i, j); }
    }
    PermutationHits(o, Iter(f, x, |f|));
    var i :| 0 <= i < |o| && o[i] == Iter(f, x, |f|);
    IterBack(f, x, i, |f|);
  }

  lemma {:induction false} IterWraps(f: seq<int>, x: int, p: nat, k: nat)
    requires Permutation(f) && 0 <= x < |f| && p > 0 && Iter(f, x, p) == x
    ensures exists i :: 0 <= i < p && Iter(f, x, k) == Iter(f, x, i)
  {
    if k > 0 {
      IterWraps(f, x, p, k - 1);
      var i :| 0 <= i < p && Iter(f, x, k - 1) == Iter(f, x, i);
      assert Iter(f, x, k) == Iter(f, x, i + 1);
      assert i + 1 < p || Iter(f, x, k) == Iter(f, x, 0);
    } else {
      assert Iter(f, x, k) == Iter(f, x, 0);
    }
  }

  /** One cycle through all rows, exactly when the walk stays away from its start. */
  lemma SingleCycleIff(f: seq<int>, x: int)
    requires Permutation(f) && 0 <= x < |f|
    ensures SingleCycle(f, x) <==> NoReturn(f, x, |f| - 1)
  {
    if NoReturn(f, x, |f| - 1) {
      OrbitPermutes(f, x);
      forall y | 0 <= y < |f| ensures Reached(f, x, y) {
        PermutationHits(Orbit(f, x, |f|), y);
        var k :| 0 <= k < |f| && Orbit(f, x, |f|)[k] == y;
        assert Iter(f, x, k) == y;
      }
    } else {
      var p :| 1 <= p <= |f| - 1 && Iter(f, x, p) == x;
      ShortCycle(f, x, p);
    }
  }

  ghost function Seen(f: seq<int>, x: int, p: nat): set<int>
    requires Permutation(f) && 0 <= x < |f|
  {
    set i | 0 <= i < p :: Iter(f, x, i)
  }

  lemma ShortCycle(f: seq<int>, x: int, p: nat)
    requires Permutation(f) && 0 <= x < |f| && 1 <= p < |f| && Iter(f, x, p) == x
    ensures !SingleCycle(f, x)
  {
    SmallOrbit(f, x, p);
    IntervalSize(0, |f|);
    if Interval(0, |f|) <= Seen(f, x, p) { SubsetSize(Interval(0, |f|), Seen(f, x, p)); }
    var y :| y in Interval(0, |f|) && y !in Seen(f, x, p);
    forall k: nat ensures Iter(f, x, k) != y {
      IterWraps(f, x, p, k);
    }
    assert !Reached(f, x, y);
  }

  lemma {:induction false} SmallOrbit(f: seq<int>, x: int, p: nat)
    requires Permutation(f) && 0 <= x < |f|
    ensures |Seen(f, x, p)| <= p
  {
    if p > 0 {
      SmallOrbit(f, x, p - 1);
      assert Seen(f, x, p) == Seen(f, x, p - 1) + {Iter(f, x, p - 1)};
    } else {
      assert Seen(f, x, p) == {};
    }
  }
}
