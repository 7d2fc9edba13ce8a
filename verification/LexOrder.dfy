/** Lexicographic order on words, and the rank of each word of a list under it.
    Suffix sorting is specified with these; both stages of induced sorting turn
    their keys into ranks so that the array passes only compare integers. */
module LexOrder {

  /** Strict lexicographic order; a proper prefix is smaller. */
  ghost predicate LexLess(x: seq<int>, y: seq<int>) {
    && y != []
    && (x == [] || x[0] < y[0] || (x[0] == y[0] && LexLess(x[1..], y[1..])))
  }

  lemma LexCons(a: int, x: seq<int>, b: int, y: seq<int>)
    ensures LexLess([a] + x, [b] + y) <==> a < b || (a == b && LexLess(x, y))
  {
    assert ([a] + x)[1..] == x && ([b] + y)[1..] == y;
  }

  lemma {:induction false} LexIrreflexive(x: seq<int>)
    ensures !LexLess(x, x)
  {
    if x != [] { LexIrreflexive(x[1..]); }
  }

  lemma {:induction false} LexTransitive(x: seq<int>, y: seq<int>, z: seq<int>)
    requires LexLess(x, y) && LexLess(y, z)
    ensures LexLess(x, z)
  {
    if x != [] && x[0] == y[0] && y[0] == z[0] { LexTransitive(x[1..], y[1..], z[1..]); }
  }

  lemma {:induction false} LexTotal(x: seq<int>, y: seq<int>)
    ensures x == y || LexLess(x, y) || LexLess(y, x)
  {
    if x != [] && y != [] && x[0] == y[0] {
      LexTotal(x[1..], y[1..]);
      assert x == [x[0]] + x[1..] && y == [y[0]] + y[1..];
    }
  }

  /** A difference at depth d decides the order of words that agree before it. */
  lemma {:induction false} LexDiffer(x: seq<int>, y: seq<int>, d: nat)
    requires d < |x| && d < |y| && x[..d] == y[..d] && x[d] < y[d]
    ensures LexLess(x, y)
  {
    if d > 0 {
      assert x[0] == x[..d][0] == y[..d][0] == y[0];
      assert x[1..][..d - 1] == x[..d][1..] == y[..d][1..] == y[1..][..d - 1];
      LexDiffer(x[1..], y[1..], d - 1);
    }
  }

  /** Conversely, ordered words that are not prefixes of one another differ somewhere. */
  lemma {:induction false} LexFirstDifference(x: seq<int>, y: seq<int>) returns (d: nat)
    requires LexLess(x, y)
    ensures d <= |x| && d < |y| && x[..d] == y[..d]
    ensures d < |x| ==> x[d] < y[d]
  {
    if x == [] || x[0] < y[0] {
      d := 0;
    } else {
      var e := LexFirstDifference(x[1..], y[1..]);
      d := e + 1;
      assert x[..d] == [x[0]] + x[1..][..e] && y[..d] == [y[0]] + y[1..][..e];
    }
  }

  ghost function Below(keys: seq<seq<int>>, i: nat): set<int>
    requires i < |keys|
  {
    set j | 0 <= j < |keys| && LexLess(keys[j], keys[i])
  }

  /** Each word's rank: how many words of the list are smaller. */
  ghost function Ranks(keys: seq<seq<int>>): (r: seq<int>)
    ensures |r| == |keys|
  {
    seq(|keys|, i requires 0 <= i < |keys| => |Below(keys, i)|)
  }

  lemma RankOrder(keys: seq<seq<int>>, i: nat, j: nat)
    requires i < |keys| && j < |keys|
    ensures LexLess(keys[i], keys[j]) <==> Ranks(keys)[i] < Ranks(keys)[j]
  {
    if LexLess(keys[i], keys[j]) {
      RankMonotone(keys, i, j);
    } else if LexLess(keys[j], keys[i]) {
      RankMonotone(keys, j, i);
    } else {
      LexTotal(keys[i], keys[j]);
    }
  }

  lemma RankMonotone(keys: seq<seq<int>>, i: nat, j: nat)
    requires i < |keys| && j < |keys| && LexLess(keys[i], keys[j])
    ensures Ranks(keys)[i] < Ranks(keys)[j]
  {
    LexIrreflexive(keys[i]);
    forall k | k in Below(keys, i) ensures k in Below(keys, j) {
      LexTransitive(keys[k], keys[i], keys[j]);
    }
    SubsetSize(Below(keys, i) + {i}, Below(keys, j));
  }

  lemma {:induction false} SubsetSize<T>(a: set<T>, b: set<T>)
    requires a <= b
    ensures |a| <= |b|
    ensures |a| == |b| ==> a == b
  {
    if x :| x in a {
      SubsetSize(a - {x}, b - {x});
    }
  }

  /** The integers from lo up to, not including, hi. */
  ghost function Interval(lo: int, hi: int): (r: set<int>)
    ensures forall k :: k in r <==> lo <= k < hi
    decreases hi - lo
  {
    if lo < hi then Interval(lo, hi - 1) + {hi - 1} else {}
  }

  lemma {:induction false} IntervalSize(lo: int, hi: int)
    requires lo <= hi
    ensures |Interval(lo, hi)| == hi - lo
    decreases hi - lo
  {
    if lo < hi {
      IntervalSize(lo, hi - 1);
    }
  }

  ghost predicate Injective(r: seq<int>) {
    forall i, j :: 0 <= i < |r| && 0 <= j < |r| && i != j ==> r[i] != r[j]
  }

  ghost predicate Within(a: set<int>, n: int) {
    forall i :: i in a ==> 0 <= i < n
  }

  ghost function Image(r: seq<int>, a: set<int>): set<int>
    requires Within(a, |r|)
  {
    set i | i in a :: r[i]
  }

  ghost function Pick<T(!new)>(a: set<T>): (x: T)
    requires a != {}
    ensures x in a
  {
    var x :| x in a; x
  }

  lemma {:induction false} ImageSize(r: seq<int>, a: set<int>)
    requires Injective(r) && Within(a, |r|)
    ensures |Image(r, a)| == |a|
  {
    if a == {} {
      assert Image(r, a) == {};
    } else {
      var x := Pick(a);
      ImageSize(r, a - {x});
      assert Image(r, a) == Image(r, a - {x}) + {r[x]};
    }
  }

  /** A sequence that is a permutation of its own index range. */
  ghost predicate Permutation(r: seq<int>) {
    && (forall i :: 0 <= i < |r| ==> 0 <= r[i] < |r|)
    && Injective(r)
  }

  ghost predicate Hit(r: seq<int>, y: int) {
    exists i :: 0 <= i < |r| && r[i] == y
  }

  /** Pigeonhole: a permutation hits every value. */
  lemma PermutationHits(r: seq<int>, y: int)
    requires Permutation(r) && 0 <= y < |r|
    ensures Hit(r, y)
  {
    var all := Interval(0, |r|);
    ImageSize(r, all);
    assert Image(r, all) <= all;
    SubsetSize(Image(r, all), all);
    assert y in Image(r, all);
  }

  ghost predicate Inverse(r: seq<int>, v: seq<int>) {
    && |v| == |r|
    && (forall y :: 0 <= y < |v| ==> 0 <= v[y] < |r| && r[v[y]] == y)
    && (forall i :: 0 <= i < |r| ==> 0 <= r[i] < |v| && v[r[i]] == i)
  }

  lemma InverseExists(r: seq<int>) returns (v: seq<int>)
    requires Permutation(r)
    ensures Inverse(r, v) && Permutation(v)
  {
    forall y | 0 <= y < |r| ensures Hit(r, y) { PermutationHits(r, y); }
    v := seq(|r|, y requires 0 <= y < |r| && Hit(r, y) => (var i :| 0 <= i < |r| && r[i] == y; i));
  }

  /** Distinct words have ranks that fill 0, 1, 2, ... */
  lemma RanksPermute(keys: seq<seq<int>>)
    requires forall i, j :: 0 <= i < |keys| && 0 <= j < |keys| && keys[i] == keys[j] ==> i == j
    ensures Permutation(Ranks(keys))
  {
    var r := Ranks(keys);
    forall i | 0 <= i < |keys| ensures 0 <= r[i] < |keys| {
      LexIrreflexive(keys[i]);
      SubsetSize(Below(keys, i) + {i}, Interval(0, |keys|));
      IntervalSize(0, |keys|);
    }
    forall i, j | 0 <= i < |keys| && 0 <= j < |keys| && r[i] == r[j] ensures i == j {
      RankOrder(keys, i, j);
      RankOrder(keys, j, i);
      LexTotal(keys[i], keys[j]);
    }
  }

  /** Two permutations that order the indices alike are the same permutation. */
  lemma SameOrderSamePermutation(f: seq<int>, g: seq<int>, x: nat)
    requires |f| == |g| && Permutation(f) && Permutation(g) && x < |f|
    requires forall i, j :: 0 <= i < |f| && 0 <= j < |f| ==> (f[i] < f[j] <==> g[i] < g[j])
    ensures f[x] == g[x]
  {
    CountsBelow(f, x);
    CountsBelow(g, x);
    assert (set i | 0 <= i < |f| && f[i] < f[x]) == (set i | 0 <= i < |g| && g[i] < g[x]);
  }

  lemma CountsBelow(f: seq<int>, x: nat)
    requires Permutation(f) && x < |f|
    ensures |set i | 0 <= i < |f| && f[i] < f[x]| == f[x]
  {
    var a := set i | 0 <= i < |f| && f[i] < f[x];
    ImageSize(f, a);
    IntervalSize(0, f[x]);
    forall y | y in Interval(0, f[x]) ensures y in Image(f, a) { PermutationHits(f, y); }
    assert Image(f, a) == Interval(0, f[x]);
  }
}
