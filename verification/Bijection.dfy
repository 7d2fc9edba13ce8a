/** The bijective transform is a bijection on the byte strings of each length. */
module Bijection {
  import opened Common
  import opened LexOrder
  import opened Lyndon
  import opened Conjugates
  import opened LfMapping
  import opened BijectiveTheory
  import opened BwtTheory
  import Duval

  // ---- every text has a transform ----

  lemma PlacesExist(s: seq<int>, st: seq<int>) returns (ws: seq<int>, ln: seq<int>)
    requires Cuts(s, st)
    ensures PlacedAll(st, ws, ln, |s|)
  {
    ws, ln := [], [];
    while |ws| < |s|
      invariant |ws| == |ln| <= |s|
      invariant forall i {:trigger Duval.Placed(st, ws, ln, i)} :: 0 <= i < |ws| ==> Duval.Placed(st, ws, ln, i)
    {
      var ws0, ln0 := ws, ln;
      var w := PieceOf(s, st, |ws|, 0);
      ws, ln := ws + [st[w]], ln + [st[w + 1] - st[w]];
      assert Duval.InWord(st, ws, ln, |ws0|, w);
      forall i | 0 <= i < |ws0| ensures Duval.Placed(st, ws, ln, i) {
        assert Duval.Placed(st, ws0, ln0, i);
        var v :| Duval.InWord(st, ws0, ln0, i, v);
        assert Duval.InWord(st, ws, ln, i, v);
      }
    }
  }

  lemma LayoutExists(s: seq<int>) returns (y: Layout)
    ensures y.s == s && ValidLayout(y)
  {
    var st := LyndonExists(s);
    var ws, ln := PlacesExist(s, st);
    CutsFactored(s, st, ws, ln);
    var r := ConjOrderExists(s, ws, ln);
    var ord := InverseExists(r);
    y := Layout(s, st, ws, ln, r, ord);
  }

  lemma TransformExists(s: seq<Byte>) returns (b: seq<Byte>)
    ensures |b| == |s| && IsBijective(s, b)
  {
    var y := LayoutExists(s);
    b := [];
    while |b| < |s|
      invariant |b| <= |s|
      invariant forall i :: 0 <= i < |b| ==> 0 <= Prev(y.ws, y.ln, y.ord[i]) < |s| && b[i] == s[Prev(y.ws, y.ln, y.ord[i])]
    {
      PrevOk(s, y.ws, y.ln, y.ord[|b|]);
      b := b + [s[Prev(y.ws, y.ln, y.ord[|b|])]];
    }
    forall i | 0 <= i < |b| ensures RowAt(y, b, i) {}
    assert LastBytes(y, b);
  }

  // ---- a text has only one transform ----

  lemma SamePlaces(y: Layout, z: Layout)
    requires ValidLayout(y) && ValidLayout(z) && y.s == z.s && y.st == z.st
    ensures y.ws == z.ws && y.ln == z.ln
  {
    forall i | 0 <= i < |y.s| ensures y.ws[i] == z.ws[i] && y.ln[i] == z.ln[i] {
      var w := PieceAt(y.s, y.st, y.ws, y.ln, i);
      var v := PieceAt(z.s, z.st, z.ws, z.ln, i);
      SamePiece(y.s, y.st, w, v, i);
    }
  }

  lemma SameLayout(y: Layout, z: Layout)
    requires ValidLayout(y) && ValidLayout(z) && y.s == z.s
    ensures y == z
  {
    LyndonUnique(y.s, y.st, z.st);
    SamePlaces(y, z);
    forall i, j | 0 <= i < |y.r| && 0 <= j < |y.r| ensures y.r[i] < y.r[j] <==> z.r[i] < z.r[j] {
      assert OrderedAt(y.s, y.ws, y.ln, y.r, i, j) && OrderedAt(z.s, z.ws, z.ln, z.r, i, j);
    }
    forall i | 0 <= i < |y.r| ensures y.r[i] == z.r[i] { SameOrderSamePermutation(y.r, z.r, i); }
    assert y.r == z.r;
    forall x | 0 <= x < |y.ord| ensures y.ord[x] == z.ord[x] {
      assert y.r[y.ord[x]] == x && z.r[z.ord[x]] == x;
    }
  }

  lemma BijectiveUnique(s: seq<int>, b: seq<int>, c: seq<int>)
    requires IsBijective(s, b) && IsBijective(s, c)
    ensures b == c
  {
    var y: Layout :| y.s == s && ValidLayout(y) && LastBytes(y, b);
    var z: Layout :| z.s == s && ValidLayout(z) && LastBytes(z, c);
    SameLayout(y, z);
    forall i | 0 <= i < |b| ensures b[i] == c[i] {
      assert RowAt(y, b, i) && RowAt(z, c, i);
    }
  }

  // ---- a transform has only one text ----

  /** From the row of a word start, LF walks the word's rows and returns. */
  lemma {:induction false} IterWalk(y: Layout, g: seq<int>, p: int, t: nat)
    requires ValidLayout(y) && g == BackRows(y) && Permutation(g) && 0 <= p < |y.s| && y.ws[p] == p && t <= y.ln[p]
    ensures t < y.ln[p] ==> 0 <= WalkAt(y, p, t) < |y.s| && Iter(g, y.r[p], t) == y.r[WalkAt(y, p, t)]
    ensures t == y.ln[p] ==> Iter(g, y.r[p], t) == y.r[p]
    decreases t
  {
    if t < y.ln[p] { BackWalk(y, p, t); }
    if t > 0 {
      IterWalk(y, g, p, t - 1);
      BackWalk(y, p, t - 1);
    }
  }

  lemma WordRowsAbove(y: Layout, g: seq<int>, p: int, t: nat)
    requires ValidLayout(y) && g == BackRows(y) && Permutation(g) && 0 <= p < |y.s| && y.ws[p] == p && 0 < t < y.ln[p]
    ensures Iter(g, y.r[p], t) > y.r[p]
  {
    IterWalk(y, g, p, t);
    BackWalk(y, p, t);
    StartLeast(y.s, y.ws, y.ln, y.r, WalkAt(y, p, t));
  }

  /** A word start's row is the least of its cycle. */
  lemma CycleAbove(y: Layout, g: seq<int>, p: int, k: nat)
    requires ValidLayout(y) && g == BackRows(y) && Permutation(g) && 0 <= p < |y.s| && y.ws[p] == p
    ensures Iter(g, y.r[p], k) >= y.r[p]
  {
    assert PosOk(y.s, y.ws, y.ln, p);
    IterWalk(y, g, p, y.ln[p]);
    IterWraps(g, y.r[p], y.ln[p], k);
    var i :| 0 <= i < y.ln[p] && Iter(g, y.r[p], k) == Iter(g, y.r[p], i);
    if i > 0 { WordRowsAbove(y, g, p, i); }
  }

  /** From any row, LF reaches the row of its word's start. */
  lemma {:induction false} ReachStart(y: Layout, g: seq<int>, q: int, k: nat)
    requires ValidLayout(y) && g == BackRows(y) && Permutation(g) && 0 <= q < |y.s|
    requires y.ws[q] <= q - k
    ensures 0 <= q - k < |y.s| && Iter(g, y.r[q], k) == y.r[q - k] && y.ws[q - k] == y.ws[q]
    decreases k
  {
    assert PosOk(y.s, y.ws, y.ln, q);
    if k > 0 {
      ReachStart(y, g, q, k - 1);
      var m := q - (k - 1);
      PrevOk(y.s, y.ws, y.ln, m);
      assert y.ord[y.r[m]] == m;
    }
  }

  /** Two texts with the same LF mapping start words at the same rows. */
  lemma SameStarts(y: Layout, z: Layout, g: seq<int>, x: int)
    requires ValidLayout(y) && ValidLayout(z) && g == BackRows(y) == BackRows(z) && Permutation(g) && 0 <= x < |g|
    requires y.ws[y.ord[x]] == y.ord[x]
    ensures z.ws[z.ord[x]] == z.ord[x]
  {
    var q := z.ord[x];
    StartLeast(z.s, z.ws, z.ln, z.r, q);
    assert PosOk(z.s, z.ws, z.ln, q);
    ReachStart(z, g, q, q - z.ws[q]);
    CycleAbove(y, g, y.ord[x], q - z.ws[q]);
  }

  lemma LengthAtMost(y: Layout, z: Layout, g: seq<int>, x: int)
    requires ValidLayout(y) && ValidLayout(z) && g == BackRows(y) == BackRows(z) && Permutation(g) && 0 <= x < |g|
    requires y.ws[y.ord[x]] == y.ord[x] && z.ws[z.ord[x]] == z.ord[x]
    ensures y.ln[y.ord[x]] <= z.ln[z.ord[x]]
  {
    var p, q := y.ord[x], z.ord[x];
    assert PosOk(y.s, y.ws, y.ln, p) && PosOk(z.s, z.ws, z.ln, q);
    IterWalk(z, g, q, z.ln[q]);
    if z.ln[q] < y.ln[p] { WordRowsAbove(y, g, p, z.ln[q]); }
  }

  lemma SpelledRow(y: Layout, b: seq<int>, g: seq<int>, p: int, t: nat)
    requires ValidLayout(y) && LastBytes(y, b) && g == BackRows(y) && Permutation(g)
    requires 0 <= p < |y.s| && y.ws[p] == p && t < y.ln[p]
    ensures p + y.ln[p] <= |y.s| && y.s[p + y.ln[p] - 1 - t] == b[Iter(g, y.r[p], t)]
  {
    BackWalk(y, p, t);
    IterWalk(y, g, p, t);
    assert RowAt(y, b, y.r[WalkAt(y, p, t)]);
  }

  /** The word at a start row is spelled by the cycle alone. */
  lemma SameWords(y: Layout, z: Layout, b: seq<int>, g: seq<int>, x: int)
    requires ValidLayout(y) && ValidLayout(z) && LastBytes(y, b) && LastBytes(z, b)
    requires g == BackRows(y) == BackRows(z) && Permutation(g) && 0 <= x < |g|
    requires y.ws[y.ord[x]] == y.ord[x] && z.ws[z.ord[x]] == z.ord[x]
    ensures var p, q := y.ord[x], z.ord[x];
            && y.ln[p] == z.ln[q] && 0 <= y.ln[p] && p + y.ln[p] <= |y.s| && q + z.ln[q] <= |z.s|
            && y.s[p..p + y.ln[p]] == z.s[q..q + z.ln[q]]
  {
    var p, q := y.ord[x], z.ord[x];
    assert PosOk(y.s, y.ws, y.ln, p) && PosOk(z.s, z.ws, z.ln, q);
    LengthAtMost(y, z, g, x);
    LengthAtMost(z, y, g, x);
    SameLetters(y, z, b, g, p, q, y.ln[p]);
  }

  lemma SameLetters(y: Layout, z: Layout, b: seq<int>, g: seq<int>, p: int, q: int, n: nat)
    requires ValidLayout(y) && ValidLayout(z) && LastBytes(y, b) && LastBytes(z, b)
    requires g == BackRows(y) == BackRows(z) && Permutation(g) && 0 <= p < |y.s| && 0 <= q < |z.s| && y.r[p] == z.r[q]
    requires y.ws[p] == p && z.ws[q] == q && y.ln[p] == n == z.ln[q] && p + n <= |y.s| && q + n <= |z.s|
    ensures y.s[p..p + n] == z.s[q..q + n]
  {
    var u, v := y.s[p..p + n], z.s[q..q + n];
    forall k | 0 <= k < n ensures u[k] == v[k] {
      SpelledRow(y, b, g, p, n - 1 - k);
      SpelledRow(z, b, g, q, n - 1 - k);
    }
  }

  /** What the inverse has written when it reaches row i does not depend on which text it came from. */
  lemma {:induction false} SameTail(y: Layout, z: Layout, b: seq<int>, g: seq<int>, i: nat)
    requires ValidLayout(y) && ValidLayout(z) && LastBytes(y, b) && LastBytes(z, b)
    requires g == BackRows(y) == BackRows(z) && Permutation(g) && i <= |b|
    ensures Written(y, i) == Written(z, i) && y.s[Written(y, i)..] == z.s[Written(z, i)..]
  {
    if i == 0 {
      WrittenFirst(y);
      WrittenFirst(z);
    } else {
      var x := i - 1;
      SameTail(y, z, b, g, x);
      if y.ws[y.ord[x]] == y.ord[x] {
        SameStarts(y, z, g, x);
        SameWords(y, z, b, g, x);
        TailStep(y, x);
        TailStep(z, x);
      } else {
        if z.ws[z.ord[x]] == z.ord[x] { SameStarts(z, y, g, x); }
        WrittenInside(y, x);
        WrittenInside(z, x);
      }
    }
  }

  lemma TailStep(y: Layout, x: nat)
    requires ValidLayout(y) && x < |y.s| && y.ws[y.ord[x]] == y.ord[x]
    ensures var p := y.ord[x];
            && 0 <= p <= p + y.ln[p] <= |y.s| && Written(y, x + 1) == Written(y, x) - y.ln[p]
            && y.s[Written(y, x + 1)..] == y.s[p..p + y.ln[p]] + y.s[Written(y, x)..]
  {
    WrittenStart(y, x);
    var w, w' := Written(y, x), Written(y, x + 1);
    assert y.s[w'..] == y.s[w'..w] + y.s[w..];
  }

  /** A bijective transform determines its text. */
  lemma BijectiveInjective(s: seq<int>, s': seq<int>, b: seq<int>)
    requires IsBijective(s, b) && IsBijective(s', b)
    ensures s == s'
  {
    var y: Layout :| y.s == s && ValidLayout(y) && LastBytes(y, b);
    var z: Layout :| z.s == s' && ValidLayout(z) && LastBytes(z, b);
    LfFollowsWords(y, b);
    LfFollowsWords(z, b);
    BackRowsPermute(y);
    SameTail(y, z, b, BackRows(y), |b|);
    WrittenLast(y);
    WrittenLast(z);
    assert y.s[0..] == y.s && z.s[0..] == z.s;
  }

  // ---- so every byte string is a transform ----

  ghost function Strings(n: nat): (a: set<seq<Byte>>)
    ensures forall s :: s in a <==> |s| == n
  {
    if n == 0 then {[]}
    else
      var a := set s: seq<Byte>, c: Byte | s in Strings(n - 1) && c in BytesBelow(256) :: s + [c];
      assert forall s: seq<Byte> :: |s| == n ==> s == s[..n - 1] + [s[n - 1]];
      assert forall s: seq<Byte> :: |s| == n ==> s[..n - 1] in Strings(n - 1) && s[n - 1] in BytesBelow(256);
      a
  }

  ghost function BytesBelow(k: nat): (a: set<Byte>)
    requires k <= 256
    ensures forall c: Byte :: c in a <==> c < k
  {
    if k == 0 then {} else BytesBelow(k - 1) + {k - 1}
  }

  ghost function TransformOf(s: seq<Byte>): (b: seq<Byte>)
    ensures |b| == |s| && IsBijective(s, b)
  {
    assert exists b: seq<Byte> :: |b| == |s| && IsBijective(s, b) by { var b := TransformExists(s); }
    var b: seq<Byte> :| |b| == |s| && IsBijective(s, b);
    b
  }

  ghost function ImageOf(a: set<seq<Byte>>): (c: set<seq<Byte>>) {
    set s | s in a :: TransformOf(s)
  }

  lemma {:induction false} ImageOfSize(a: set<seq<Byte>>)
    ensures |ImageOf(a)| == |a|
  {
    if a == {} {
      assert ImageOf(a) == {};
    } else {
      var s := Pick(a);
      ImageOfSize(a - {s});
      assert ImageOf(a) == ImageOf(a - {s}) + {TransformOf(s)};
      if TransformOf(s) in ImageOf(a - {s}) {
        var s' :| s' in a - {s} && TransformOf(s') == TransformOf(s);
        BijectiveInjective(s, s', TransformOf(s));
      }
    }
  }

  lemma ImageIsAll(n: nat)
    ensures ImageOf(Strings(n)) == Strings(n)
  {
    var all := Strings(n);
    ImageOfSize(all);
    forall b | b in ImageOf(all) ensures b in all {}
    SubsetSize(ImageOf(all), all);
  }

  /** Every byte string is the bijective transform of some text. */
  lemma TextExists(b: seq<Byte>) returns (s: seq<Byte>)
    ensures |s| == |b| && IsBijective(s, b)
  {
    ImageIsAll(|b|);
    s := Preimage(Strings(|b|), b);
  }

  lemma Preimage(a: set<seq<Byte>>, b: seq<Byte>) returns (s: seq<Byte>)
    requires b in ImageOf(a)
    ensures s in a && b == TransformOf(s)
  {
    s :| s in a && TransformOf(s) == b;
  }
}
