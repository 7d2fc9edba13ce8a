/** What the bijective transform is, why the LF cycles are the Lyndon words, and in
    which order the inverse meets them (bwt89_bwts.c:300-376). */
module BijectiveTheory {
  import opened LexOrder
  import opened Lyndon
  import opened Conjugates
  import opened LfMapping
  import Duval

  /** A text with its Lyndon cuts st, each position's word (ws, ln), the rank r of each
      position's conjugate and the positions ord in the order of their ranks. */
  datatype Layout = Layout(s: seq<int>, st: seq<int>, ws: seq<int>, ln: seq<int>, r: seq<int>, ord: seq<int>)

  ghost predicate PlacedAll(st: seq<int>, ws: seq<int>, ln: seq<int>, n: int) {
    && |ws| == |ln| == n
    && (forall i {:trigger Duval.Placed(st, ws, ln, i)} :: 0 <= i < n ==> Duval.Placed(st, ws, ln, i))
  }

  ghost predicate ValidLayout(y: Layout) {
    && LyndonCuts(y.s, y.st)
    && PlacedAll(y.st, y.ws, y.ln, |y.s|)
    && ConjOrder(y.s, y.ws, y.ln, y.r)
    && Inverse(y.r, y.ord)
  }

  /** Row i of b shows the symbol before the i-th conjugate's own first symbol. */
  ghost predicate RowAt(y: Layout, b: seq<int>, i: int) {
    && 0 <= i < |b| == |y.ord| == |y.ws| == |y.ln| == |y.s|
    && 0 <= y.ord[i] < |y.s| && 0 <= Prev(y.ws, y.ln, y.ord[i]) < |y.s|
    && b[i] == y.s[Prev(y.ws, y.ln, y.ord[i])]
  }

  ghost predicate LastBytes(y: Layout, b: seq<int>) {
    && |b| == |y.s|
    && (forall i {:trigger RowAt(y, b, i)} :: 0 <= i < |b| ==> RowAt(y, b, i))
  }

  /** b is the bijective Burrows-Wheeler transform of s. */
  ghost predicate IsBijective(s: seq<int>, b: seq<int>) {
    exists y: Layout :: y.s == s && ValidLayout(y) && LastBytes(y, b)
  }

  // ---- the LF mapping follows the words backwards ----

  ghost function BackRows(y: Layout): (g: seq<int>)
    requires ValidLayout(y)
    ensures |g| == |y.s|
  {
    seq(|y.s|, i requires 0 <= i < |y.s| => BackRow(y, i))
  }

  /** The row of the position before that of row i, cyclically in its word. */
  ghost function BackRow(y: Layout, i: int): (x: int)
    requires ValidLayout(y) && 0 <= i < |y.s|
    ensures 0 <= x < |y.s|
  {
    PrevOk(y.s, y.ws, y.ln, y.ord[i]);
    y.r[Prev(y.ws, y.ln, y.ord[i])]
  }

  lemma PrevInjective(y: Layout, p: int, q: int)
    requires ValidLayout(y) && 0 <= p < |y.s| && 0 <= q < |y.s| && p != q
    ensures Prev(y.ws, y.ln, p) != Prev(y.ws, y.ln, q)
  {
    PrevOk(y.s, y.ws, y.ln, p);
    PrevOk(y.s, y.ws, y.ln, q);
  }

  lemma BackRowsPermute(y: Layout)
    requires ValidLayout(y)
    ensures Permutation(BackRows(y))
  {
    var g := BackRows(y);
    forall i, j | 0 <= i < |g| && 0 <= j < |g| && i != j ensures g[i] != g[j] {
      assert y.ord[i] != y.ord[j];
      PrevInjective(y, y.ord[i], y.ord[j]);
      PrevOk(y.s, y.ws, y.ln, y.ord[i]);
      PrevOk(y.s, y.ws, y.ln, y.ord[j]);
    }
  }

  /** LF sends each row to the row of the preceding position of its word. */
  lemma LfFollowsWords(y: Layout, b: seq<int>)
    requires ValidLayout(y) && LastBytes(y, b)
    ensures Lf(b) == BackRows(y)
  {
    var g := BackRows(y);
    BackRowsPermute(y);
    forall i, j ensures SortsAt(b, g, i, j) {
      if 0 <= i < |b| && 0 <= j < |b| { BackSorts(y, b, i, j); }
    }
    LfUnique(b, g);
  }

  lemma BackSorts(y: Layout, b: seq<int>, i: nat, j: nat)
    requires ValidLayout(y) && LastBytes(y, b) && i < |b| && j < |b|
    ensures BackRow(y, i) < BackRow(y, j) <==> StableLess(b, i, j)
  {
    assert RowAt(y, b, i) && RowAt(y, b, j);
    PrevOrder(y.s, y.ws, y.ln, y.r, y.ord[i], y.ord[j]);
    assert y.r[y.ord[i]] == i && y.r[y.ord[j]] == j;
  }

  // ---- the order in which the words are met ----

  /** Word number f is met before row i. */
  ghost function Started(y: Layout, i: int): (a: set<int>)
    requires ValidLayout(y)
  {
    set f | 0 <= f < |y.st| - 1 && StartRow(y, f) < i
  }

  ghost function StartRow(y: Layout, f: nat): (x: int)
    requires ValidLayout(y) && f < |y.st| - 1
    ensures 0 <= x < |y.s|
  {
    CutsAt(y.s, y.st, f);
    y.r[y.st[f]]
  }

  lemma StartWord(y: Layout, f: nat)
    requires ValidLayout(y) && f < |y.st| - 1
    ensures 0 <= y.st[f] < y.st[f + 1] <= |y.s|
    ensures y.ws[y.st[f]] == y.st[f] && y.ln[y.st[f]] == y.st[f + 1] - y.st[f]
    ensures PosOk(y.s, y.ws, y.ln, y.st[f]) && WordOf(y.s, y.ws, y.ln, y.st[f]) == Word(y.s, y.st, f)
  {
    CutsAt(y.s, y.st, f);
    var w := PieceAt(y.s, y.st, y.ws, y.ln, y.st[f]);
    SamePiece(y.s, y.st, f, w, y.st[f]);
  }

  /** Of two words the later one starts first among the rows, unless they are equal. */
  lemma StartRows(y: Layout, f: nat, g: nat)
    requires ValidLayout(y) && f < g < |y.st| - 1
    ensures StartRow(y, f) < StartRow(y, g) <==> Word(y.s, y.st, f) == Word(y.s, y.st, g)
    ensures StartRow(y, f) != StartRow(y, g)
  {
    StartWord(y, f);
    StartWord(y, g);
    CutsIncrease(y.s, y.st, f + 1, g);
    StartOrder(y.s, y.ws, y.ln, y.r, y.st[f], y.st[g]);
  }

  /** Equal words surround only equal words. */
  lemma EqualBetween(y: Layout, f: nat, g: nat, h: nat)
    requires ValidLayout(y) && f <= g <= h < |y.st| - 1 && Word(y.s, y.st, f) == Word(y.s, y.st, h)
    ensures Word(y.s, y.st, g) == Word(y.s, y.st, f)
  {
    WordsDescend(y.s, y.st, f, g);
    WordsDescend(y.s, y.st, g, h);
    LexTotal(Word(y.s, y.st, f), Word(y.s, y.st, g));
  }

  /** The word met at row i, after j others, is the j-th word from the end of the text. */
  lemma NextWord(y: Layout, i: int, f: nat)
    requires ValidLayout(y) && f < |y.st| - 1 && StartRow(y, f) == i
    ensures |Started(y, i)| < |y.st| - 1
    ensures Word(y.s, y.st, f) == Word(y.s, y.st, |y.st| - 2 - |Started(y, i)|)
  {
    StartedBound(y, i, f);
    var g := |y.st| - 2 - |Started(y, i)|;
    if f < g { NotBefore(y, i, f, g); }
    if g < f { NotAfter(y, i, f, g); }
  }

  /** If f came strictly before g, too many words would have started. */
  lemma NotBefore(y: Layout, i: int, f: nat, g: nat)
    requires ValidLayout(y) && f < g < |y.st| - 1 && StartRow(y, f) == i && |Started(y, i)| == |y.st| - 2 - g
    ensures Word(y.s, y.st, f) == Word(y.s, y.st, g)
  {
    var k := |y.st| - 1;
    if Word(y.s, y.st, f) != Word(y.s, y.st, g) {
      forall h | h in Interval(g, k) ensures h in Started(y, i) {
        if Word(y.s, y.st, f) == Word(y.s, y.st, h) { EqualBetween(y, f, g, h); }
        StartRows(y, f, h);
      }
      SubsetSize(Interval(g, k), Started(y, i));
      IntervalSize(g, k);
    }
  }

  /** If f came strictly after g, too few would have. */
  lemma NotAfter(y: Layout, i: int, f: nat, g: nat)
    requires ValidLayout(y) && g < f < |y.st| - 1 && StartRow(y, f) == i && |Started(y, i)| == |y.st| - 2 - g
    ensures Word(y.s, y.st, f) == Word(y.s, y.st, g)
  {
    var k := |y.st| - 1;
    if Word(y.s, y.st, f) != Word(y.s, y.st, g) {
      forall h | h in Started(y, i) ensures h in Interval(g + 1, k) - {f} {
        if h <= g {
          if Word(y.s, y.st, h) == Word(y.s, y.st, f) { EqualBetween(y, h, g, f); }
          StartRows(y, h, f);
        }
      }
      SubsetSize(Started(y, i), Interval(g + 1, k) - {f});
      IntervalSize(g + 1, k);
    }
  }

  lemma StartedBound(y: Layout, i: int, f: nat)
    requires ValidLayout(y) && f < |y.st| - 1 && StartRow(y, f) == i
    ensures |Started(y, i)| < |y.st| - 1
  {
    var all := Interval(0, |y.st| - 1);
    SubsetSize(Started(y, i), all - {f});
    IntervalSize(0, |y.st| - 1);
  }

  lemma StartedAtMost(y: Layout, i: int)
    requires ValidLayout(y)
    ensures |Started(y, i)| <= |y.st| - 1
  {
    SubsetSize(Started(y, i), Interval(0, |y.st| - 1));
    IntervalSize(0, |y.st| - 1);
  }

  /** The text from here on is written when the inverse reaches row i. */
  ghost function Written(y: Layout, i: int): (wi: int)
    requires ValidLayout(y)
    ensures 0 <= wi <= |y.s|
  {
    StartedAtMost(y, i);
    var k := |y.st| - 1 - |Started(y, i)|;
    CutsIncrease(y.s, y.st, 0, k);
    y.st[k]
  }

  lemma WrittenFirst(y: Layout)
    requires ValidLayout(y)
    ensures Written(y, 0) == |y.s|
  {
    assert Started(y, 0) == {};
  }

  lemma WrittenLast(y: Layout)
    requires ValidLayout(y)
    ensures Written(y, |y.s|) == 0
  {
    assert Started(y, |y.s|) == Interval(0, |y.st| - 1);
    IntervalSize(0, |y.st| - 1);
  }

  /** A row inside a word writes nothing. */
  lemma WrittenInside(y: Layout, i: int)
    requires ValidLayout(y) && 0 <= i < |y.s| && y.ws[y.ord[i]] != y.ord[i]
    ensures Written(y, i + 1) == Written(y, i)
  {
    forall f | 0 <= f < |y.st| - 1 ensures StartRow(y, f) != i { StartWord(y, f); }
    assert Started(y, i + 1) == Started(y, i);
  }

  /** The word number of a word start. */
  lemma WordNumber(y: Layout, p: int) returns (f: nat)
    requires ValidLayout(y) && 0 <= p < |y.s| && y.ws[p] == p
    ensures f < |y.st| - 1 && y.st[f] == p && StartRow(y, f) == y.r[p]
  {
    f := PieceAt(y.s, y.st, y.ws, y.ln, p);
  }

  lemma StartedStep(y: Layout, i: int, f: nat)
    requires ValidLayout(y) && f < |y.st| - 1 && StartRow(y, f) == i
    ensures |Started(y, i + 1)| == |Started(y, i)| + 1
  {
    forall g | 0 <= g < |y.st| - 1 && g != f ensures StartRow(y, g) != i {
      if f < g { StartRows(y, f, g); } else { StartRows(y, g, f); }
    }
    assert Started(y, i + 1) == Started(y, i) + {f};
  }

  /** The word that starts at row i is the word that ends where writing has got to. */
  lemma WrittenStart(y: Layout, i: int)
    requires ValidLayout(y) && 0 <= i < |y.s| && y.ws[y.ord[i]] == y.ord[i]
    ensures var p, wi := y.ord[i], Written(y, i); var n := y.ln[p];
            && 1 <= n <= wi && p + n <= |y.s|
            && y.s[p..p + n] == y.s[wi - n..wi]
            && wi - n == Written(y, i + 1)
  {
    var p := y.ord[i];
    assert PosOk(y.s, y.ws, y.ln, p);
    var f := WordNumber(y, p);
    NextWord(y, i, f);
    StartWord(y, f);
    StartWord(y, |y.st| - 2 - |Started(y, i)|);
    StartedStep(y, i, f);
  }

  // ---- the rows of one word as a cycle ----

  /** Position t of the walk from word start p: p first, then from the end of the word down. */
  ghost function WalkAt(y: Layout, p: int, t: nat): int
    requires 0 <= p < |y.ln|
  {
    if t == 0 then p else p + y.ln[p] - t
  }

  lemma BackWalk(y: Layout, p: int, t: nat)
    requires ValidLayout(y) && 0 <= p < |y.s| && y.ws[p] == p && t < y.ln[p]
    ensures p + y.ln[p] <= |y.s| && 0 <= WalkAt(y, p, t) < |y.s| && y.ws[WalkAt(y, p, t)] == p
    ensures Prev(y.ws, y.ln, WalkAt(y, p, t)) == p + y.ln[p] - 1 - t
    ensures BackRow(y, y.r[WalkAt(y, p, t)]) == if t == y.ln[p] - 1 then y.r[p] else y.r[WalkAt(y, p, t + 1)]
  {
    var q := WalkAt(y, p, t);
    assert PosOk(y.s, y.ws, y.ln, p);
    assert PosOk(y.s, y.ws, y.ln, q) && PairOk(y.s, y.ws, y.ln, p, q);
    assert y.ord[y.r[q]] == q;
  }
}
