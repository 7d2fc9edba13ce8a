/** The conjugates of a text's Lyndon words, one per text position, and their order:
    by infinite periodic word, ties by position (bwt89_bwts.c:41-86, 300-308). */
module Conjugates {
  import opened LexOrder
  import opened Lyndon
  import opened PeriodicWords
  import Duval

  /** Position p lies in a Lyndon word that starts at ws[p] and has length ln[p]. */
  ghost predicate PosOk(s: seq<int>, ws: seq<int>, ln: seq<int>, p: int) {
    && 0 <= p < |s| == |ws| == |ln|
    && 0 <= ws[p] <= p < ws[p] + ln[p] <= |s|
    && IsLyndon(s[ws[p]..ws[p] + ln[p]])
  }

  ghost function WordOf(s: seq<int>, ws: seq<int>, ln: seq<int>, p: int): (w: seq<int>)
    requires PosOk(s, ws, ln, p)
    ensures |w| == ln[p] && IsLyndon(w)
  {
    s[ws[p]..ws[p] + ln[p]]
  }

  /** Two positions share a word or lie in different ones, the earlier one no smaller. */
  ghost predicate PairOk(s: seq<int>, ws: seq<int>, ln: seq<int>, p: int, q: int)
    requires PosOk(s, ws, ln, p) && PosOk(s, ws, ln, q)
  {
    && (ws[p] <= q < ws[p] + ln[p] ==> ws[q] == ws[p] && ln[q] == ln[p])
    && (p <= q ==> !LexLess(WordOf(s, ws, ln, p), WordOf(s, ws, ln, q)))
  }

  /** ws and ln describe the Lyndon factorization of s. */
  ghost predicate Factored(s: seq<int>, ws: seq<int>, ln: seq<int>) {
    && |s| == |ws| == |ln|
    && (forall p {:trigger PosOk(s, ws, ln, p)} :: 0 <= p < |s| ==> PosOk(s, ws, ln, p))
    && (forall p, q {:trigger PairOk(s, ws, ln, p, q)} :: 0 <= p < |s| && 0 <= q < |s| ==> PairOk(s, ws, ln, p, q))
  }

  lemma {:induction false} SamePiece(s: seq<int>, st: seq<int>, w: nat, v: nat, p: int)
    requires Cuts(s, st) && w < |st| - 1 && v < |st| - 1
    requires st[w] <= p < st[w + 1] && st[v] <= p < st[v + 1]
    ensures w == v
  {
    if w < v { CutsIncrease(s, st, w + 1, v); }
    if v < w { CutsIncrease(s, st, v + 1, w); }
  }

  /** The output of factorization, position by position. */
  lemma CutsFactored(s: seq<int>, st: seq<int>, ws: seq<int>, ln: seq<int>)
    requires LyndonCuts(s, st) && |s| == |ws| == |ln|
    requires forall i {:trigger Duval.Placed(st, ws, ln, i)} :: 0 <= i < |s| ==> Duval.Placed(st, ws, ln, i)
    ensures Factored(s, ws, ln)
  {
    forall p | 0 <= p < |s| ensures PosOk(s, ws, ln, p) {
      var w := PieceAt(s, st, ws, ln, p);
    }
    forall p, q | 0 <= p < |s| && 0 <= q < |s| ensures PairOk(s, ws, ln, p, q) {
      var w := PieceAt(s, st, ws, ln, p);
      var v := PieceAt(s, st, ws, ln, q);
      if ws[p] <= q < ws[p] + ln[p] { SamePiece(s, st, w, v, q); }
      if p <= q {
        if v < w { CutsIncrease(s, st, v + 1, w); }
        WordsDescend(s, st, w, v);
      }
    }
  }

  lemma PieceAt(s: seq<int>, st: seq<int>, ws: seq<int>, ln: seq<int>, p: int) returns (w: nat)
    requires LyndonCuts(s, st) && |s| == |ws| == |ln| && 0 <= p < |s| && Duval.Placed(st, ws, ln, p)
    ensures w < |st| - 1 && st[w] <= p < st[w + 1] && ws[p] == st[w] && ln[p] == st[w + 1] - st[w]
    ensures PosOk(s, ws, ln, p) && WordOf(s, ws, ln, p) == Word(s, st, w)
  {
    w :| Duval.InWord(st, ws, ln, p, w);
    CutsAt(s, st, w);
    assert IsLyndon(Word(s, st, w));
  }

  // ---- order of the conjugates ----

  ghost predicate CLess(s: seq<int>, ws: seq<int>, ln: seq<int>, p: int, q: int)
    requires PosOk(s, ws, ln, p) && PosOk(s, ws, ln, q)
  {
    Less(WordOf(s, ws, ln, p), p - ws[p], WordOf(s, ws, ln, q), q - ws[q])
  }

  ghost predicate CSame(s: seq<int>, ws: seq<int>, ln: seq<int>, p: int, q: int)
    requires PosOk(s, ws, ln, p) && PosOk(s, ws, ln, q)
  {
    Same(WordOf(s, ws, ln, p), p - ws[p], WordOf(s, ws, ln, q), q - ws[q])
  }

  /** By infinite word, ties by position. */
  ghost predicate Before(s: seq<int>, ws: seq<int>, ln: seq<int>, p: int, q: int)
    requires PosOk(s, ws, ln, p) && PosOk(s, ws, ln, q)
  {
    CLess(s, ws, ln, p, q) || (CSame(s, ws, ln, p, q) && p < q)
  }

  /** Enough symbols to decide any comparison, then the position. */
  ghost function Key(w: seq<int>, o: nat, n: nat, p: int): (k: seq<int>)
    requires w != []
    ensures |k| == n + 1 && k[n] == p && forall d :: 0 <= d < n ==> k[d] == Cyc(w, o + d)
  {
    seq(n, d requires 0 <= d => Cyc(w, o + d)) + [p]
  }

  lemma {:induction false} FirstDifference(w: seq<int>, o: nat, v: seq<int>, q: nat, n: nat) returns (d: nat)
    requires w != [] && v != []
    ensures d <= n && AgreeBelow(w, o, v, q, d) && (d < n ==> Cyc(w, o + d) != Cyc(v, q + d))
  {
    d := 0;
    while d < n && Cyc(w, o + d) == Cyc(v, q + d)
      invariant d <= n && AgreeBelow(w, o, v, q, d)
    {
      d := d + 1;
    }
  }

  lemma KeyDifference(w: seq<int>, o: nat, v: seq<int>, q: nat, n: nat, p: int, r: int, d: nat)
    requires w != [] && v != [] && d < n && LessAt(w, o, v, q, d)
    ensures LexLess(Key(w, o, n, p), Key(v, q, n, r))
  {
    var x, y := Key(w, o, n, p), Key(v, q, n, r);
    forall e | 0 <= e < d ensures x[..d][e] == y[..d][e] {
      assert AgreeAt(w, o, v, q, e);
    }
    LexDiffer(x, y, d);
  }

  lemma KeyTie(w: seq<int>, o: nat, v: seq<int>, q: nat, n: nat, p: int, r: int)
    requires w != [] && v != [] && Same(w, o, v, q)
    ensures LexLess(Key(w, o, n, p), Key(v, q, n, r)) <==> p < r
  {
    var x, y := Key(w, o, n, p), Key(v, q, n, r);
    forall e | 0 <= e < n ensures x[..n][e] == y[..n][e] {
      assert AgreeAt(w, o, v, q, e);
    }
    if p < r { LexDiffer(x, y, n); }
    if r < p { LexDiffer(y, x, n); if LexLess(x, y) { LexTransitive(x, y, x); LexIrreflexive(x); } }
    if p == r { assert x == y; LexIrreflexive(x); }
  }

  /** Comparing keys is comparing infinite words, ties by position. */
  lemma KeyOrder(w: seq<int>, o: nat, v: seq<int>, q: nat, n: nat, p: int, r: int)
    requires w != [] && v != [] && |w| + |v| <= n
    ensures LexLess(Key(w, o, n, p), Key(v, q, n, r)) <==> Less(w, o, v, q) || (Same(w, o, v, q) && p < r)
  {
    var d := FirstDifference(w, o, v, q, n);
    if d == n {
      assert AgreeBelow(w, o, v, q, |w| + |v|);
      AgreeForever(w, o, v, q);
      if Less(w, o, v, q) { LessNotSame(w, o, v, q); }
      KeyTie(w, o, v, q, n, p, r);
    } else if Cyc(w, o + d) < Cyc(v, q + d) {
      assert LessAt(w, o, v, q, d);
      KeyDifference(w, o, v, q, n, p, r, d);
    } else {
      forall e: nat | e < d ensures AgreeAt(v, q, w, o, e) { assert AgreeAt(w, o, v, q, e); }
      assert LessAt(v, q, w, o, d);
      KeyDifference(v, q, w, o, n, r, p, d);
      LessNotSame(v, q, w, o);
      NotBothWays(Key(v, q, n, r), Key(w, o, n, p));
    }
  }

  lemma NotBothWays(x: seq<int>, y: seq<int>)
    requires LexLess(x, y)
    ensures !LexLess(y, x)
  {
    if LexLess(y, x) { LexTransitive(x, y, x); LexIrreflexive(x); }
  }

  ghost function Keys(s: seq<int>, ws: seq<int>, ln: seq<int>): (r: seq<seq<int>>)
    requires Factored(s, ws, ln)
    ensures |r| == |s|
    ensures forall p :: 0 <= p < |s| ==> PosOk(s, ws, ln, p) && r[p] == Key(WordOf(s, ws, ln, p), p - ws[p], 2 * |s|, p)
  {
    assert forall p :: 0 <= p < |s| ==> PosOk(s, ws, ln, p);
    seq(|s|, p requires 0 <= p < |s| && PosOk(s, ws, ln, p) => Key(WordOf(s, ws, ln, p), p - ws[p], 2 * |s|, p))
  }

  /** The place of each position among the sorted conjugates. */
  ghost function ConjRanks(s: seq<int>, ws: seq<int>, ln: seq<int>): (r: seq<int>)
    requires Factored(s, ws, ln)
    ensures |r| == |s|
  {
    Ranks(Keys(s, ws, ln))
  }

  lemma ConjRankOrder(s: seq<int>, ws: seq<int>, ln: seq<int>, p: nat, q: nat)
    requires Factored(s, ws, ln) && p < |s| && q < |s|
    ensures PosOk(s, ws, ln, p) && PosOk(s, ws, ln, q)
    ensures ConjRanks(s, ws, ln)[p] < ConjRanks(s, ws, ln)[q] <==> Before(s, ws, ln, p, q)
  {
    assert PosOk(s, ws, ln, p) && PosOk(s, ws, ln, q);
    RankOrder(Keys(s, ws, ln), p, q);
    KeyOrder(WordOf(s, ws, ln, p), p - ws[p], WordOf(s, ws, ln, q), q - ws[q], 2 * |s|, p, q);
  }

  lemma ConjRanksPermute(s: seq<int>, ws: seq<int>, ln: seq<int>)
    requires Factored(s, ws, ln)
    ensures Permutation(ConjRanks(s, ws, ln))
  {
    var k := Keys(s, ws, ln);
    forall i, j | 0 <= i < |k| && 0 <= j < |k| && k[i] == k[j] ensures i == j {
      assert k[i][2 * |s|] == i && k[j][2 * |s|] == j;
    }
    RanksPermute(k);
  }

  ghost predicate OrderedAt(s: seq<int>, ws: seq<int>, ln: seq<int>, r: seq<int>, p: int, q: int)
    requires Factored(s, ws, ln) && |r| == |s|
  {
    0 <= p < |s| && 0 <= q < |s| ==>
      PosOk(s, ws, ln, p) && PosOk(s, ws, ln, q) && (r[p] < r[q] <==> Before(s, ws, ln, p, q))
  }

  /** r ranks the text positions by their conjugates. */
  ghost predicate ConjOrder(s: seq<int>, ws: seq<int>, ln: seq<int>, r: seq<int>) {
    && Factored(s, ws, ln) && |r| == |s| && Permutation(r)
    && (forall p, q {:trigger OrderedAt(s, ws, ln, r, p, q)} :: OrderedAt(s, ws, ln, r, p, q))
  }

  lemma ConjOrderExists(s: seq<int>, ws: seq<int>, ln: seq<int>) returns (r: seq<int>)
    requires Factored(s, ws, ln)
    ensures ConjOrder(s, ws, ln, r)
  {
    r := ConjRanks(s, ws, ln);
    ConjRanksPermute(s, ws, ln);
    forall p, q ensures OrderedAt(s, ws, ln, r, p, q) {
      if 0 <= p < |s| && 0 <= q < |s| { ConjRankOrder(s, ws, ln, p, q); }
    }
  }

  // ---- one step back inside a word ----

  /** The cyclic predecessor of p in its own word. */
  ghost function Prev(ws: seq<int>, ln: seq<int>, p: int): int
    requires 0 <= p < |ws| == |ln|
  {
    if p == ws[p] then ws[p] + ln[p] - 1 else p - 1
  }

  lemma PrevOk(s: seq<int>, ws: seq<int>, ln: seq<int>, p: int)
    requires Factored(s, ws, ln) && 0 <= p < |s|
    ensures 0 <= Prev(ws, ln, p) < |s| && ws[Prev(ws, ln, p)] == ws[p] && ln[Prev(ws, ln, p)] == ln[p]
    ensures PosOk(s, ws, ln, p) && PosOk(s, ws, ln, Prev(ws, ln, p))
    ensures WordOf(s, ws, ln, Prev(ws, ln, p)) == WordOf(s, ws, ln, p)
  {
    assert PosOk(s, ws, ln, p);
    var q := Prev(ws, ln, p);
    assert PosOk(s, ws, ln, q) && PairOk(s, ws, ln, p, q);
  }

  /** After the predecessor's own symbol its infinite word continues as that of p. */
  lemma PrevReads(s: seq<int>, ws: seq<int>, ln: seq<int>, p: int)
    requires Factored(s, ws, ln) && 0 <= p < |s|
    ensures PosOk(s, ws, ln, p) && 0 <= Prev(ws, ln, p) < |s| && Prev(ws, ln, p) >= ws[p]
    ensures var q, w := Prev(ws, ln, p), WordOf(s, ws, ln, p);
            Cyc(w, q - ws[p]) == s[q] && Same(w, q - ws[p] + 1, w, p - ws[p])
  {
    PrevOk(s, ws, ln, p);
    var w := WordOf(s, ws, ln, p);
    if p == ws[p] {
      SamePeriod(w, 0);
    } else {
      SameReflexive(w, p - ws[p]);
    }
  }

  lemma PrevLess(s: seq<int>, ws: seq<int>, ln: seq<int>, p: int, q: int)
    requires Factored(s, ws, ln) && 0 <= p < |s| && 0 <= q < |s|
    ensures var a, b := Prev(ws, ln, p), Prev(ws, ln, q);
            && PosOk(s, ws, ln, p) && PosOk(s, ws, ln, q) && PosOk(s, ws, ln, a) && PosOk(s, ws, ln, b)
            && (CLess(s, ws, ln, a, b) <==> s[a] < s[b] || (s[a] == s[b] && CLess(s, ws, ln, p, q)))
  {
    PrevOk(s, ws, ln, p);
    PrevOk(s, ws, ln, q);
    PrevReads(s, ws, ln, p);
    PrevReads(s, ws, ln, q);
    var a, b := Prev(ws, ln, p), Prev(ws, ln, q);
    var w, v := WordOf(s, ws, ln, p), WordOf(s, ws, ln, q);
    LessStep(w, a - ws[p], v, b - ws[q]);
    LessCongruent(w, a - ws[p] + 1, p - ws[p], v, b - ws[q] + 1, q - ws[q]);
  }

  lemma PrevSame(s: seq<int>, ws: seq<int>, ln: seq<int>, p: int, q: int)
    requires Factored(s, ws, ln) && 0 <= p < |s| && 0 <= q < |s|
    ensures var a, b := Prev(ws, ln, p), Prev(ws, ln, q);
            && PosOk(s, ws, ln, p) && PosOk(s, ws, ln, q) && PosOk(s, ws, ln, a) && PosOk(s, ws, ln, b)
            && (CSame(s, ws, ln, a, b) <==> s[a] == s[b] && CSame(s, ws, ln, p, q))
  {
    PrevOk(s, ws, ln, p);
    PrevOk(s, ws, ln, q);
    PrevReads(s, ws, ln, p);
    PrevReads(s, ws, ln, q);
    var a, b := Prev(ws, ln, p), Prev(ws, ln, q);
    var w, v := WordOf(s, ws, ln, p), WordOf(s, ws, ln, q);
    SameStep(w, a - ws[p], v, b - ws[q]);
    LessCongruent(w, a - ws[p] + 1, p - ws[p], v, b - ws[q] + 1, q - ws[q]);
  }

  /** Equal infinite words sit at equal offsets, so stepping back keeps their positions' order. */
  lemma TieOrder(s: seq<int>, ws: seq<int>, ln: seq<int>, p: int, q: int)
    requires Factored(s, ws, ln) && 0 <= p < |s| && 0 <= q < |s|
    requires PosOk(s, ws, ln, p) && PosOk(s, ws, ln, q) && CSame(s, ws, ln, p, q)
    ensures p < q <==> Prev(ws, ln, p) < Prev(ws, ln, q)
  {
    SameRotation(WordOf(s, ws, ln, p), p - ws[p], WordOf(s, ws, ln, q), q - ws[q]);
  }

  /** Stepping back sorts by symbol first, then keeps the order. */
  lemma PrevOrder(s: seq<int>, ws: seq<int>, ln: seq<int>, r: seq<int>, p: int, q: int)
    requires ConjOrder(s, ws, ln, r) && 0 <= p < |s| && 0 <= q < |s|
    ensures var a, b := Prev(ws, ln, p), Prev(ws, ln, q);
            && 0 <= a < |s| && 0 <= b < |s|
            && (r[a] < r[b] <==> s[a] < s[b] || (s[a] == s[b] && r[p] < r[q]))
  {
    PrevOk(s, ws, ln, p);
    PrevOk(s, ws, ln, q);
    PrevLess(s, ws, ln, p, q);
    PrevSame(s, ws, ln, p, q);
    assert OrderedAt(s, ws, ln, r, p, q) && OrderedAt(s, ws, ln, r, Prev(ws, ln, p), Prev(ws, ln, q));
    if CSame(s, ws, ln, p, q) { TieOrder(s, ws, ln, p, q); }
  }

  /** A word's own start is the first of its conjugates. */
  lemma StartLeast(s: seq<int>, ws: seq<int>, ln: seq<int>, r: seq<int>, p: int)
    requires ConjOrder(s, ws, ln, r) && 0 <= p < |s|
    ensures 0 <= ws[p] < |s| && (ws[p] != p ==> r[ws[p]] < r[p])
  {
    assert PosOk(s, ws, ln, p);
    var q := ws[p];
    assert PosOk(s, ws, ln, q) && PairOk(s, ws, ln, p, q);
    if q != p {
      LyndonMinimal(WordOf(s, ws, ln, p), p - ws[p]);
      assert OrderedAt(s, ws, ln, r, q, p);
    }
  }

  /** Word starts in text order: equal words in that order, a smaller word before a larger one. */
  lemma StartOrder(s: seq<int>, ws: seq<int>, ln: seq<int>, r: seq<int>, p: int, q: int)
    requires ConjOrder(s, ws, ln, r) && 0 <= p < q < |s| && ws[p] == p && ws[q] == q
    ensures PosOk(s, ws, ln, p) && PosOk(s, ws, ln, q)
    ensures r[p] < r[q] <==> WordOf(s, ws, ln, p) == WordOf(s, ws, ln, q)
  {
    assert PosOk(s, ws, ln, p) && PosOk(s, ws, ln, q) && PairOk(s, ws, ln, p, q);
    var u, v := WordOf(s, ws, ln, p), WordOf(s, ws, ln, q);
    assert OrderedAt(s, ws, ln, r, p, q);
    if u == v {
      SameReflexive(u, 0);
    } else {
      LexTotal(u, v);
      LyndonOrder(v, u);
      LessNotSame(v, 0, u, 0);
    }
  }
}
