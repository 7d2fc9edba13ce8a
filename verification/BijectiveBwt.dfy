/** The bijective transform and its inverse as the library runs them (bwt89_bwts.c:300-518). */
module BijectiveBwt {
  import opened Common
  import opened LexOrder
  import opened InducedSort
  import opened Seeding
  import opened PeriodicWords
  import opened Conjugates
  import opened ConjugateSort
  import opened LfMapping
  import opened BijectiveTheory
  import opened Bijection
  import opened BwtTheory
  import opened Bwt
  import Duval

  // ---- forward ----

  /** emit_conjugate over all rows: the last symbol of each conjugate. */
  method EmitConjugates(s: seq<Byte>, ghost y: Layout, ws: seq<int>, ln: seq<int>, ord: seq<int>, out: array<Byte>)
    requires y.s == s && y.ws == ws && y.ln == ln && y.ord == ord && ValidLayout(y) && |s| <= out.Length
    modifies out
    ensures LastBytes(y, out[..|s|])
    ensures out[|s|..] == old(out[|s|..])
  {
    for i := 0 to |s|
      invariant forall k :: 0 <= k < i ==> 0 <= Prev(ws, ln, ord[k]) < |s| && out[k] == s[Prev(ws, ln, ord[k])]
      invariant out[|s|..] == old(out[|s|..])
    {
      var p := ord[i];
      PrevOk(s, ws, ln, p);
      LastOfConjugate(s, ws, ln, p);
      var c := ConjByte(s, ws, ln, p, ln[p] - 1);
      out[i] := c;
    }
    forall i | 0 <= i < |s| ensures RowAt(y, out[..|s|], i) {
      PrevOk(s, ws, ln, ord[i]);
    }
  }

  /** The last symbol of the conjugate at p is the symbol before p in its word. */
  lemma LastOfConjugate(s: seq<int>, ws: seq<int>, ln: seq<int>, p: int)
    requires Factored(s, ws, ln) && 0 <= p < |s|
    ensures PosOk(s, ws, ln, p) && 0 <= Prev(ws, ln, p) < |s|
    ensures Cyc(WordOf(s, ws, ln, p), p - ws[p] + (ln[p] - 1)) == s[Prev(ws, ln, p)]
  {
    PrevOk(s, ws, ln, p);
    var w := WordOf(s, ws, ln, p);
    if p != ws[p] { CycPeriod(w, p - ws[p] - 1); }
  }

  /** bwt89_bbwt. The output buffer may be the input buffer. */
  method Transform(s: array<Byte>, n: nat, out: array<Byte>) returns (st: Status)
    requires n <= s.Length && n <= out.Length
    modifies out
    ensures st == if n > MAX_N then TooLarge else Ok
    ensures st == Ok ==> IsBijective(old(s[..n]), out[..n])
    ensures st != Ok ==> out[..] == old(out[..])
    ensures out[n..] == old(out[n..])
  {
    if n > MAX_N { return TooLarge; }
    var src := s[..n];
    ghost var y := SortConjugates(src, out);
    return Ok;
  }

  method SortConjugates(src: seq<Byte>, out: array<Byte>) returns (ghost y: Layout)
    requires |src| <= out.Length
    modifies out
    ensures y.s == src && ValidLayout(y) && LastBytes(y, out[..|src|])
    ensures out[|src|..] == old(out[|src|..])
  {
    var n := |src|;
    var wsa, lna;
    ghost var st;
    wsa, lna, st := Duval.Factorize(src);
    var ws, ln := wsa[..], lna[..];
    CutsFactored(src, st, ws, ln);
    ghost var r := ConjOrderExists(src, ws, ln);
    var ord, tmp := new int[n], new int[n];
    for i := 0 to n
      modifies ord
      invariant forall k :: 0 <= k < i ==> ord[k] == k
    {
      ord[i] := i;
    }
    SortRun(src, ws, ln, ord, tmp, 0, n, r);
    SortedIsInverse(r, ord[..]);
    y := Layout(src, st, ws, ln, r, ord[..]);
    EmitConjugates(src, y, ws, ln, ord[..], out);
  }

  // ---- inverse ----

  /** prefix_next and rank_assign: the LF mapping, with one running counter per symbol. */
  method BuildRank(b: seq<Byte>) returns (rank: array<int>)
    ensures fresh(rank) && rank[..] == Lf(b)
  {
    var freq := CountSymbols(b, 255);
    var less := RunningCounts(freq, b);
    rank := new int[|b|];
    ghost var lf := Lf(b);
    forall c | 0 <= c < 256 ensures |Earlier(b, 0, c)| == 0 {
      assert Earlier(b, 0, c) == {};
    }
    for i := 0 to |b|
      invariant forall c :: 0 <= c < 256 ==> less[c] == Head(b, c) + |Earlier(b, i, c)|
      invariant forall k :: 0 <= k < i ==> rank[k] == lf[k]
    {
      LfCounts(b, i);
      rank[i] := less[b[i]];
      ghost var before := less[..];
      less[b[i]] := less[b[i]] + 1;
      forall c | 0 <= c < 256 ensures less[c] == Head(b, c) + |Earlier(b, i + 1, c)| {
        EarlierStep(b, i, c);
        assert before[c] == Head(b, c) + |Earlier(b, i, c)|;
      }
    }
  }

  method RunningCounts(freq: array<int>, ghost b: seq<int>) returns (less: array<int>)
    requires freq.Length == 256 && forall i :: 0 <= i < |b| ==> 0 <= b[i]
    requires forall c :: 0 <= c < 256 ==> freq[c] == Head(b, c + 1) - Head(b, c)
    ensures fresh(less) && less.Length == 256 && forall c :: 0 <= c < 256 ==> less[c] == Head(b, c)
  {
    less := new int[256];
    HeadOfZero(b);
    var acc := 0;
    for c := 0 to 256
      invariant acc == Head(b, c)
      invariant forall d :: 0 <= d < 256 ==> freq[d] == Head(b, d + 1) - Head(b, d)
      invariant forall d :: 0 <= d < c ==> less[d] == Head(b, d)
    {
      less[c] := acc;
      acc := acc + freq[c];
    }
  }

  /** Row x is used up: its word was met before row i, or it is one of the first t
      positions of the word at p met now (p itself, then from the word's end down). */
  ghost predicate Gone(y: Layout, i: int, p: int, t: int, x: int)
    requires ValidLayout(y) && 0 <= x < |y.s|
  {
    var q := y.ord[x];
    WordStartRow(y, x) < i || (y.ws[q] == p && t >= 1 && (q == p || q > p + y.ln[q] - t))
  }

  /** The row of the start of row x's word. */
  ghost function WordStartRow(y: Layout, x: int): (z: int)
    requires ValidLayout(y) && 0 <= x < |y.s|
    ensures 0 <= z < |y.s|
  {
    StartLeast(y.s, y.ws, y.ln, y.r, y.ord[x]);
    y.r[y.ws[y.ord[x]]]
  }

  ghost predicate RankAt(y: Layout, lf: seq<int>, rank: seq<int>, i: int, p: int, t: int, x: int)
    requires ValidLayout(y) && |lf| == |rank| == |y.s| && 0 <= x < |y.s|
  {
    rank[x] == if Gone(y, i, p, t, x) then -1 else lf[x]
  }

  /** rank holds -1 at the rows used up and the LF mapping elsewhere. */
  ghost predicate RankState(y: Layout, lf: seq<int>, rank: seq<int>, i: int, p: int, t: int) {
    && ValidLayout(y) && |lf| == |rank| == |y.s|
    && (forall x {:trigger RankAt(y, lf, rank, i, p, t, x)} :: 0 <= x < |y.s| ==> RankAt(y, lf, rank, i, p, t, x))
  }

  /** One step of the cycle from the word start p: which row comes next and whether it is used up. */
  lemma WalkStep(y: Layout, b: seq<int>, lf: seq<int>, rank: seq<int>, p: int, t: nat, pos: int)
    requires ValidLayout(y) && LastBytes(y, b) && lf == BackRows(y)
    requires 0 <= p < |y.s| && y.ws[p] == p && t < y.ln[p]
    requires RankState(y, lf, rank, y.r[p], p, t)
    requires p + y.ln[p] <= |y.s| && pos == y.r[WalkAt(y, p, t)]
    ensures 0 <= pos < |y.s| && b[pos] == y.s[p + y.ln[p] - 1 - t]
    ensures rank[pos] == lf[pos] && 0 <= lf[pos] < |y.s|
    ensures lf[pos] == if t == y.ln[p] - 1 then y.r[p] else y.r[WalkAt(y, p, t + 1)]
    ensures RankState(y, lf, rank[pos := -1], y.r[p], p, t + 1)
  {
    var q := WalkAt(y, p, t);
    assert PosOk(y.s, y.ws, y.ln, p) && PosOk(y.s, y.ws, y.ln, q) && PairOk(y.s, y.ws, y.ln, p, q);
    assert y.ord[pos] == q;
    assert RowAt(y, b, pos) && RankAt(y, lf, rank, y.r[p], p, t, pos);
    BackWalk(y, p, t);
    PrevOk(y.s, y.ws, y.ln, q);
    assert lf[pos] == BackRow(y, pos);
    assert !Gone(y, y.r[p], p, t, pos);
    RankNext(y, lf, rank, p, t, pos);
  }

  /** Marking the row just visited moves the state one step on. */
  lemma RankNext(y: Layout, lf: seq<int>, rank: seq<int>, p: int, t: nat, pos: int)
    requires ValidLayout(y) && 0 <= p < |y.s| && y.ws[p] == p && t < y.ln[p] && p + y.ln[p] <= |y.s|
    requires RankState(y, lf, rank, y.r[p], p, t) && pos == y.r[WalkAt(y, p, t)] && 0 <= pos < |rank|
    ensures RankState(y, lf, rank[pos := -1], y.r[p], p, t + 1)
  {
    var rank' := rank[pos := -1];
    var t' := t + 1;
    forall x | 0 <= x < |y.s| ensures RankAt(y, lf, rank', y.r[p], p, t', x) {
      assert RankAt(y, lf, rank, y.r[p], p, t, x);
      GoneStep(y, p, t, x, pos);
    }
  }

  lemma GoneStep(y: Layout, p: int, t: nat, x: int, pos: int)
    requires ValidLayout(y) && 0 <= p < |y.s| && y.ws[p] == p && t < y.ln[p] && p + y.ln[p] <= |y.s|
    requires 0 <= x < |y.s| && pos == y.r[WalkAt(y, p, t)]
    ensures Gone(y, y.r[p], p, t + 1, x) <==> x == pos || Gone(y, y.r[p], p, t, x)
  {
    var q := y.ord[x];
    assert PosOk(y.s, y.ws, y.ln, q) && PosOk(y.s, y.ws, y.ln, p) && PairOk(y.s, y.ws, y.ln, p, q);
    assert PosOk(y.s, y.ws, y.ln, WalkAt(y, p, t)) && PairOk(y.s, y.ws, y.ln, p, WalkAt(y, p, t));
    assert x == pos <==> q == WalkAt(y, p, t);
    if y.ws[q] == p { assert PairOk(y.s, y.ws, y.ln, q, p); }
  }

  /** run_cycle from the row of the word start p: writes that word below wi and uses up its rows. */
  method RunCycle(b: seq<Byte>, out: array<Byte>, rank: array<int>, wi: nat, start: nat,
                  ghost y: Layout, ghost lf: seq<int>, ghost p: int) returns (wi': nat)
    requires ValidLayout(y) && LastBytes(y, b) && lf == BackRows(y)
    requires 0 <= p < |y.s| && y.ws[p] == p && p + y.ln[p] <= |y.s| && y.ln[p] >= 1 && start == y.r[p]
    requires rank.Length == |y.s| && RankState(y, lf, rank[..], start, p, 0)
    requires y.ln[p] <= wi <= out.Length
    modifies out, rank
    ensures wi' == wi - y.ln[p]
    ensures out[wi'..wi] == y.s[p..p + y.ln[p]]
    ensures forall k :: 0 <= k < out.Length && !(wi' <= k < wi) ==> out[k] == old(out[k])
    ensures RankState(y, lf, rank[..], start, p, y.ln[p])
  {
    var pos := start;
    wi' := wi;
    ghost var t := 0;
    var done := false;
    while !done
      invariant 0 <= t <= y.ln[p] && wi' == wi - t && (done <==> t == y.ln[p])
      invariant t < y.ln[p] ==> pos == y.r[WalkAt(y, p, t)]
      invariant RankState(y, lf, rank[..], start, p, t)
      invariant forall k :: wi' <= k < wi ==> out[k] == y.s[p + y.ln[p] - (wi - k)]
      invariant forall k :: 0 <= k < out.Length && !(wi' <= k < wi) ==> out[k] == old(out[k])
      decreases y.ln[p] - t
    {
      ghost var before := rank[..];
      CycleStep(y, b, lf, before, p, t, pos);
      var k := wi' - 1;
      out[k] := b[pos];
      var next := rank[pos];
      rank[pos] := -1;
      assert rank[..] == before[pos := -1];
      wi' := k;
      done := next < 0 || rank[next] < 0;
      if !done { pos := next; }
      t := t + 1;
    }
    assert out[wi'..wi] == y.s[p..p + y.ln[p]];
  }

  /** What one turn of the cycle loop does: the byte it writes, the row it goes to, and when it stops. */
  lemma CycleStep(y: Layout, b: seq<int>, lf: seq<int>, rank: seq<int>, p: int, t: nat, pos: int)
    requires ValidLayout(y) && LastBytes(y, b) && lf == BackRows(y)
    requires 0 <= p < |y.s| && y.ws[p] == p && t < y.ln[p] && p + y.ln[p] <= |y.s|
    requires RankState(y, lf, rank, y.r[p], p, t) && pos == y.r[WalkAt(y, p, t)]
    ensures 0 <= pos < |y.s| == |rank| && b[pos] == y.s[p + y.ln[p] - 1 - t]
    ensures 0 <= rank[pos] < |y.s| && (t + 1 < y.ln[p] ==> rank[pos] == y.r[WalkAt(y, p, t + 1)])
    ensures RankState(y, lf, rank[pos := -1], y.r[p], p, t + 1)
    ensures rank[pos := -1][rank[pos]] < 0 <==> t + 1 == y.ln[p]
  {
    WalkStep(y, b, lf, rank, p, t, pos);
    NextUsed(y, lf, rank[pos := -1], p, t + 1, rank[pos]);
  }

  /** The next row of the cycle is used up exactly when the word is finished. */
  lemma NextUsed(y: Layout, lf: seq<int>, rank: seq<int>, p: int, t: nat, next: int)
    requires ValidLayout(y) && lf == BackRows(y) && 0 <= p < |y.s| && RankState(y, lf, rank, y.r[p], p, t)
    requires y.ws[p] == p && 1 <= t <= y.ln[p] && p + y.ln[p] <= |y.s|
    requires next == if t == y.ln[p] then y.r[p] else y.r[WalkAt(y, p, t)]
    ensures 0 <= next < |y.s| && (rank[next] < 0 <==> t == y.ln[p])
  {
    var q := if t == y.ln[p] then p else WalkAt(y, p, t);
    assert PosOk(y.s, y.ws, y.ln, p) && PosOk(y.s, y.ws, y.ln, q) && PairOk(y.s, y.ws, y.ln, p, q);
    assert y.ord[next] == q;
    assert RankAt(y, lf, rank, y.r[p], p, t, next);
    BackRowsPermute(y);
  }

  ghost predicate CyclesState(y: Layout, lf: seq<int>, rank: seq<int>, i: int, wi: int) {
    && RankState(y, lf, rank, i, 0, 0)
    && wi == Written(y, i)
  }

  lemma CyclesStart(y: Layout, lf: seq<int>)
    requires ValidLayout(y) && |lf| == |y.s|
    ensures CyclesState(y, lf, lf, 0, |y.s|)
  {
    WrittenFirst(y);
    forall x | 0 <= x < |y.s| ensures RankAt(y, lf, lf, 0, 0, 0, x) {}
  }

  /** A row whose position does not start a word was used up with its word. */
  lemma RowInside(y: Layout, lf: seq<int>, rank: seq<int>, i: int, wi: int)
    requires CyclesState(y, lf, rank, i, wi) && 0 <= i < |y.s| && y.ws[y.ord[i]] != y.ord[i]
    ensures rank[i] < 0 && CyclesState(y, lf, rank, i + 1, wi)
  {
    var p, i' := y.ord[i], i + 1;
    StartLeast(y.s, y.ws, y.ln, y.r, p);
    assert RankAt(y, lf, rank, i, 0, 0, i);
    WrittenInside(y, i);
    forall x | 0 <= x < |y.s| ensures RankAt(y, lf, rank, i', 0, 0, x) {
      assert RankAt(y, lf, rank, i, 0, 0, x);
      var q := y.ord[x];
      StartLeast(y.s, y.ws, y.ln, y.r, q);
      assert PosOk(y.s, y.ws, y.ln, q) && PosOk(y.s, y.ws, y.ln, y.ws[q]) && PairOk(y.s, y.ws, y.ln, q, y.ws[q]);
    }
  }

  /** A row whose position starts a word begins a fresh cycle, and that word is the next one to write. */
  lemma RowStart(y: Layout, lf: seq<int>, rank: seq<int>, i: int, wi: int)
    requires CyclesState(y, lf, rank, i, wi) && 0 <= i < |y.s| && y.ws[y.ord[i]] == y.ord[i]
    requires |lf| == |y.s| && (forall x :: 0 <= x < |lf| ==> 0 <= lf[x])
    ensures rank[i] >= 0
    ensures var p := y.ord[i]; var n := y.ln[p];
            && RankState(y, lf, rank, i, p, 0) && 1 <= n <= wi && p + n <= |y.s|
            && wi <= |y.s| && y.s[p..p + n] == y.s[wi - n..wi]
            && wi - n == Written(y, i + 1)
  {
    var p := y.ord[i];
    assert RankAt(y, lf, rank, i, 0, 0, i);
    forall x | 0 <= x < |y.s| ensures RankAt(y, lf, rank, i, p, 0, x) {
      assert RankAt(y, lf, rank, i, 0, 0, x);
    }
    WrittenStart(y, i);
  }

  /** After the cycle of word start p, exactly the rows met so far are used up. */
  lemma RowDone(y: Layout, lf: seq<int>, rank: seq<int>, i: int)
    requires ValidLayout(y) && 0 <= i < |y.s| && y.ws[y.ord[i]] == y.ord[i]
    requires RankState(y, lf, rank, i, y.ord[i], y.ln[y.ord[i]])
    ensures RankState(y, lf, rank, i + 1, 0, 0)
  {
    var p, i' := y.ord[i], i + 1;
    forall x | 0 <= x < |y.s| ensures RankAt(y, lf, rank, i', 0, 0, x) {
      assert RankAt(y, lf, rank, i, p, y.ln[p], x);
      var q := y.ord[x];
      assert PosOk(y.s, y.ws, y.ln, q) && PosOk(y.s, y.ws, y.ln, p) && PosOk(y.s, y.ws, y.ln, y.ws[q]);
      assert PairOk(y.s, y.ws, y.ln, q, y.ws[q]);
      assert WordStartRow(y, x) == i <==> y.ws[q] == p;
    }
  }

  /** What was written stays, and the new word joins it in front. */
  lemma ExtendBack(before: seq<int>, after: seq<int>, text: seq<int>, lo: nat, hi: nat)
    requires lo <= hi <= |text| <= |before| == |after| && before[hi..|text|] == text[hi..] && after[lo..hi] == text[lo..hi]
    requires forall k :: hi <= k < |after| ==> after[k] == before[k]
    ensures after[lo..|text|] == text[lo..] && after[|text|..] == before[|text|..]
  {
    assert after[hi..|text|] == before[hi..|text|];
    assert after[lo..|text|] == after[lo..hi] + after[hi..|text|];
    assert text[lo..] == text[lo..hi] + text[hi..];
  }

  /** One turn of the loop of run_cycles: a row already used is skipped, any other starts a word. */
  method RunRow(b: seq<Byte>, out: array<Byte>, rank: array<int>, wi: nat, i: nat, ghost y: Layout, ghost lf: seq<int>) returns (wi': nat)
    requires ValidLayout(y) && LastBytes(y, b) && lf == BackRows(y) && Permutation(lf)
    requires rank.Length == |b| <= out.Length && i < |b| && wi <= |b| && CyclesState(y, lf, rank[..], i, wi)
    requires out[wi..|b|] == y.s[wi..]
    modifies out, rank
    ensures wi' <= |b| && CyclesState(y, lf, rank[..], i + 1, wi')
    ensures out[wi'..|b|] == y.s[wi'..] && out[|b|..] == old(out[|b|..])
  {
    ghost var p := y.ord[i];
    if y.ws[p] == p { RowStart(y, lf, rank[..], i, wi); } else { RowInside(y, lf, rank[..], i, wi); }
    if rank[i] < 0 { return wi; }
    ghost var before := out[..];
    wi' := RunCycle(b, out, rank, wi, i, y, lf, p);
    RowDone(y, lf, rank[..], i);
    ExtendBack(before, out[..], y.s, wi', wi);
  }

  /** run_cycles: writes the whole text, word by word from its end. */
  method RunCycles(b: seq<Byte>, out: array<Byte>, rank: array<int>, ghost y: Layout, ghost lf: seq<int>)
    requires ValidLayout(y) && LastBytes(y, b) && lf == BackRows(y)
    requires rank.Length == |b| <= out.Length && rank[..] == lf
    modifies out, rank
    ensures out[..|b|] == y.s
    ensures out[|b|..] == old(out[|b|..])
  {
    var wi: nat := |b|;
    CyclesStart(y, lf);
    BackRowsPermute(y);
    for i := 0 to |b|
      invariant wi <= |b| && CyclesState(y, lf, rank[..], i, wi)
      invariant out[wi..|b|] == y.s[wi..]
      invariant out[|b|..] == old(out[|b|..])
    {
      wi := RunRow(b, out, rank, wi, i, y, lf);
    }
    WrittenLast(y);
    assert out[..|b|] == out[0..|b|];
  }

  /** bwt89_ibbwt: every byte string is the transform of exactly one text, and this writes it. */
  method Invert(b: array<Byte>, n: nat, out: array<Byte>) returns (st: Status)
    requires n <= b.Length && n <= out.Length
    modifies out
    ensures st == if n > MAX_N then TooLarge else Ok
    ensures st == Ok ==> IsBijective(out[..n], old(b[..n]))
    ensures st != Ok ==> out[..] == old(out[..])
    ensures out[n..] == old(out[n..])
  {
    if n > MAX_N { return TooLarge; }
    var src := b[..n];
    ghost var text := TextExists(src);
    ghost var y: Layout :| y.s == text && ValidLayout(y) && LastBytes(y, src);
    LfFollowsWords(y, src);
    var rank := BuildRank(src);
    assert out[n..] == old(out[n..]);
    RunCycles(src, out, rank, y, Lf(src));
    return Ok;
  }

  // ---- the two together ----

  /** Inverting a bijective transform gives the text back, in place and for every byte string. */
  method RoundTrip(buf: array<Byte>) returns (st: Status)
    requires buf.Length <= MAX_N
    modifies buf
    ensures st == Ok && buf[..] == old(buf[..])
  {
    var n := buf.Length;
    ghost var text := buf[..n];
    st := Transform(buf, n, buf);
    ghost var b := buf[..n];
    st := Invert(buf, n, buf);
    BijectiveInjective(text, buf[..n], b);
    assert buf[..] == buf[..n];
  }

  /** And the other way round: every byte string is reached. */
  method RoundTripBack(buf: array<Byte>) returns (st: Status)
    requires buf.Length <= MAX_N
    modifies buf
    ensures st == Ok && buf[..] == old(buf[..])
  {
    var n := buf.Length;
    ghost var b := buf[..n];
    st := Invert(buf, n, buf);
    ghost var text := buf[..n];
    st := Transform(buf, n, buf);
    BijectiveUnique(text, b, buf[..n]);
    assert buf[..] == buf[..n];
  }
}
