/** Duval's linear factorization (bwt89_bwts.c:88-182). */
module Duval {
  import opened LexOrder
  import opened Lyndon

  // ---- the scan ----

  /** s[p..b] repeats the Lyndon word of length b - a that starts at p, the last copy cut off. */
  ghost predicate Scan(s: seq<int>, p: int, a: int, b: int) {
    && 0 <= p <= a < b <= |s| && p + (b - a) <= |s|
    && IsLyndon(s[p..p + (b - a)])
    && Repeats(s, p, a, b - a)
  }

  ghost predicate Repeats(s: seq<int>, p: int, a: int, len: int) {
    forall i {:trigger Periodic(s, i, len)} :: p <= i < a ==> Periodic(s, i, len)
  }

  ghost predicate Periodic(s: seq<int>, i: int, len: int) {
    0 <= i && 0 <= len && i + len < |s| && s[i] == s[i + len]
  }

  lemma ScanStart(s: seq<int>, p: nat)
    requires p < |s|
    ensures Scan(s, p, p, p + 1)
  {
  }

  /** A larger symbol makes everything read so far one Lyndon word. */
  lemma ScanRestart(s: seq<int>, p: int, a: int, b: int)
    requires Scan(s, p, a, b) && b < |s| && s[a] < s[b]
    ensures Scan(s, p, p, b + 1)
  {
    var x, len := s[p..b + 1], b - a;
    forall i | 0 <= i < |x| - 1 - len ensures x[i] == x[i + len] {
      assert Periodic(s, p + i, len);
    }
    assert x[..len] == s[p..p + len];
    DuvalStep(x, len);
  }

  lemma ScanAdvance(s: seq<int>, p: int, a: int, b: int)
    requires Scan(s, p, a, b) && b < |s| && s[a] == s[b]
    ensures Scan(s, p, a + 1, b + 1)
  {
    assert Periodic(s, a, b - a);
  }

  /** The window is closed: the text ends or the next symbol falls below the period. */
  ghost predicate Closed(s: seq<int>, a: int, b: int) {
    0 <= a < b <= |s| && (b < |s| ==> s[a] > s[b])
  }

  method ScanWord(s: seq<int>, p: nat) returns (a: nat, b: nat)
    requires p < |s|
    ensures Scan(s, p, a, b) && Closed(s, a, b)
  {
    a, b := p, p + 1;
    ScanStart(s, p);
    while b < |s| && s[a] <= s[b]
      invariant Scan(s, p, a, b)
      decreases |s| - b
    {
      if s[a] < s[b] {
        ScanRestart(s, p, a, b);
        a := p;
      } else {
        ScanAdvance(s, p, a, b);
        a := a + 1;
      }
      b := b + 1;
    }
  }

  // ---- cuts of a prefix ----

  /** st cuts s[..p] into non-increasing Lyndon words. */
  ghost predicate CutUpTo(s: seq<int>, st: seq<int>, p: int) {
    0 <= p <= |s| && LyndonCuts(s[..p], st)
  }

  /** What follows p is no larger than w, and never outgrows it. */
  ghost predicate TailBelow(s: seq<int>, w: seq<int>, p: int, d: int) {
    && 0 <= d < |w| && 0 <= p && p + d <= |s|
    && s[p..p + d] == w[..d]
    && (p + d < |s| ==> s[p + d] < w[d])
  }

  lemma TailBound(s: seq<int>, w: seq<int>, p: int, d: int, e: int)
    requires TailBelow(s, w, p, d) && p < e <= |s|
    ensures !LexLess(w, s[p..e])
  {
    var v := s[p..e];
    if e <= p + d {
      assert v == s[p..p + d][..e - p] == w[..d][..e - p] == w[..e - p];
      PrefixNotLarger(w, e - p);
    } else {
      assert v[..d] == s[p..p + d] == w[..d];
      LexDiffer(v, w, d);
      if LexLess(w, v) {
        LexTransitive(v, w, v);
        LexIrreflexive(v);
      }
    }
  }

  /** The last word of a cut prefix. */
  ghost function LastWord(s: seq<int>, st: seq<int>, p: int): seq<int>
    requires CutUpTo(s, st, p) && |st| >= 2
  {
    Word(s[..p], st, |st| - 2)
  }

  lemma SlicePrefix(s: seq<int>, p: nat, i: nat, j: nat)
    requires i <= j <= p <= |s|
    ensures s[..p][i..j] == s[i..j]
  {
  }

  lemma ExtendCuts(s: seq<int>, st: seq<int>, p: int, q: int)
    requires CutUpTo(s, st, p) && p < q <= |s| && IsLyndon(s[p..q])
    requires |st| >= 2 ==> !LexLess(LastWord(s, st, p), s[p..q])
    ensures CutUpTo(s, st + [q], q) && LastWord(s, st + [q], q) == s[p..q]
  {
    var st', x, y := st + [q], s[..p], s[..q];
    forall i ensures CutAt(y, st', i) {
      assert CutAt(x, st, i);
    }
    forall i | 0 <= i < |st| - 1 ensures Word(y, st', i) == Word(x, st, i) {
      CutsAt(x, st, i);
      SlicePrefix(s, p, st[i], st[i + 1]);
      SlicePrefix(s, q, st'[i], st'[i + 1]);
    }
    assert Word(y, st', |st| - 1) == s[p..q];
    forall i | 0 <= i < |st'| - 2 ensures NonIncreasing(y, st', i) {
      if i < |st| - 2 {
        assert NonIncreasing(x, st, i);
        assert Word(y, st', i) == Word(x, st, i) && Word(y, st', i + 1) == Word(x, st, i + 1);
      } else {
        assert Word(y, st', i) == LastWord(s, st, p);
      }
    }
  }

  // ---- emitting the copies of one word ----

  /** From q on, the window still repeats the word at p. */
  ghost predicate Copies(s: seq<int>, p: int, len: int, q: int, b: int) {
    && 0 <= p <= q <= b <= |s| && p + len <= b && 0 < len
    && (forall i :: 0 <= i < len && q + i < b ==> SameAt(s, p, q, i))
  }

  ghost predicate SameAt(s: seq<int>, p: int, q: int, i: int) {
    0 <= p + i < |s| && 0 <= q + i < |s| && s[p + i] == s[q + i]
  }

  lemma CopiesStep(s: seq<int>, p: int, a: int, b: int, q: int)
    requires Scan(s, p, a, b) && Copies(s, p, b - a, q, b) && q <= a
    ensures Copies(s, p, b - a, q + (b - a), b)
    ensures s[q..q + (b - a)] == s[p..p + (b - a)]
  {
    var len := b - a;
    var q' := q + len;
    forall i | 0 <= i < len && q' + i < b ensures SameAt(s, p, q', i) {
      assert SameAt(s, p, q, i);
      assert Periodic(s, q + i, len);
    }
    var u, w := s[q..q + len], s[p..p + len];
    forall i | 0 <= i < len ensures u[i] == w[i] {
      assert SameAt(s, p, q, i);
    }
  }

  /** The cut-off copy after the last full one, continued by a smaller symbol or the end. */
  lemma CopiesTail(s: seq<int>, p: int, a: int, b: int, q: int)
    requires Scan(s, p, a, b) && Closed(s, a, b) && Copies(s, p, b - a, q, b) && a < q
    requires Copies(s, p, b - a, q - (b - a), b)
    ensures TailBelow(s, s[p..p + (b - a)], q, b - q)
  {
    var len, d := b - a, b - q;
    var u, w := s[q..q + d], s[p..p + len];
    forall i | 0 <= i < d ensures u[i] == w[..d][i] {
      assert SameAt(s, p, q, i);
    }
    assert SameAt(s, p, q - len, d);
  }

  /** Progress of emission: copies of the word at p up to q, cutting s[..q] into st. */
  ghost predicate Emitting(s: seq<int>, p: int, a: int, b: int, q: int, st: seq<int>, d: int) {
    && Scan(s, p, a, b) && CutUpTo(s, st, q) && Copies(s, p, b - a, q, b)
    && (q == p && |st| >= 2 ==> TailBelow(s, LastWord(s, st, p), p, d))
    && (q != p ==> Copies(s, p, b - a, q - (b - a), b) && |st| >= 2 && LastWord(s, st, q) == s[p..p + (b - a)])
  }

  lemma EmitStep(s: seq<int>, p: int, a: int, b: int, q: int, st: seq<int>, d: int)
    requires Emitting(s, p, a, b, q, st, d) && q <= a
    ensures Emitting(s, p, a, b, q + (b - a), st + [q + (b - a)], d)
  {
    var len := b - a;
    CopiesStep(s, p, a, b, q);
    if q == p {
      if |st| >= 2 { TailBound(s, LastWord(s, st, p), p, d, p + len); }
    } else {
      LexIrreflexive(s[p..p + len]);
    }
    ExtendCuts(s, st, q, q + len);
  }

  /** factor_word: the copies of the next Lyndon word, appended to the starts. */
  method FactorWord(s: seq<int>, p: nat, starts: array<int>, nw: nat, ghost st: seq<int>, ghost d: int)
    returns (p': nat, nw': nat, ghost st': seq<int>, ghost d': int)
    requires p < |s| && nw + (|s| - p) < starts.Length && |st| == nw + 1 && starts[..nw] == st[..nw]
    requires CutUpTo(s, st, p) && st[nw] == p && (nw > 0 ==> TailBelow(s, LastWord(s, st, p), p, d))
    modifies starts
    ensures p < p' <= |s| && nw < nw' && nw' + (|s| - p') < starts.Length
    ensures |st'| == nw' + 1 && starts[..nw'] == st'[..nw']
    ensures CutUpTo(s, st', p') && st'[nw'] == p' && TailBelow(s, LastWord(s, st', p'), p', d')
  {
    var a, b := ScanWord(s, p);
    var len := b - a;
    p', nw', st' := p, nw, st;
    while p' <= a
      invariant p <= p' <= b && Emitting(s, p, a, b, p', st', d)
      invariant nw <= nw' && nw' - nw <= p' - p && (p' > p ==> nw' > nw)
      invariant |st'| == nw' + 1 && starts[..nw'] == st'[..nw'] && st'[nw'] == p'
    {
      EmitStep(s, p, a, b, p', st', d);
      starts[nw'] := p';
      nw' := nw' + 1;
      p' := p' + len;
      st' := st' + [p'];
    }
    CopiesTail(s, p, a, b, p');
    d' := b - p';
  }

  // ---- every position's own word ----

  /** ws and ln give position i the start and length of its word. */
  ghost predicate InWord(st: seq<int>, ws: seq<int>, ln: seq<int>, i: int, w: int) {
    && 0 <= w < |st| - 1 && 0 <= i < |ws| && i < |ln|
    && st[w] <= i < st[w + 1] && ws[i] == st[w] && ln[i] == st[w + 1] - st[w]
  }

  ghost predicate Placed(st: seq<int>, ws: seq<int>, ln: seq<int>, i: int) {
    exists w :: InWord(st, ws, ln, i, w)
  }

  /** factorize: the Lyndon starts, and for each position its word's start and length. */
  method Factorize(s: seq<int>) returns (ws: array<int>, ln: array<int>, ghost st: seq<int>)
    ensures fresh(ws) && fresh(ln) && ws != ln && ws.Length == ln.Length == |s|
    ensures LyndonCuts(s, st)
    ensures forall i {:trigger Placed(st, ws[..], ln[..], i)} :: 0 <= i < |s| ==> Placed(st, ws[..], ln[..], i)
  {
    var n := |s|;
    var starts := new int[n + 1];
    var nw, p := 0, 0;
    st := [0];
    ghost var d := 0;
    while p < n
      invariant p <= n && nw + (n - p) < starts.Length && |st| == nw + 1 && starts[..nw] == st[..nw]
      invariant CutUpTo(s, st, p) && st[nw] == p && (nw > 0 ==> TailBelow(s, LastWord(s, st, p), p, d))
      decreases n - p
    {
      p, nw, st, d := FactorWord(s, p, starts, nw, st, d);
    }
    starts[nw] := n;
    assert s[..n] == s;
    assert starts[..nw + 1] == st;
    ws, ln := FillWords(s, starts[..nw + 1]);
  }

  /** fill_word over all positions. */
  method FillWords(s: seq<int>, starts: seq<int>) returns (ws: array<int>, ln: array<int>)
    requires Cuts(s, starts)
    ensures fresh(ws) && fresh(ln) && ws != ln && ws.Length == ln.Length == |s|
    ensures forall i {:trigger Placed(starts, ws[..], ln[..], i)} :: 0 <= i < |s| ==> Placed(starts, ws[..], ln[..], i)
  {
    ws, ln := new int[|s|], new int[|s|];
    var w := 0;
    ghost var at: seq<int> := [];
    for i := 0 to |s|
      invariant 0 <= w < |starts| && starts[w] <= i && |at| == i
      invariant forall k :: 0 <= k < i ==> InWord(starts, ws[..], ln[..], k, at[k])
    {
      if w == |starts| - 1 { assert false; }
      while starts[w + 1] <= i
        invariant 0 <= w < |starts| - 1 && starts[w] <= i
        decreases |starts| - w
      {
        w := w + 1;
      }
      CutsAt(s, starts, w);
      ghost var ws0, ln0 := ws[..], ln[..];
      ws[i] := starts[w];
      ln[i] := starts[w + 1] - starts[w];
      at := at + [w];
      forall k | 0 <= k < i + 1 ensures InWord(starts, ws[..], ln[..], k, at[k]) {
        if k < i { assert InWord(starts, ws0, ln0, k, at[k]); }
      }
    }
    forall i | 0 <= i < |s| ensures Placed(starts, ws[..], ln[..], i) {
      assert InWord(starts, ws[..], ln[..], i, at[i]);
    }
  }
}
