/** Induced sorting (bwt89_sa.c:248-280, 371-385, 433-448), once for both stages.

    A stage is given by two orders as integer ranks: rl ranks the L suffixes and
    the LMS seeds, rs ranks all suffixes and so names every suffix's final slot.
    The passes are proved to put each suffix exactly at its slot whatever the
    orders are, as long as they satisfy the inducing laws below. */
module InducedSort {
  import opened LexOrder
  import opened SuffixTypes

  /** i belongs before j because of its first symbol, or of its type inside one bucket. */
  ghost predicate BucketLess(s: seq<int>, t: seq<SuffixType>, i: int, j: int)
    requires |t| == |s|
  {
    && 0 <= i < |s| && 0 <= j < |s|
    && (s[i] < s[j] || (s[i] == s[j] && t[i] == L && t[j] == S))
  }

  /** Suffixes i and j start alike and order as their successors do. */
  ghost predicate OrderStep(s: seq<int>, r: seq<int>, i: int, j: int)
    requires |r| == |s|
  {
    0 <= i < |s| - 1 && 0 <= j < |s| - 1 && s[i] == s[j] ==> (r[i] < r[j] <==> r[i + 1] < r[j + 1])
  }

  /** The inducing laws of the first pass. */
  ghost predicate FirstOrder(s: seq<int>, t: seq<SuffixType>, rl: seq<int>) {
    && |rl| == |t| == |s|
    && (forall i, j {:trigger BucketLess(s, t, i, j)} ::
          InFirstPass(t, i) && InFirstPass(t, j) && BucketLess(s, t, i, j) ==> rl[i] < rl[j])
    && (forall i, j {:trigger OrderStep(s, rl, i, j)} :: IsL(t, i) && IsL(t, j) ==> OrderStep(s, rl, i, j))
    && (forall i {:trigger IsL(t, i)} :: IsL(t, i) ==> rl[i + 1] < rl[i])
  }

  ghost predicate SymbolMonotone(s: seq<int>, t: seq<SuffixType>, rs: seq<int>) {
    && |rs| == |t| == |s|
    && Permutation(rs)
    && (forall i, j {:trigger BucketLess(s, t, i, j)} :: BucketLess(s, t, i, j) ==> rs[i] < rs[j])
  }

  /** The inducing laws of the second pass; rs is the final order. */
  ghost predicate FinalOrder(s: seq<int>, t: seq<SuffixType>, rs: seq<int>) {
    && SymbolMonotone(s, t, rs)
    && (forall i, j {:trigger OrderStep(s, rs, i, j)} :: IsS(t, i) && IsS(t, j) ==> OrderStep(s, rs, i, j))
    && (forall i {:trigger IsS(t, i)} :: IsS(t, i) ==> rs[i] < rs[i + 1])
  }

  // ---- buckets ----

  ghost function Smaller(s: seq<int>, c: int): (r: set<int>)
    ensures Within(r, |s|)
  {
    set j | 0 <= j < |s| && s[j] < c
  }

  /** Where the bucket of symbol c starts; Head(s, c + 1) is where it ends. */
  ghost function Head(s: seq<int>, c: int): (r: int) {
    |Smaller(s, c)|
  }

  lemma HeadMonotone(s: seq<int>, c: int, d: int)
    requires c <= d
    ensures Head(s, c) <= Head(s, d) <= |s|
  {
    SubsetSize(Smaller(s, c), Smaller(s, d));
    SubsetSize(Smaller(s, d), Interval(0, |s|));
    IntervalSize(0, |s|);
  }

  /** Every suffix's final slot lies in the bucket of its first symbol. */
  lemma SlotInBucket(s: seq<int>, t: seq<SuffixType>, rs: seq<int>, i: nat)
    requires SymbolMonotone(s, t, rs) && i < |s|
    ensures Head(s, s[i]) <= rs[i] < Head(s, s[i] + 1)
  {
    SlotAboveHead(s, t, rs, i);
    SlotBelowTail(s, t, rs, i);
  }

  lemma SlotAboveHead(s: seq<int>, t: seq<SuffixType>, rs: seq<int>, i: nat)
    requires SymbolMonotone(s, t, rs) && i < |s|
    ensures Head(s, s[i]) <= rs[i]
  {
    var before := Smaller(s, s[i]);
    ImageSize(rs, before);
    forall y | y in Image(rs, before) ensures y in Interval(0, rs[i]) {
      var j :| j in before && rs[j] == y;
      assert BucketLess(s, t, j, i);
    }
    SubsetSize(Image(rs, before), Interval(0, rs[i]));
    IntervalSize(0, rs[i]);
  }

  lemma SlotBelowTail(s: seq<int>, t: seq<SuffixType>, rs: seq<int>, i: nat)
    requires SymbolMonotone(s, t, rs) && i < |s|
    ensures rs[i] < Head(s, s[i] + 1)
  {
    var upTo := Smaller(s, s[i] + 1);
    ImageSize(rs, upTo);
    forall y | y in Interval(0, rs[i] + 1) ensures y in Image(rs, upTo) {
      PermutationHits(rs, y);
      var j :| 0 <= j < |rs| && rs[j] == y;
      LowSlotLowSymbol(s, t, rs, i, j);
    }
    SubsetSize(Interval(0, rs[i] + 1), Image(rs, upTo));
    IntervalSize(0, rs[i] + 1);
  }

  lemma LowSlotLowSymbol(s: seq<int>, t: seq<SuffixType>, rs: seq<int>, i: nat, j: nat)
    requires SymbolMonotone(s, t, rs) && i < |s| && j < |s| && rs[j] <= rs[i]
    ensures j in Smaller(s, s[i] + 1)
  {
    assert !BucketLess(s, t, i, j);
  }

  /** The converse: a slot inside the bucket of c belongs to a suffix starting with c. */
  lemma BucketOfSlot(s: seq<int>, t: seq<SuffixType>, rs: seq<int>, i: nat, c: int)
    requires SymbolMonotone(s, t, rs) && i < |s| && Head(s, c) <= rs[i] < Head(s, c + 1)
    ensures s[i] == c
  {
    SlotInBucket(s, t, rs, i);
    if s[i] < c { HeadMonotone(s, s[i] + 1, c); }
    if c < s[i] { HeadMonotone(s, c + 1, s[i]); }
  }

  // ---- first pass: L suffixes, left to right ----

  /** slot gives each first-pass suffix its place: its final slot if L, its seed slot if LMS. */
  ghost predicate SlotOrder(s: seq<int>, t: seq<SuffixType>, rs: seq<int>, slot: seq<int>) {
    && |slot| == |s|
    && SymbolMonotone(s, t, rs)
    && (forall i {:trigger IsL(t, i)} :: IsL(t, i) ==> slot[i] == rs[i] && slot[i + 1] < slot[i])
    && (forall i {:trigger InFirstPass(t, i)} :: InFirstPass(t, i) ==> 0 <= slot[i] < |s|)
    && (forall i, j {:trigger InFirstPass(t, i), InFirstPass(t, j)} ::
          InFirstPass(t, i) && InFirstPass(t, j) && i != j ==> slot[i] != slot[j])
    && (forall i, j {:trigger OrderStep(s, slot, i, j)} :: IsL(t, i) && IsL(t, j) ==> OrderStep(s, slot, i, j))
  }

  /** Slot y of sa is empty or holds the first-pass suffix that belongs there. */
  ghost predicate Settled(t: seq<SuffixType>, slot: seq<int>, sa: seq<int>, y: int)
    requires |slot| == |t| <= |sa|
  {
    0 <= y < |t| ==> sa[y] == -1 || (InFirstPass(t, sa[y]) && slot[sa[y]] == y)
  }

  /** The suffix p is in its slot. */
  ghost predicate Placed(slot: seq<int>, sa: seq<int>, p: int) {
    0 <= p < |slot| && 0 <= slot[p] < |sa| && sa[slot[p]] == p
  }

  /** sa holds the LMS seeds at their slots and is empty elsewhere. */
  ghost predicate Seeded(t: seq<SuffixType>, slot: seq<int>, sa: seq<int>) {
    && |slot| == |t| <= |sa|
    && (forall p {:trigger Placed(slot, sa, p)} :: IsLms(t, p) ==> Placed(slot, sa, p))
    && (forall y {:trigger Settled(t, slot, sa, y)} :: Settled(t, slot, sa, y))
  }

  /** State of the first pass before reading slot x: exactly the L suffixes whose
      successor sits below x are placed, and each bucket cursor counts them. */
  ghost predicate FirstPass(s: seq<int>, t: seq<SuffixType>, slot: seq<int>, sa: seq<int>, bkt: seq<int>, x: int) {
    && |s| == |t|
    && Seeded(t, slot, sa)
    && (forall i :: 0 <= i < |s| ==> 0 <= s[i] < |bkt|)
    && (forall q {:trigger IsL(t, q)} :: IsL(t, q) ==> Induced(s, slot, sa, bkt, x, q))
    && (forall c :: 0 <= c < |bkt| ==> Head(s, c) <= bkt[c])
  }

  ghost predicate Induced(s: seq<int>, slot: seq<int>, sa: seq<int>, bkt: seq<int>, x: int, q: int)
    requires |slot| == |s| && 0 <= q < |s| - 1 && 0 <= s[q] < |bkt|
  {
    && (slot[q + 1] < x ==> Placed(slot, sa, q))
    && (slot[q + 1] < x <==> slot[q] < bkt[s[q]])
  }

  /** The cursor of q's bucket points at q's final slot at the moment q is induced. */
  lemma FirstPassCursor(s: seq<int>, t: seq<SuffixType>, K: int, rs: seq<int>, slot: seq<int>,
                        sa: seq<int>, bkt: seq<int>, q: nat)
    requires ValidText(s, K) && IsTypes(s, t) && SlotOrder(s, t, rs, slot)
    requires IsL(t, q) && FirstPass(s, t, slot, sa, bkt, slot[q + 1])
    ensures 0 <= bkt[s[q]] == rs[q] < |s|
  {
    var b := bkt[s[q]];
    assert Induced(s, slot, sa, bkt, slot[q + 1], q);
    if b < rs[q] {
      PermutationHits(rs, b);
      var q' :| 0 <= q' < |rs| && rs[q'] == b;
      SlotInBucket(s, t, rs, q);
      BucketOfSlot(s, t, rs, q', s[q]);
      if !BucketLess(s, t, q, q') && IsL(t, q') && OrderStep(s, slot, q', q) { assert false; }
    }
  }

  /** Inducing q from slot x keeps the pass invariant. */
  lemma FirstPassPlace(s: seq<int>, t: seq<SuffixType>, K: int, rs: seq<int>, slot: seq<int>,
                       sa: seq<int>, bkt: seq<int>, q: nat)
    requires ValidText(s, K) && IsTypes(s, t) && SlotOrder(s, t, rs, slot)
    requires IsL(t, q) && FirstPass(s, t, slot, sa, bkt, slot[q + 1])
    ensures 0 <= bkt[s[q]] == rs[q] < |s|
    ensures FirstPass(s, t, slot, sa[bkt[s[q]] := q], bkt[s[q] := bkt[s[q]] + 1], slot[q + 1] + 1)
  {
    FirstPassCursor(s, t, K, rs, slot, sa, bkt, q);
    var x := slot[q + 1];
    var sa', bkt' := sa[rs[q] := q], bkt[s[q] := bkt[s[q]] + 1];
    forall p | IsLms(t, p) ensures Placed(slot, sa', p) {
      assert Placed(slot, sa, p) && InFirstPass(t, p) && InFirstPass(t, q);
    }
    forall y ensures Settled(t, slot, sa', y) {
      assert Settled(t, slot, sa, y) && InFirstPass(t, q);
    }
    forall q' | IsL(t, q') ensures Induced(s, slot, sa', bkt', x + 1, q') {
      assert Induced(s, slot, sa, bkt, x, q');
      AfterL(s, t, K, q);
      AfterL(s, t, K, q');
      assert InFirstPass(t, q + 1) && InFirstPass(t, q' + 1) && InFirstPass(t, q) && InFirstPass(t, q');
    }
  }

  /** Slot x holds nothing that induces an L suffix. */
  lemma FirstPassSkip(s: seq<int>, t: seq<SuffixType>, K: int, rs: seq<int>, slot: seq<int>,
                      sa: seq<int>, bkt: seq<int>, x: nat)
    requires ValidText(s, K) && IsTypes(s, t) && SlotOrder(s, t, rs, slot) && x < |s|
    requires FirstPass(s, t, slot, sa, bkt, x)
    requires sa[x] <= 0 || !IsL(t, sa[x] - 1)
    ensures FirstPass(s, t, slot, sa, bkt, x + 1)
  {
    forall q | IsL(t, q) ensures Induced(s, slot, sa, bkt, x + 1, q) {
      assert Induced(s, slot, sa, bkt, x, q);
      AfterL(s, t, K, q);
      if slot[q + 1] == x {
        if IsL(t, q + 1) || Placed(slot, sa, q + 1) { assert false; }
      }
    }
  }

  /** Seeding has put every LMS suffix in place; the cursors start at the bucket heads. */
  lemma FirstPassStart(s: seq<int>, t: seq<SuffixType>, K: int, rs: seq<int>, slot: seq<int>,
                       sa: seq<int>, bkt: seq<int>)
    requires ValidText(s, K) && IsTypes(s, t) && SlotOrder(s, t, rs, slot) && Seeded(t, slot, sa)
    requires |bkt| == K + 1 && forall c :: 0 <= c <= K ==> bkt[c] == Head(s, c)
    ensures FirstPass(s, t, slot, sa, bkt, 0)
  {
    forall q | IsL(t, q) ensures Induced(s, slot, sa, bkt, 0, q) {
      AfterL(s, t, K, q);
      SlotInBucket(s, t, rs, q);
    }
  }

  method PlaceHead(bkt: array<int>, sa: array<int>, sym: nat, val: int)
    requires bkt != sa && sym < bkt.Length && 0 <= bkt[sym] < sa.Length
    modifies bkt, sa
    ensures sa[..] == old(sa[..])[old(bkt[sym]) := val]
    ensures bkt[..] == old(bkt[..])[sym := old(bkt[sym]) + 1]
  {
    var j := bkt[sym];
    sa[j] := val;
    bkt[sym] := bkt[sym] + 1;
  }

  method PlaceTail(bkt: array<int>, sa: array<int>, sym: nat, val: int)
    requires bkt != sa && sym < bkt.Length && 0 < bkt[sym] <= sa.Length
    modifies bkt, sa
    ensures sa[..] == old(sa[..])[old(bkt[sym]) - 1 := val]
    ensures bkt[..] == old(bkt[..])[sym := old(bkt[sym]) - 1]
  {
    bkt[sym] := bkt[sym] - 1;
    var j := bkt[sym];
    sa[j] := val;
  }

  /** One left-to-right scan places every L suffix in its final slot (induced_L_step). */
  method InduceL(s: seq<int>, t: seq<SuffixType>, K: nat, sa: array<int>, bkt: array<int>,
                 ghost rs: seq<int>, ghost slot: seq<int>)
    requires ValidText(s, K) && IsTypes(s, t) && SlotOrder(s, t, rs, slot)
    requires sa != bkt && |s| <= sa.Length && Seeded(t, slot, sa[..])
    requires bkt.Length == K + 1 && forall c :: 0 <= c <= K ==> bkt[c] == Head(s, c)
    modifies sa, bkt
    ensures forall q :: IsL(t, q) || IsLms(t, q) ==> Placed(slot, sa[..], q)
    ensures sa[|s|..] == old(sa[|s|..])
  {
    FirstPassStart(s, t, K, rs, slot, sa[..], bkt[..]);
    for i := 0 to |s|
      invariant FirstPass(s, t, slot, sa[..], bkt[..], i)
      invariant sa[|s|..] == old(sa[|s|..])
    {
      ghost var saBefore, bktBefore := sa[..], bkt[..];
      var p := sa[i];
      assert Settled(t, slot, saBefore, i);
      if p > 0 && t[p - 1] == L {
        var prev := p - 1;
        FirstPassPlace(s, t, K, rs, slot, saBefore, bktBefore, prev);
        PlaceHead(bkt, sa, s[prev], prev);
        assert sa[|s|..] == saBefore[|s|..];
      } else {
        FirstPassSkip(s, t, K, rs, slot, saBefore, bktBefore, i);
      }
    }
    forall q | IsL(t, q) || IsLms(t, q) ensures Placed(slot, sa[..], q) {
      if IsL(t, q) {
        AfterL(s, t, K, q);
        assert Induced(s, slot, sa[..], bkt[..], |s|, q);
      }
    }
  }

  // ---- second pass: S suffixes, right to left ----

  /** State of the second pass before reading slot x (all slots above are read):
      L suffixes and the sentinel are in place, exactly the S suffixes whose
      successor sits above x are placed, and each bucket cursor counts them. */
  ghost predicate SecondPass(s: seq<int>, t: seq<SuffixType>, rs: seq<int>, sa: seq<int>, bkt: seq<int>, x: int) {
    && |rs| == |t| == |s| >= 1 && |s| <= |sa|
    && Placed(rs, sa, |s| - 1)
    && (forall i :: 0 <= i < |s| ==> 0 <= s[i] < |bkt|)
    && (forall q {:trigger IsL(t, q)} :: IsL(t, q) ==> Placed(rs, sa, q))
    && (forall q {:trigger IsS(t, q)} :: IsS(t, q) ==> InducedBack(s, rs, sa, bkt, x, q))
    && (forall c :: 0 <= c < |bkt| ==> bkt[c] <= Head(s, c + 1))
  }

  ghost predicate InducedBack(s: seq<int>, rs: seq<int>, sa: seq<int>, bkt: seq<int>, x: int, q: int)
    requires |rs| == |s| && 0 <= q < |s| - 1 && 0 <= s[q] < |bkt|
  {
    && (rs[q + 1] > x ==> Placed(rs, sa, q))
    && (rs[q + 1] > x <==> rs[q] >= bkt[s[q]])
  }

  /** When slot x is read it already holds its final suffix: nothing stale is ever read. */
  lemma SecondPassReads(s: seq<int>, t: seq<SuffixType>, rs: seq<int>, sa: seq<int>, bkt: seq<int>, x: nat)
    requires FinalOrder(s, t, rs) && x < |s| && SecondPass(s, t, rs, sa, bkt, x)
    ensures 0 <= sa[x] < |s| && rs[sa[x]] == x
  {
    PermutationHits(rs, x);
    var p :| 0 <= p < |rs| && rs[p] == x;
    assert p == |s| - 1 || IsL(t, p) || IsS(t, p);
    assert Placed(rs, sa, p);
  }

  lemma SecondPassCursor(s: seq<int>, t: seq<SuffixType>, K: int, rs: seq<int>,
                         sa: seq<int>, bkt: seq<int>, q: nat)
    requires ValidText(s, K) && IsTypes(s, t) && FinalOrder(s, t, rs)
    requires IsS(t, q) && SecondPass(s, t, rs, sa, bkt, rs[q + 1])
    ensures 0 <= bkt[s[q]] - 1 == rs[q] < |s|
  {
    var b := bkt[s[q]] - 1;
    assert InducedBack(s, rs, sa, bkt, rs[q + 1], q);
    HeadMonotone(s, s[q] + 1, s[q] + 1);
    if rs[q] < b {
      PermutationHits(rs, b);
      var q' :| 0 <= q' < |rs| && rs[q'] == b;
      SlotInBucket(s, t, rs, q);
      BucketOfSlot(s, t, rs, q', s[q]);
      if !BucketLess(s, t, q', q) && IsS(t, q') && OrderStep(s, rs, q, q') { assert false; }
    }
  }

  lemma SecondPassPlace(s: seq<int>, t: seq<SuffixType>, K: int, rs: seq<int>,
                        sa: seq<int>, bkt: seq<int>, q: nat)
    requires ValidText(s, K) && IsTypes(s, t) && FinalOrder(s, t, rs)
    requires IsS(t, q) && SecondPass(s, t, rs, sa, bkt, rs[q + 1])
    ensures 0 <= bkt[s[q]] - 1 == rs[q] < |s|
    ensures SecondPass(s, t, rs, sa[bkt[s[q]] - 1 := q], bkt[s[q] := bkt[s[q]] - 1], rs[q + 1] - 1)
  {
    SecondPassCursor(s, t, K, rs, sa, bkt, q);
    var x := rs[q + 1];
    var sa', bkt' := sa[rs[q] := q], bkt[s[q] := bkt[s[q]] - 1];
    forall q' | IsL(t, q') ensures Placed(rs, sa', q') {
      assert Placed(rs, sa, q');
    }
    forall q' | IsS(t, q') ensures InducedBack(s, rs, sa', bkt', x - 1, q') {
      assert InducedBack(s, rs, sa, bkt, x, q');
    }
  }

  lemma SecondPassSkip(s: seq<int>, t: seq<SuffixType>, rs: seq<int>, sa: seq<int>, bkt: seq<int>, p: nat)
    requires FinalOrder(s, t, rs) && p < |s| && SecondPass(s, t, rs, sa, bkt, rs[p])
    requires p == 0 || !IsS(t, p - 1)
    ensures SecondPass(s, t, rs, sa, bkt, rs[p] - 1)
  {
    forall q | IsS(t, q) ensures InducedBack(s, rs, sa, bkt, rs[p] - 1, q) {
      assert InducedBack(s, rs, sa, bkt, rs[p], q);
    }
  }

  lemma SecondPassStart(s: seq<int>, t: seq<SuffixType>, K: int, rs: seq<int>, slot: seq<int>,
                        sa: seq<int>, bkt: seq<int>)
    requires ValidText(s, K) && IsTypes(s, t) && FinalOrder(s, t, rs) && |slot| == |s| <= |sa|
    requires forall q {:trigger IsL(t, q)} :: IsL(t, q) ==> slot[q] == rs[q] && Placed(slot, sa, q)
    requires slot[|s| - 1] == rs[|s| - 1] && Placed(slot, sa, |s| - 1)
    requires |bkt| == K + 1 && forall c :: 0 <= c <= K ==> bkt[c] == Head(s, c + 1)
    ensures SecondPass(s, t, rs, sa, bkt, |s| - 1)
  {
    forall q | IsS(t, q) ensures InducedBack(s, rs, sa, bkt, |s| - 1, q) {
      SlotInBucket(s, t, rs, q);
    }
  }

  lemma SecondPassDone(s: seq<int>, t: seq<SuffixType>, rs: seq<int>, sa: seq<int>, bkt: seq<int>)
    requires FinalOrder(s, t, rs) && SecondPass(s, t, rs, sa, bkt, -1)
    ensures forall p :: 0 <= p < |s| ==> 0 <= rs[p] < |s| && sa[rs[p]] == p
  {
    forall p | 0 <= p < |s| ensures sa[rs[p]] == p {
      assert p == |s| - 1 || IsL(t, p) || IsS(t, p);
      assert Placed(rs, sa, p);
    }
  }

  /** One right-to-left scan completes the order: every suffix ends in its slot (induced_S_step). */
  method InduceS(s: seq<int>, t: seq<SuffixType>, K: nat, sa: array<int>, bkt: array<int>,
                 ghost rs: seq<int>, ghost slot: seq<int>)
    requires ValidText(s, K) && IsTypes(s, t) && FinalOrder(s, t, rs)
    requires sa != bkt && |slot| == |s| <= sa.Length
    requires forall q {:trigger IsL(t, q)} :: IsL(t, q) ==> slot[q] == rs[q] && Placed(slot, sa[..], q)
    requires slot[|s| - 1] == rs[|s| - 1] && Placed(slot, sa[..], |s| - 1)
    requires bkt.Length == K + 1 && forall c :: 0 <= c <= K ==> bkt[c] == Head(s, c + 1)
    modifies sa, bkt
    ensures forall p :: 0 <= p < |s| ==> 0 <= rs[p] < |s| && sa[rs[p]] == p
    ensures sa[|s|..] == old(sa[|s|..])
  {
    SecondPassStart(s, t, K, rs, slot, sa[..], bkt[..]);
    var i := |s| - 1;
    while i >= 0
      invariant -1 <= i < |s|
      invariant SecondPass(s, t, rs, sa[..], bkt[..], i)
      invariant sa[|s|..] == old(sa[|s|..])
    {
      ghost var saBefore, bktBefore := sa[..], bkt[..];
      SecondPassReads(s, t, rs, saBefore, bktBefore, i);
      var p := sa[i];
      if p > 0 && t[p - 1] == S {
        var prev := p - 1;
        SecondPassPlace(s, t, K, rs, saBefore, bktBefore, prev);
        PlaceTail(bkt, sa, s[prev], prev);
        assert sa[|s|..] == saBefore[|s|..];
      } else {
        SecondPassSkip(s, t, rs, saBefore, bktBefore, p);
      }
      i := i - 1;
    }
    SecondPassDone(s, t, rs, sa[..], bkt[..]);
  }
}
