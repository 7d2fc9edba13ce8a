/** Suffix array construction by induced sorting (bwt89_sa.c:324-459). */
module SaIs {
  import opened LexOrder
  import opened SuffixTypes
  import opened InducedSort
  import opened Seeding
  import opened StageOrders
  import opened LmsNaming

  // ---- lists of LMS positions ----

  ghost predicate HasAllLms(t: seq<SuffixType>, ls: seq<int>) {
    && (forall k :: 0 <= k < |ls| ==> IsLms(t, ls[k]))
    && (forall p {:trigger Has(ls, p)} :: IsLms(t, p) ==> Has(ls, p))
  }

  ghost predicate Has(ls: seq<int>, p: int) {
    p in ls
  }

  /** The LMS positions in text order. */
  ghost predicate LmsPositions(t: seq<SuffixType>, ls: seq<int>) {
    && HasAllLms(t, ls)
    && (forall k, l :: 0 <= k < l < |ls| ==> ls[k] < ls[l])
  }

  ghost function Members(ls: seq<int>): set<int> {
    set k | 0 <= k < |ls| :: ls[k]
  }

  lemma DistinctSize(ls: seq<int>)
    requires Injective(ls)
    ensures |Members(ls)| == |ls|
  {
    assert Members(ls) == Image(ls, Interval(0, |ls|));
    ImageSize(ls, Interval(0, |ls|));
    IntervalSize(0, |ls|);
  }

  lemma LmsListSize(t: seq<SuffixType>, ls: seq<int>)
    requires HasAllLms(t, ls) && Injective(ls)
    ensures |ls| == |AllLms(t)|
  {
    DistinctSize(ls);
    forall p | p in AllLms(t) ensures p in Members(ls) {
      assert Has(ls, p);
    }
    assert Members(ls) == AllLms(t);
  }

  ghost function Identity(n: nat): (r: seq<int>)
    ensures |r| == n && (forall i :: 0 <= i < n ==> r[i] == i) && Permutation(r)
  {
    seq(n, i => i)
  }

  /** got lists, in the order of key, exactly the LMS positions whose key is below i. */
  ghost predicate Listed(t: seq<SuffixType>, key: seq<int>, got: seq<int>, i: int) {
    && |key| == |t|
    && |got| <= i
    && (forall k {:trigger ListedAt(t, key, got, i, k)} :: 0 <= k < |got| ==> ListedAt(t, key, got, i, k))
    && (forall k, l {:trigger InOrder(t, key, got, k, l)} :: 0 <= k < l < |got| ==> InOrder(t, key, got, k, l))
    && (forall p {:trigger Has(got, p)} :: IsLms(t, p) && key[p] < i ==> Has(got, p))
  }

  ghost predicate ListedAt(t: seq<SuffixType>, key: seq<int>, got: seq<int>, i: int, k: int) {
    |key| == |t| && 0 <= k < |got| && IsLms(t, got[k]) && key[got[k]] < i
  }

  ghost predicate InOrder(t: seq<SuffixType>, key: seq<int>, got: seq<int>, k: int, l: int) {
    && |key| == |t| && 0 <= k < |got| && 0 <= l < |got|
    && IsLms(t, got[k]) && IsLms(t, got[l]) && key[got[k]] < key[got[l]]
  }

  lemma ListedStep(t: seq<SuffixType>, key: seq<int>, got: seq<int>, i: nat, p: int, next: seq<int>)
    requires Listed(t, key, got, i) && Permutation(key) && 0 <= p < |t| && key[p] == i
    requires next == if IsLms(t, p) then got + [p] else got
    ensures Listed(t, key, next, i + 1)
  {
    var i' := i + 1;
    forall k | 0 <= k < |next| ensures ListedAt(t, key, next, i', k) {
      if k < |got| { assert ListedAt(t, key, got, i, k); }
    }
    forall k, l | 0 <= k < l < |next| ensures InOrder(t, key, next, k, l) {
      assert ListedAt(t, key, got, i, k);
      if l < |got| { assert InOrder(t, key, got, k, l); }
    }
    forall q | IsLms(t, q) && key[q] < i + 1 ensures Has(next, q) {
      if q == p {
        assert next[|got|] == p;
      } else {
        assert Has(got, q);
      }
    }
  }

  lemma ListedAll(t: seq<SuffixType>, key: seq<int>, got: seq<int>)
    requires Listed(t, key, got, |t|) && Permutation(key)
    ensures HasAllLms(t, got)
    ensures forall k, l :: 0 <= k < l < |got| ==> key[got[k]] < key[got[l]]
  {
    forall k | 0 <= k < |got| ensures IsLms(t, got[k]) {
      assert ListedAt(t, key, got, |t|, k);
    }
    forall k, l | 0 <= k < l < |got| ensures key[got[k]] < key[got[l]] {
      assert InOrder(t, key, got, k, l);
    }
  }

  /** place_lms over the whole text. */
  method CollectLms(t: seq<SuffixType>, ls: array<int>) returns (m: nat)
    requires |t| <= ls.Length
    modifies ls
    ensures m <= |t| && LmsPositions(t, ls[..m])
  {
    m := 0;
    ghost var got, key := [], Identity(|t|);
    for i := 0 to |t|
      invariant m <= i && ls[..m] == got && Listed(t, key, got, i)
    {
      ListedStep(t, key, got, i, i, if IsLms(t, i) then got + [i] else got);
      if IsLms(t, i) {
        ls[m] := i;
        m := m + 1;
        got := got + [i];
      }
    }
    ListedAll(t, key, got);
  }

  lemma ReadBack(rs: seq<int>, sa: seq<int>, x: nat)
    requires Permutation(rs) && x < |rs| <= |sa| && forall p :: 0 <= p < |rs| ==> sa[rs[p]] == p
    ensures 0 <= sa[x] < |rs| && rs[sa[x]] == x
  {
    PermutationHits(rs, x);
  }

  /** append_sorted: the LMS positions in the order of a fully induced array. */
  method AppendSorted(t: seq<SuffixType>, sa: array<int>, ls: array<int>, ghost rs: seq<int>) returns (m: nat)
    requires |rs| == |t| <= ls.Length && |t| <= sa.Length && sa != ls && Permutation(rs)
    requires forall p :: 0 <= p < |t| ==> sa[rs[p]] == p
    modifies ls
    ensures m <= |t| && HasAllLms(t, ls[..m])
    ensures forall k, l :: 0 <= k < l < m ==> rs[ls[k]] < rs[ls[l]]
  {
    m := 0;
    ghost var got := [];
    for i := 0 to |t|
      invariant m <= i && ls[..m] == got && Listed(t, rs, got, i)
    {
      var j := sa[i];
      ReadBack(rs, sa[..], i);
      ListedStep(t, rs, got, i, j, if IsLms(t, j) then got + [j] else got);
      if j >= 0 && IsLms(t, j) {
        ls[m] := j;
        m := m + 1;
        got := got + [j];
      }
    }
    ListedAll(t, rs, got);
  }

  // ---- the reduced string ----

  /** s1 spells the names of the LMS positions in text order; at[r] locates lms[r] in the sorted list. */
  ghost predicate Reduced(s: seq<int>, t: seq<SuffixType>, K: int, ls: seq<int>, nm: seq<int>,
                          lms: seq<int>, s1: seq<int>, at: seq<int>) {
    && ValidText(s, K) && IsTypes(s, t)
    && SortedLms(s, t, ls) && Naming(s, t, ls, nm)
    && LmsPositions(t, lms)
    && |at| == |s1| == |lms| == |ls|
    && (forall r :: 0 <= r < |lms| ==> 0 <= at[r] < |ls| && ls[at[r]] == lms[r] && s1[r] == nm[at[r]])
  }

  lemma NextInList(t: seq<SuffixType>, lms: seq<int>, r: nat, e: int)
    requires LmsPositions(t, lms) && r < |lms| - 1 && IsLms(t, e) && lms[r] < e
    ensures lms[r + 1] <= e
  {
    assert Has(lms, e);
    var k :| 0 <= k < |lms| && lms[k] == e;
  }

  lemma LmsSuccessor(t: seq<SuffixType>, lms: seq<int>, r: nat)
    requires LmsPositions(t, lms) && r < |lms| - 1
    ensures NextLms(t, lms[r]) == lms[r + 1]
  {
    assert IsLms(t, lms[r + 1]);
    NextInList(t, lms, r, NextLms(t, lms[r]));
  }

  lemma LastLms(t: seq<SuffixType>, lms: seq<int>)
    requires LmsPositions(t, lms) && |t| >= 1 && t[|t| - 1] == S
    ensures |lms| >= 1 && lms[|lms| - 1] == |t| - 1
  {
    assert Has(lms, |t| - 1);
    var k :| 0 <= k < |lms| && lms[k] == |t| - 1;
    assert IsLms(t, lms[|lms| - 1]);
  }

  /** The sorted list starts with the sentinel. */
  lemma SentinelHead(s: seq<int>, t: seq<SuffixType>, K: int, ls: seq<int>)
    requires ValidText(s, K) && IsTypes(s, t) && SortedLms(s, t, ls) && HasAllLms(t, ls)
    ensures |ls| >= 1 && ls[0] == |s| - 1
  {
    assert Has(ls, |s| - 1);
    var k :| 0 <= k < |ls| && ls[k] == |s| - 1;
    if k > 0 { SentinelFirst(s, t, K, ls[0], ls[k]); }
  }

  /** The sentinel's name is 0 and no one else's. */
  lemma SentinelName(s: seq<int>, t: seq<SuffixType>, K: int, ls: seq<int>, nm: seq<int>, k: nat)
    requires ValidText(s, K) && IsTypes(s, t) && SortedLms(s, t, ls) && HasAllLms(t, ls) && Naming(s, t, ls, nm)
    requires 0 < k < |ls|
    ensures nm[k] > 0
  {
    SentinelHead(s, t, K, ls);
    assert NameStep(s, t, ls, nm, 1);
    assert Body(s, t, ls[0])[0] == 0;
    SentinelFirst(s, t, K, ls[0], ls[1]);
    assert Body(s, t, ls[1])[0] == s[ls[1]] > 0;
    NamesGrow(s, t, ls, nm, 1, k);
  }

  /** The reduced string is again a valid input, over the alphabet of names. */
  lemma ReducedIsText(s: seq<int>, t: seq<SuffixType>, K: int, ls: seq<int>, nm: seq<int>,
                      lms: seq<int>, s1: seq<int>, at: seq<int>)
    requires Reduced(s, t, K, ls, nm, lms, s1, at) && HasAllLms(t, ls)
    ensures ValidText(s1, nm[|nm| - 1])
  {
    var m := |lms|;
    LastLms(t, lms);
    SentinelHead(s, t, K, ls);
    assert at[m - 1] == 0 by {
      if at[m - 1] > 0 { SentinelFirst(s, t, K, ls[0], ls[at[m - 1]]); }
    }
    forall r | 0 <= r < m ensures 0 <= s1[r] <= nm[|nm| - 1] {
      NamesGrow(s, t, ls, nm, 0, at[r]);
      NamesGrow(s, t, ls, nm, at[r], |nm| - 1);
    }
    forall r | 0 <= r < m - 1 ensures 0 < s1[r] {
      assert ls[at[r]] == lms[r] < lms[m - 1];
      SentinelName(s, t, K, ls, nm, at[r]);
    }
  }

  lemma EqualNamesEqualBodies(s: seq<int>, t: seq<SuffixType>, ls: seq<int>, nm: seq<int>, k: nat, l: nat)
    requires Naming(s, t, ls, nm) && k < |ls| && l < |ls| && nm[k] == nm[l]
    ensures Body(s, t, ls[k]) == Body(s, t, ls[l])
  {
    if k <= l { NamesGrow(s, t, ls, nm, k, l); } else { NamesGrow(s, t, ls, nm, l, k); }
  }

  /** Order in the reduced string is order in the text. */
  lemma {:induction false} ReducedOrder(s: seq<int>, t: seq<SuffixType>, K: int, ls: seq<int>, nm: seq<int>,
                     lms: seq<int>, s1: seq<int>, at: seq<int>, p: nat, q: nat)
    requires Reduced(s, t, K, ls, nm, lms, s1, at) && ValidText(s1, nm[|nm| - 1])
    requires p < |s1| && q < |s1| && LexLess(s1[p..], s1[q..])
    ensures LexLess(s[lms[p]..], s[lms[q]..])
    decreases |s1| - p
  {
    SuffixCons(s1, p, q);
    if s1[p] < s1[q] {
      NameOrder(s, t, K, ls, nm, at[p], at[q]);
    } else {
      NotLast(s1, nm[|nm| - 1], p, q);
      ReducedOrder(s, t, K, ls, nm, lms, s1, at, p + 1, q + 1);
      ReducedStep(s, t, ls, nm, lms, p, at[p], q, at[q]);
    }
  }

  lemma NotLast(s1: seq<int>, K: int, p: nat, q: nat)
    requires ValidText(s1, K) && p < |s1| && q < |s1| && s1[p] == s1[q] && LexLess(s1[p..], s1[q..])
    ensures p < |s1| - 1 && q < |s1| - 1
  {
    LexIrreflexive(s1[p..]);
  }

  /** Equal names: the order is decided at the next LMS positions. */
  lemma ReducedStep(s: seq<int>, t: seq<SuffixType>, ls: seq<int>, nm: seq<int>, lms: seq<int>, p: nat, k: nat, q: nat, l: nat)
    requires |t| == |s| && Naming(s, t, ls, nm) && LmsPositions(t, lms)
    requires p < |lms| - 1 && q < |lms| - 1 && k < |ls| && l < |ls|
    requires ls[k] == lms[p] && ls[l] == lms[q] && nm[k] == nm[l]
    ensures LexLess(s[lms[p]..], s[lms[q]..]) <==> LexLess(s[lms[p + 1]..], s[lms[q + 1]..])
  {
    EqualNamesEqualBodies(s, t, ls, nm, k, l);
    LmsSuccessor(t, lms, p);
    LmsSuccessor(t, lms, q);
    assert |Body(s, t, lms[p])| == |Body(s, t, lms[q])|;
    SuffixSkip(s, lms[p], lms[q], lms[p + 1] - lms[p]);
  }

  // ---- the stages ----

  method FillNeg(a: array<int>, len: nat)
    requires len <= a.Length
    modifies a
    ensures forall k :: 0 <= k < len ==> a[k] == -1
    ensures a[len..] == old(a[len..])
  {
    for i := 0 to len
      invariant forall k :: 0 <= k < i ==> a[k] == -1
      invariant a[len..] == old(a[len..])
    {
      a[i] := -1;
    }
  }

  /** seed_one: LMS positions into their bucket ends, from the end of the text. */
  method SeedInTextOrder(s: seq<int>, t: seq<SuffixType>, K: nat, sa: array<int>, bkt: array<int>) returns (ghost slot: seq<int>)
    requires ValidText(s, K) && IsTypes(s, t) && sa != bkt && |s| <= sa.Length && bkt.Length == K + 1
    requires forall y :: 0 <= y < |s| ==> sa[y] == -1
    requires forall c :: 0 <= c <= K ==> bkt[c] == Head(s, c + 1)
    modifies sa, bkt
    ensures SeedingState(s, t, RanksL(s, t), slot, sa[..], bkt[..], AllLms(t))
    ensures sa[|s|..] == old(sa[|s|..])
  {
    ghost var rl := RanksL(s, t);
    slot := seq(|s|, _ => 0);
    SeedingStart(s, t, rl, slot, sa[..], bkt[..]);
    var i := |s| - 1;
    assert LmsAfter(t, i) == {};
    while i >= 0
      invariant -1 <= i < |s|
      invariant SeedingState(s, t, rl, slot, sa[..], bkt[..], LmsAfter(t, i))
      invariant sa[|s|..] == old(sa[|s|..])
    {
      if IsLms(t, i) {
        ghost var saBefore, bktBefore := sa[..], bkt[..];
        TextSeedStep(s, t, slot, saBefore, bktBefore, i);
        PlaceTail(bkt, sa, s[i], i);
        assert sa[|s|..] == saBefore[|s|..];
        slot := slot[i := bktBefore[s[i]] - 1];
      } else {
        assert LmsAfter(t, i - 1) == LmsAfter(t, i);
      }
      i := i - 1;
    }
    assert LmsAfter(t, -1) == AllLms(t);
  }

  ghost function LmsAfter(t: seq<SuffixType>, i: int): set<int> {
    set p | 0 <= p < |t| && i < p && IsLms(t, p)
  }

  lemma TextSeedStep(s: seq<int>, t: seq<SuffixType>, slot: seq<int>, sa: seq<int>, bkt: seq<int>, i: nat)
    requires |t| == |s| && IsLms(t, i)
    requires SeedingState(s, t, RanksL(s, t), slot, sa, bkt, LmsAfter(t, i))
    ensures Head(s, s[i]) <= bkt[s[i]] - 1 < Head(s, s[i] + 1) <= |s|
    ensures SeedingState(s, t, RanksL(s, t), slot[i := bkt[s[i]] - 1], sa[bkt[s[i]] - 1 := i],
                         bkt[s[i] := bkt[s[i]] - 1], LmsAfter(t, i - 1))
  {
    var done := LmsAfter(t, i);
    forall q | q in done && s[q] == s[i] ensures RanksL(s, t)[i] < RanksL(s, t)[q] { LaterSeedLater(s, t, i, q); }
    SeedingStep(s, t, RanksL(s, t), slot, sa, bkt, done, i);
    assert LmsAfter(t, i - 1) == done + {i};
  }

  lemma LaterSeedLater(s: seq<int>, t: seq<SuffixType>, p: nat, q: nat)
    requires |t| == |s| && p < q < |s| && IsLms(t, p) && IsLms(t, q) && s[p] == s[q]
    ensures RanksL(s, t)[p] < RanksL(s, t)[q]
  {
    assert LexLess([p], [q]);
    LexCons(Enc(s, t, p), [p], Enc(s, t, q), [q]);
    assert KeyL(s, t, p) == [Enc(s, t, p)] + [p] && KeyL(s, t, q) == [Enc(s, t, q)] + [q];
    RanksLOrder(s, t, p, q);
  }

  /** order lists each LMS position exactly once, smallest suffix first. */
  ghost predicate LmsOrder(s: seq<int>, t: seq<SuffixType>, order: seq<int>) {
    && |t| == |s|
    && HasAllLms(t, order)
    && (forall x, y {:trigger Ascends(s, order, x, y)} :: 0 <= x < y < |order| ==> Ascends(s, order, x, y))
  }

  ghost predicate Ascends(s: seq<int>, order: seq<int>, x: int, y: int) {
    && 0 <= x < |order| && 0 <= y < |order|
    && 0 <= order[x] < |s| && 0 <= order[y] < |s|
    && SuffixRanks(s)[order[x]] < SuffixRanks(s)[order[y]]
  }

  ghost function Compose(ls: seq<int>, sa1: seq<int>): (r: seq<int>)
    requires forall x :: 0 <= x < |sa1| ==> 0 <= sa1[x] < |ls|
    ensures |r| == |sa1| && forall x :: 0 <= x < |sa1| ==> r[x] == ls[sa1[x]]
  {
    seq(|sa1|, x requires 0 <= x < |sa1| => ls[sa1[x]])
  }

  ghost function From(order: seq<int>, k: nat): set<int> {
    set x | k <= x < |order| :: order[x]
  }

  lemma FromStep(s: seq<int>, t: seq<SuffixType>, order: seq<int>, k: nat)
    requires LmsOrder(s, t, order) && k < |order|
    ensures From(order, k) == From(order, k + 1) + {order[k]}
    ensures IsLms(t, order[k]) && order[k] !in From(order, k + 1)
    ensures forall q :: q in From(order, k + 1) ==> SuffixRanks(s)[order[k]] < SuffixRanks(s)[q]
  {
    forall q | q in From(order, k + 1) ensures SuffixRanks(s)[order[k]] < SuffixRanks(s)[q] {
      var x :| k + 1 <= x < |order| && order[x] == q;
      assert Ascends(s, order, k, x);
    }
    forall x | k + 1 <= x < |order| ensures order[x] != order[k] {
      assert Ascends(s, order, k, x);
    }
  }

  lemma FromAll(t: seq<SuffixType>, order: seq<int>)
    requires HasAllLms(t, order)
    ensures From(order, 0) == AllLms(t)
  {
    forall p | p in AllLms(t) ensures p in From(order, 0) {
      assert Has(order, p);
      var x :| 0 <= x < |order| && order[x] == p;
    }
  }

  /** final_seed_one: LMS positions into their bucket ends, largest suffix first. */
  method SeedInRankOrder(s: seq<int>, t: seq<SuffixType>, K: nat, sa: array<int>, bkt: array<int>,
                         ls: seq<int>, sa1: seq<int>) returns (ghost slot: seq<int>)
    requires ValidText(s, K) && IsTypes(s, t) && sa != bkt && |s| <= sa.Length && bkt.Length == K + 1
    requires forall y :: 0 <= y < |s| ==> sa[y] == -1
    requires forall c :: 0 <= c <= K ==> bkt[c] == Head(s, c + 1)
    requires forall x :: 0 <= x < |sa1| ==> 0 <= sa1[x] < |ls|
    requires LmsOrder(s, t, Compose(ls, sa1))
    modifies sa, bkt
    ensures SeedingState(s, t, SuffixRanks(s), slot, sa[..], bkt[..], AllLms(t))
    ensures sa[|s|..] == old(sa[|s|..])
  {
    ghost var order := Compose(ls, sa1);
    slot := seq(|s|, _ => 0);
    SeedingStart(s, t, SuffixRanks(s), slot, sa[..], bkt[..]);
    var rank := |sa1| - 1;
    assert From(order, |sa1|) == {};
    while rank >= 0
      invariant -1 <= rank < |sa1|
      invariant SeedingState(s, t, SuffixRanks(s), slot, sa[..], bkt[..], From(order, rank + 1))
      invariant sa[|s|..] == old(sa[|s|..])
    {
      var i := ls[sa1[rank]];
      ghost var saBefore, bktBefore := sa[..], bkt[..];
      RankSeedStep(s, t, slot, saBefore, bktBefore, order, rank, i);
      PlaceTail(bkt, sa, s[i], i);
      assert sa[|s|..] == saBefore[|s|..];
      slot := slot[i := bktBefore[s[i]] - 1];
      rank := rank - 1;
    }
    FromAll(t, order);
  }

  lemma RankSeedStep(s: seq<int>, t: seq<SuffixType>, slot: seq<int>, sa: seq<int>, bkt: seq<int>, order: seq<int>, k: nat, i: int)
    requires LmsOrder(s, t, order) && k < |order| && i == order[k]
    requires SeedingState(s, t, SuffixRanks(s), slot, sa, bkt, From(order, k + 1))
    ensures IsLms(t, i)
    ensures Head(s, s[i]) <= bkt[s[i]] - 1 < Head(s, s[i] + 1) <= |s|
    ensures SeedingState(s, t, SuffixRanks(s), slot[i := bkt[s[i]] - 1], sa[bkt[s[i]] - 1 := i],
                         bkt[s[i] := bkt[s[i]] - 1], From(order, k))
  {
    FromStep(s, t, order, k);
    var done := From(order, k + 1);
    SeedingStep(s, t, SuffixRanks(s), slot, sa, bkt, done, i);
    assert From(order, k) == done + {i};
  }

  /** Heads, left-to-right pass, tails, right-to-left pass: the array becomes the order rs. */
  method InduceAll(s: seq<int>, t: seq<SuffixType>, K: nat, sa: array<int>, cnt: array<int>, bkt: array<int>,
                   ghost rl: seq<int>, ghost rs: seq<int>, ghost slot: seq<int>)
    requires Orders(s, t, K, rl, rs) && sa != bkt && sa != cnt && cnt != bkt && |s| <= sa.Length
    requires cnt.Length == bkt.Length == K + 1
    requires forall c :: 0 <= c <= K ==> cnt[c] == Head(s, c + 1) - Head(s, c)
    requires SeedingState(s, t, rl, slot, sa[..], bkt[..], AllLms(t))
    modifies sa, bkt
    ensures forall p :: 0 <= p < |s| ==> 0 <= rs[p] < |s| && sa[rs[p]] == p
    ensures sa[|s|..] == old(sa[|s|..])
  {
    ghost var first := FirstSlots(t, rs, slot);
    SeedingFinished(s, t, K, rl, rs, slot, sa[..], bkt[..]);
    MakeHeads(cnt, K, bkt, s);
    InduceL(s, t, K, sa, bkt, rs, first);
    assert IsLms(t, |s| - 1);
    MakeTails(cnt, K, bkt, s);
    InduceS(s, t, K, sa, bkt, rs, first);
  }

  // ---- naming and recursion ----

  /** name_one along the sorted list; names are left in sa at the LMS positions. */
  method NameLms(s: seq<int>, t: seq<SuffixType>, sa: array<int>, ls: seq<int>) returns (num: int, ghost nm: seq<int>)
    requires |t| == |s| <= sa.Length && |ls| >= 1 && Injective(ls)
    requires forall k :: 0 <= k < |ls| ==> IsLms(t, ls[k])
    modifies sa
    ensures Naming(s, t, ls, nm) && num == nm[|ls| - 1]
    ensures forall k :: 0 <= k < |ls| ==> sa[ls[k]] == nm[k]
    ensures sa[|s|..] == old(sa[|s|..])
  {
    FillNeg(sa, |s|);
    num := 0;
    sa[ls[0]] := 0;
    nm := [0];
    for i := 1 to |ls|
      invariant Naming(s, t, ls[..i], nm) && num == nm[i - 1]
      invariant forall k :: 0 <= k < i ==> sa[ls[k]] == nm[k]
      invariant sa[|s|..] == old(sa[|s|..])
    {
      var same := LmsEqual(s, t, ls[i - 1], ls[i]);
      var next := if same then num else num + 1;
      NamingExtend(s, t, ls[..i], nm, ls[i], next);
      assert ls[..i + 1] == ls[..i] + [ls[i]];
      sa[ls[i]] := next;
      num := next;
      nm := nm + [next];
    }
    assert ls[..|ls|] == ls;
  }

  lemma NamingExtend(s: seq<int>, t: seq<SuffixType>, ls: seq<int>, nm: seq<int>, b: int, next: int)
    requires Naming(s, t, ls, nm) && IsLms(t, b)
    requires next == nm[|nm| - 1] + if Body(s, t, ls[|ls| - 1]) == Body(s, t, b) then 0 else 1
    ensures Naming(s, t, ls + [b], nm + [next])
  {
    forall k | 0 < k < |ls + [b]| ensures NameStep(s, t, ls + [b], nm + [next], k) {
      if k < |ls| { assert NameStep(s, t, ls, nm, k); }
    }
  }

  /** build_s1: the names in text order. */
  method BuildReduced(t: seq<SuffixType>, sa: array<int>, s1: array<int>) returns (m: nat, ghost lms: seq<int>)
    requires |t| <= sa.Length && |t| <= s1.Length && sa != s1
    modifies s1
    ensures m == |lms| <= |t| && LmsPositions(t, lms)
    ensures forall r :: 0 <= r < m ==> s1[r] == sa[lms[r]]
  {
    m := 0;
    lms := [];
    ghost var key := Identity(|t|);
    for i := 0 to |t|
      invariant m == |lms| <= i && Listed(t, key, lms, i)
      invariant forall r :: 0 <= r < m ==> 0 <= lms[r] < |t|
      invariant forall r :: 0 <= r < m ==> s1[r] == sa[lms[r]]
    {
      ListedStep(t, key, lms, i, i, if IsLms(t, i) then lms + [i] else lms);
      if IsLms(t, i) {
        s1[m] := sa[i];
        m := m + 1;
        lms := lms + [i];
      }
    }
    ListedAll(t, key, lms);
  }

  /** Where each LMS position of the text sits in the sorted list. */
  lemma LocateLms(t: seq<SuffixType>, ls: seq<int>, lms: seq<int>) returns (at: seq<int>)
    requires HasAllLms(t, ls) && LmsPositions(t, lms)
    ensures |at| == |lms| && forall r :: 0 <= r < |lms| ==> 0 <= at[r] < |ls| && ls[at[r]] == lms[r]
  {
    forall r | 0 <= r < |lms| ensures lms[r] in ls {
      assert Has(ls, lms[r]);
    }
    at := seq(|lms|, r requires 0 <= r < |lms| && lms[r] in ls => (var k :| 0 <= k < |ls| && ls[k] == lms[r]; k));
  }

  /** As many names as LMS positions: the sorted list is already the suffix order. */
  lemma AllDistinct(s: seq<int>, t: seq<SuffixType>, K: int, ls: seq<int>, nm: seq<int>,
                    lms: seq<int>, s1: seq<int>, at: seq<int>)
    requires Reduced(s, t, K, ls, nm, lms, s1, at) && HasAllLms(t, ls)
    requires nm[|nm| - 1] + 1 == |s1|
    ensures LmsOrder(s, t, ls)
    ensures s1 == at && Permutation(s1)
  {
    forall k | 0 <= k < |nm| ensures nm[k] == k {
      NamesGrow(s, t, ls, nm, 0, k);
      NamesGrow(s, t, ls, nm, k, |nm| - 1);
    }
    forall x, y | 0 <= x < y < |ls| ensures Ascends(s, ls, x, y) {
      NameOrder(s, t, K, ls, nm, x, y);
      SuffixRankOrder(s, ls[x], ls[y]);
    }
  }

  lemma DistinctOrder(ls: seq<int>, lms: seq<int>, at: seq<int>, sa1: seq<int>)
    requires |at| == |lms| == |ls| && Inverse(at, sa1)
    requires forall r :: 0 <= r < |lms| ==> ls[at[r]] == lms[r]
    ensures Compose(lms, sa1) == ls
  {
    forall x | 0 <= x < |ls| ensures Compose(lms, sa1)[x] == ls[x] {
      assert at[sa1[x]] == x;
    }
  }

  /** The suffix array of the reduced string gives the order of the LMS suffixes. */
  lemma FromReduced(s: seq<int>, t: seq<SuffixType>, K: int, ls: seq<int>, nm: seq<int>,
                    lms: seq<int>, s1: seq<int>, at: seq<int>, sa1: seq<int>)
    requires Reduced(s, t, K, ls, nm, lms, s1, at) && ValidText(s1, nm[|nm| - 1])
    requires IsSuffixArray(s1, sa1)
    ensures LmsOrder(s, t, Compose(lms, sa1))
  {
    var order := Compose(lms, sa1);
    forall x, y | 0 <= x < y < |order| ensures Ascends(s, order, x, y) {
      ReducedOrder(s, t, K, ls, nm, lms, s1, at, sa1[x], sa1[y]);
      SuffixRankOrder(s, order[x], order[y]);
    }
    ComposeCovers(t, lms, sa1);
  }

  lemma ComposeCovers(t: seq<SuffixType>, lms: seq<int>, sa1: seq<int>)
    requires HasAllLms(t, lms) && Permutation(sa1) && |sa1| == |lms|
    ensures HasAllLms(t, Compose(lms, sa1))
  {
    var order := Compose(lms, sa1);
    forall p | IsLms(t, p) ensures Has(order, p) {
      assert Has(lms, p);
      var r :| 0 <= r < |lms| && lms[r] == p;
      PermutationHits(sa1, r);
      var x :| 0 <= x < |sa1| && sa1[x] == r;
      assert order[x] == p;
    }
  }

  /** The list sorted by the first stage is ordered by the first stage's keys. */
  lemma FirstStageSorted(s: seq<int>, t: seq<SuffixType>, ls: seq<int>)
    requires |t| == |s| && HasAllLms(t, ls)
    requires forall k, l :: 0 <= k < l < |ls| ==> RanksS(s, t)[ls[k]] < RanksS(s, t)[ls[l]]
    ensures SortedLms(s, t, ls) && Injective(ls)
  {
    forall k, l | 0 <= k < l < |ls| ensures LexLess(KeyS(s, t, ls[k]), KeyS(s, t, ls[l])) {
      RanksSOrder(s, t, ls[k], ls[l]);
    }
  }

  /** Placing every suffix at its rank makes the suffix array. */
  lemma RanksMakeSuffixArray(s: seq<int>, sa: seq<int>)
    requires |sa| == |s|
    requires forall p :: 0 <= p < |s| ==> 0 <= SuffixRanks(s)[p] < |s| && sa[SuffixRanks(s)[p]] == p
    ensures IsSuffixArray(s, sa)
  {
    var r := SuffixRanks(s);
    SuffixRanksPermute(s);
    forall y | 0 <= y < |s| ensures 0 <= sa[y] < |s| && r[sa[y]] == y {
      PermutationHits(r, y);
    }
    forall x, y | 0 <= x < y < |s| ensures LexLess(s[sa[x]..], s[sa[y]..]) {
      SuffixRankOrder(s, sa[x], sa[y]);
    }
  }

  /** The first stage: LMS positions sorted by their substrings, in ls[..m]. */
  method SortSubstrings(s: seq<int>, t: seq<SuffixType>, K: nat, sa: array<int>, cnt: array<int>, bkt: array<int>,
                        ls: array<int>) returns (m: nat)
    requires ValidText(s, K) && IsTypes(s, t)
    requires |s| <= sa.Length && |s| <= ls.Length && cnt.Length == bkt.Length == K + 1
    requires sa != bkt && sa != cnt && cnt != bkt && ls != sa && ls != bkt && ls != cnt
    requires forall c :: 0 <= c <= K ==> cnt[c] == Head(s, c + 1) - Head(s, c)
    modifies sa, bkt, ls
    ensures 1 <= m <= |s| && HasAllLms(t, ls[..m]) && SortedLms(s, t, ls[..m]) && Injective(ls[..m])
    ensures sa[|s|..] == old(sa[|s|..])
  {
    FillNeg(sa, |s|);
    MakeTails(cnt, K, bkt, s);
    ghost var slot := SeedInTextOrder(s, t, K, sa, bkt);
    SubstringOrders(s, t, K);
    InduceAll(s, t, K, sa, cnt, bkt, RanksL(s, t), RanksS(s, t), slot);
    m := AppendSorted(t, sa, ls, RanksS(s, t));
    FirstStageSorted(s, t, ls[..m]);
    assert Has(ls[..m], |s| - 1);
  }

  /** What the recursion needs to know about the reduced string s1 of s. */
  ghost predicate Reduction(s: seq<int>, t: seq<SuffixType>, K: int, s1: seq<int>, num: int, ls: seq<int>, nm: seq<int>,
                            lms: seq<int>, at: seq<int>) {
    Reduced(s, t, K, ls, nm, lms, s1, at) && HasAllLms(t, ls) && num == nm[|nm| - 1]
  }

  /** Naming and reduction: leaves the reduced string in s1[..m]. */
  method Reduce(s: seq<int>, t: seq<SuffixType>, K: nat, sa: array<int>, ls: seq<int>, s1: array<int>)
    returns (m: nat, num: int, ghost nm: seq<int>, ghost lms: seq<int>, ghost at: seq<int>)
    requires ValidText(s, K) && IsTypes(s, t) && |s| <= sa.Length && |s| <= s1.Length && s1 != sa
    requires |ls| >= 1 && HasAllLms(t, ls) && SortedLms(s, t, ls) && Injective(ls)
    modifies sa, s1
    ensures m == |lms| <= |s| && Reduction(s, t, K, s1[..m], num, ls, nm, lms, at)
    ensures sa[|s|..] == old(sa[|s|..])
  {
    num, nm := NameLms(s, t, sa, ls);
    m, lms := BuildReduced(t, sa, s1);
    LmsListSize(t, ls);
    LmsListSize(t, lms);
    at := LocateLms(t, ls, lms);
  }

  /** build_inverse: the inverse of a permutation. */
  method BuildInverse(s1: array<int>, sa1: array<int>, m: nat)
    requires m <= s1.Length && m <= sa1.Length && s1 != sa1 && Permutation(s1[..m])
    modifies sa1
    ensures Inverse(s1[..m], sa1[..m])
  {
    ghost var v := InverseExists(s1[..m]);
    for r := 0 to m
      invariant forall k :: 0 <= k < r ==> sa1[s1[k]] == k
    {
      assert s1[..m][r] == s1[r];
      sa1[s1[r]] := r;
    }
    forall y | 0 <= y < m ensures 0 <= sa1[y] < m && s1[sa1[y]] == y {
      assert s1[..m][v[y]] == y;
    }
  }

  /** The final stage: from the order of the LMS suffixes to the order of all suffixes. */
  method SortSuffixes(s: seq<int>, t: seq<SuffixType>, K: nat, sa: array<int>, cnt: array<int>, bkt: array<int>,
                      ls: seq<int>, sa1: seq<int>)
    requires ValidText(s, K) && IsTypes(s, t) && |s| <= sa.Length && cnt.Length == bkt.Length == K + 1
    requires sa != bkt && sa != cnt && cnt != bkt
    requires forall c :: 0 <= c <= K ==> cnt[c] == Head(s, c + 1) - Head(s, c)
    requires forall x :: 0 <= x < |sa1| ==> 0 <= sa1[x] < |ls|
    requires LmsOrder(s, t, Compose(ls, sa1))
    modifies sa, bkt
    ensures IsSuffixArray(s, sa[..|s|])
    ensures sa[|s|..] == old(sa[|s|..])
  {
    FillNeg(sa, |s|);
    MakeTails(cnt, K, bkt, s);
    ghost var slot := SeedInRankOrder(s, t, K, sa, bkt, ls, sa1);
    SuffixOrders(s, t, K);
    InduceAll(s, t, K, sa, cnt, bkt, SuffixRanks(s), SuffixRanks(s), slot);
    RanksMakeSuffixArray(s, sa[..|s|]);
  }

  /** Sorts the LMS suffixes of s through the reduced string: directly when all names
      differ, by recursion on a text at most half as long otherwise. */
  method SortReduced(ghost s: seq<int>, ghost t: seq<SuffixType>, ghost K: nat, s1: array<int>, sa1: array<int>, m: nat, num: int,
                     ghost ls: seq<int>, ghost nm: seq<int>, ghost lms: seq<int>, ghost at: seq<int>)
    requires s1 != sa1 && m <= s1.Length && m <= sa1.Length && |s| >= 2
    requires m == |lms| && Reduction(s, t, K, s1[..m], num, ls, nm, lms, at)
    modifies sa1
    ensures forall x :: 0 <= x < m ==> 0 <= sa1[x] < m
    ensures LmsOrder(s, t, Compose(lms, sa1[..m]))
    decreases |s|, 0
  {
    ReductionShrinks(s, t, K, s1[..m], num, ls, nm, lms, at);
    if num + 1 == m {
      BuildInverse(s1, sa1, m);
      DistinctCase(s, t, K, s1[..m], num, ls, nm, lms, at, sa1[..m]);
    } else {
      SaIsCore(s1[..m], sa1, num);
      RecursiveCase(s, t, K, s1[..m], num, ls, nm, lms, at, sa1[..m]);
    }
  }

  lemma ReductionShrinks(s: seq<int>, t: seq<SuffixType>, K: int, s1: seq<int>, num: int, ls: seq<int>, nm: seq<int>,
                         lms: seq<int>, at: seq<int>)
    requires Reduction(s, t, K, s1, num, ls, nm, lms, at) && |s| >= 2
    ensures ValidText(s1, num) && 2 * |s1| <= |s|
    ensures num + 1 == |s1| ==> Permutation(s1)
  {
    ReducedIsText(s, t, K, ls, nm, lms, s1, at);
    ReducedShorter(s, t, K, lms);
    if num + 1 == |s1| { AllDistinct(s, t, K, ls, nm, lms, s1, at); }
  }

  lemma DistinctCase(s: seq<int>, t: seq<SuffixType>, K: int, s1: seq<int>, num: int, ls: seq<int>, nm: seq<int>,
                     lms: seq<int>, at: seq<int>, sa1: seq<int>)
    requires Reduction(s, t, K, s1, num, ls, nm, lms, at) && num + 1 == |s1| && Inverse(s1, sa1)
    ensures LmsOrder(s, t, Compose(lms, sa1))
  {
    AllDistinct(s, t, K, ls, nm, lms, s1, at);
    DistinctOrder(ls, lms, at, sa1);
  }

  lemma RecursiveCase(s: seq<int>, t: seq<SuffixType>, K: int, s1: seq<int>, num: int, ls: seq<int>, nm: seq<int>,
                      lms: seq<int>, at: seq<int>, sa1: seq<int>)
    requires Reduction(s, t, K, s1, num, ls, nm, lms, at) && ValidText(s1, num) && IsSuffixArray(s1, sa1)
    ensures LmsOrder(s, t, Compose(lms, sa1))
  {
    FromReduced(s, t, K, ls, nm, lms, s1, at, sa1);
  }

  /** sa_is_core: for every text ending in its unique minimum, the first |s| cells of sa
      become its suffix array. */
  method SaIsCore(s: seq<int>, sa: array<int>, K: nat)
    requires ValidText(s, K) && |s| <= sa.Length
    modifies sa
    ensures IsSuffixArray(s, sa[..|s|])
    ensures sa[|s|..] == old(sa[|s|..])
    decreases |s|, 1
  {
    var n := |s|;
    if n == 1 {
      sa[0] := 0;
      return;
    }
    var types := ClassifyTypes(s);
    var t := types[..];
    var cnt := CountSymbols(s, K);
    var bkt := new int[K + 1];
    var ls, s1, sa1 := new int[n], new int[n], new int[n];
    var m := CollectLms(t, ls);
    m := SortSubstrings(s, t, K, sa, cnt, bkt, ls);
    ghost var sorted := ls[..m];
    var num;
    ghost var nm, lms, at;
    m, num, nm, lms, at := Reduce(s, t, K, sa, ls[..m], s1);
    SortReduced(s, t, K, s1, sa1, m, num, sorted, nm, lms, at);
    m := CollectLms(t, ls);
    SameLmsPositions(t, ls[..m], lms);
    SortSuffixes(s, t, K, sa, cnt, bkt, ls[..m], sa1[..m]);
  }

  lemma {:induction false} LmsFarApart(s: seq<int>, t: seq<SuffixType>, K: int, lms: seq<int>, k: nat)
    requires ValidText(s, K) && IsTypes(s, t) && LmsPositions(t, lms) && |s| >= 2 && k < |lms|
    ensures lms[k] >= 2 * k + 1
  {
    assert IsLms(t, lms[k]);
    if k > 0 {
      LmsFarApart(s, t, K, lms, k - 1);
      assert IsLms(t, lms[k - 1]);
      BeforeLms(s, t, K, lms[k]);
    }
  }

  /** Reduction at least halves the text. */
  lemma ReducedShorter(s: seq<int>, t: seq<SuffixType>, K: int, lms: seq<int>)
    requires ValidText(s, K) && IsTypes(s, t) && LmsPositions(t, lms) && |s| >= 2
    ensures 2 * |lms| <= |s|
  {
    if lms != [] { LmsFarApart(s, t, K, lms, |lms| - 1); }
  }

  lemma {:induction false} SameLmsAt(t: seq<SuffixType>, a: seq<int>, b: seq<int>, k: nat)
    requires LmsPositions(t, a) && LmsPositions(t, b) && k < |a| && k < |b|
    ensures a[k] == b[k]
    decreases k
  {
    assert Has(b, a[k]) && Has(a, b[k]);
    var i :| 0 <= i < |b| && b[i] == a[k];
    var j :| 0 <= j < |a| && a[j] == b[k];
    if i < k { SameLmsAt(t, a, b, i); }
    if j < k { SameLmsAt(t, a, b, j); }
  }

  /** The list of LMS positions in text order is unique. */
  lemma SameLmsPositions(t: seq<SuffixType>, a: seq<int>, b: seq<int>)
    requires LmsPositions(t, a) && LmsPositions(t, b)
    ensures a == b
  {
    LmsListSize(t, a);
    LmsListSize(t, b);
    forall k | 0 <= k < |a| ensures a[k] == b[k] { SameLmsAt(t, a, b, k); }
  }
}
