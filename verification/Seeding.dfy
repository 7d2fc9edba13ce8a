/** Bucket boundaries (count_symbols, make_heads, make_tails) and the placement of
    the LMS seeds at the bucket ends (seed_one, final_seed_one, place_tail). */
module Seeding {
  import opened LexOrder
  import opened SuffixTypes
  import opened InducedSort

  // ---- bucket boundaries ----

  lemma HeadStep(s: seq<int>, i: nat, c: int)
    requires i < |s|
    ensures Head(s[..i + 1], c) == Head(s[..i], c) + (if s[i] < c then 1 else 0)
  {
    var a, b := Smaller(s[..i], c), Smaller(s[..i + 1], c);
    if s[i] < c {
      assert b == a + {i};
    } else {
      assert b == a;
    }
  }

  /** cnt[c] is the number of occurrences of c, as a difference of bucket boundaries. */
  method CountSymbols(s: seq<int>, K: nat) returns (cnt: array<int>)
    requires forall i :: 0 <= i < |s| ==> 0 <= s[i] <= K
    ensures fresh(cnt) && cnt.Length == K + 1
    ensures forall c :: 0 <= c <= K ==> cnt[c] == Head(s, c + 1) - Head(s, c)
  {
    cnt := new int[K + 1](_ => 0);
    for i := 0 to |s|
      invariant forall c :: 0 <= c <= K ==> cnt[c] == Head(s[..i], c + 1) - Head(s[..i], c)
    {
      ghost var before := cnt[..];
      cnt[s[i]] := cnt[s[i]] + 1;
      forall c | 0 <= c <= K ensures cnt[c] == Head(s[..i + 1], c + 1) - Head(s[..i + 1], c) {
        HeadStep(s, i, c);
        HeadStep(s, i, c + 1);
        assert before[c] == Head(s[..i], c + 1) - Head(s[..i], c);
      }
    }
    assert s[..|s|] == s;
  }

  lemma HeadOfZero(s: seq<int>)
    requires forall i :: 0 <= i < |s| ==> 0 <= s[i]
    ensures Head(s, 0) == 0
  {
    assert Smaller(s, 0) == {};
  }

  method MakeHeads(cnt: array<int>, K: nat, bkt: array<int>, ghost s: seq<int>)
    requires cnt != bkt && cnt.Length == bkt.Length == K + 1
    requires forall i :: 0 <= i < |s| ==> 0 <= s[i]
    requires forall c :: 0 <= c <= K ==> cnt[c] == Head(s, c + 1) - Head(s, c)
    modifies bkt
    ensures forall c :: 0 <= c <= K ==> bkt[c] == Head(s, c)
  {
    HeadOfZero(s);
    bkt[0] := 0;
    for c := 1 to K + 1
      invariant forall d :: 0 <= d < c ==> bkt[d] == Head(s, d)
    {
      bkt[c] := bkt[c - 1] + cnt[c - 1];
    }
  }

  method MakeTails(cnt: array<int>, K: nat, bkt: array<int>, ghost s: seq<int>)
    requires cnt != bkt && cnt.Length == bkt.Length == K + 1
    requires forall i :: 0 <= i < |s| ==> 0 <= s[i]
    requires forall c :: 0 <= c <= K ==> cnt[c] == Head(s, c + 1) - Head(s, c)
    modifies bkt
    ensures forall c :: 0 <= c <= K ==> bkt[c] == Head(s, c + 1)
  {
    HeadOfZero(s);
    bkt[0] := cnt[0];
    for c := 1 to K + 1
      invariant forall d :: 0 <= d < c ==> bkt[d] == Head(s, d + 1)
    {
      bkt[c] := bkt[c - 1] + cnt[c];
    }
  }

  // ---- placing the seeds ----

  ghost function InBucket(s: seq<int>, done: set<int>, c: int): set<int>
    requires Within(done, |s|)
  {
    set p | p in done && s[p] == c
  }

  /** A seed p sits between its bucket's cursor and the bucket end. */
  ghost predicate SeedPlaced(s: seq<int>, slot: seq<int>, sa: seq<int>, bkt: seq<int>, p: int)
    requires |slot| == |s| && 0 <= p < |s| && 0 <= s[p] < |bkt|
  {
    Placed(slot, sa, p) && bkt[s[p]] <= slot[p] < Head(s, s[p] + 1)
  }

  /** Seeds of one bucket lie in the order of rl. */
  ghost predicate SeedsOrdered(s: seq<int>, rl: seq<int>, slot: seq<int>, p: int, q: int)
    requires |slot| == |rl| == |s| && 0 <= p < |s| && 0 <= q < |s|
  {
    s[p] == s[q] ==> (rl[p] < rl[q] <==> slot[p] < slot[q])
  }

  ghost predicate SlotSeed(slot: seq<int>, sa: seq<int>, done: set<int>, y: int)
    requires Within(done, |slot|) && |slot| <= |sa|
  {
    0 <= y < |slot| ==> sa[y] == -1 || (sa[y] in done && slot[sa[y]] == y)
  }

  /** State of the seeding loop once the seeds in done are placed. */
  ghost predicate SeedingState(s: seq<int>, t: seq<SuffixType>, rl: seq<int>, slot: seq<int>,
                               sa: seq<int>, bkt: seq<int>, done: set<int>) {
    && |slot| == |rl| == |t| == |s| <= |sa|
    && Within(done, |s|)
    && (forall p :: p in done ==> IsLms(t, p))
    && (forall i :: 0 <= i < |s| ==> 0 <= s[i] < |bkt|)
    && (forall p {:trigger SeedPlaced(s, slot, sa, bkt, p)} :: p in done ==> SeedPlaced(s, slot, sa, bkt, p))
    && (forall p, q {:trigger SeedsOrdered(s, rl, slot, p, q)} :: p in done && q in done ==> SeedsOrdered(s, rl, slot, p, q))
    && (forall y {:trigger SlotSeed(slot, sa, done, y)} :: SlotSeed(slot, sa, done, y))
    && (forall c :: 0 <= c < |bkt| ==> bkt[c] == Head(s, c + 1) - |InBucket(s, done, c)|)
  }

  /** There is room: a bucket never receives more seeds than it has suffixes. */
  lemma SeedRoom(s: seq<int>, done: set<int>, c: int)
    requires Within(done, |s|)
    ensures |InBucket(s, done, c)| <= Head(s, c + 1) - Head(s, c)
  {
    var low, up, mine := Smaller(s, c), Smaller(s, c + 1), InBucket(s, done, c);
    assert low !! mine;
    SubsetSize(low + mine, up);
  }

  /** The slot below the cursor of p's bucket is inside the bucket and free. */
  lemma SeedSlotFree(s: seq<int>, t: seq<SuffixType>, rl: seq<int>, slot: seq<int>,
                     sa: seq<int>, bkt: seq<int>, done: set<int>, p: int)
    requires SeedingState(s, t, rl, slot, sa, bkt, done) && IsLms(t, p) && p !in done
    ensures Head(s, s[p]) <= bkt[s[p]] - 1 < Head(s, s[p] + 1) <= |s|
    ensures |InBucket(s, done + {p}, s[p])| == |InBucket(s, done, s[p])| + 1
    ensures sa[bkt[s[p]] - 1] == -1
  {
    var c := s[p];
    var b := bkt[c] - 1;
    SeedRoom(s, done + {p}, c);
    assert InBucket(s, done + {p}, c) == InBucket(s, done, c) + {p};
    HeadMonotone(s, c + 1, c + 1);
    assert SlotSeed(slot, sa, done, b);
    if sa[b] != -1 { SeedElsewhere(s, t, rl, slot, sa, bkt, done, sa[b], c); }
  }

  /** Placing p, smaller in rl than every seed already in its bucket, keeps the state. */
  lemma SeedingStep(s: seq<int>, t: seq<SuffixType>, rl: seq<int>, slot: seq<int>,
                    sa: seq<int>, bkt: seq<int>, done: set<int>, p: int)
    requires SeedingState(s, t, rl, slot, sa, bkt, done)
    requires IsLms(t, p) && p !in done
    requires forall q :: q in done && s[q] == s[p] ==> rl[p] < rl[q]
    ensures Head(s, s[p]) <= bkt[s[p]] - 1 < Head(s, s[p] + 1) <= |s|
    ensures SeedingState(s, t, rl, slot[p := bkt[s[p]] - 1], sa[bkt[s[p]] - 1 := p], bkt[s[p] := bkt[s[p]] - 1], done + {p})
  {
    SeedSlotFree(s, t, rl, slot, sa, bkt, done, p);
    SeedingStepSlots(s, t, rl, slot, sa, bkt, done, p);
    SeedingStepOrder(s, t, rl, slot, sa, bkt, done, p);
    var c := s[p];
    forall d | 0 <= d < |bkt| && d != c ensures |InBucket(s, done + {p}, d)| == |InBucket(s, done, d)| {
      assert InBucket(s, done + {p}, d) == InBucket(s, done, d);
    }
  }

  lemma SeedingStepSlots(s: seq<int>, t: seq<SuffixType>, rl: seq<int>, slot: seq<int>,
                         sa: seq<int>, bkt: seq<int>, done: set<int>, p: int)
    requires SeedingState(s, t, rl, slot, sa, bkt, done) && IsLms(t, p) && p !in done
    requires 0 <= bkt[s[p]] - 1 < Head(s, s[p] + 1) <= |s| && sa[bkt[s[p]] - 1] == -1
    ensures var slot', sa', bkt' := slot[p := bkt[s[p]] - 1], sa[bkt[s[p]] - 1 := p], bkt[s[p] := bkt[s[p]] - 1];
            && (forall q :: q in done + {p} ==> SeedPlaced(s, slot', sa', bkt', q))
            && (forall y :: SlotSeed(slot', sa', done + {p}, y))
  {
    var b := bkt[s[p]] - 1;
    var slot', sa', bkt' := slot[p := b], sa[b := p], bkt[s[p] := b];
    forall q | q in done + {p} ensures SeedPlaced(s, slot', sa', bkt', q) {
      if q != p { assert SeedPlaced(s, slot, sa, bkt, q); }
    }
    forall y ensures SlotSeed(slot', sa', done + {p}, y) {
      assert SlotSeed(slot, sa, done, y);
    }
  }

  lemma SeedingStepOrder(s: seq<int>, t: seq<SuffixType>, rl: seq<int>, slot: seq<int>,
                         sa: seq<int>, bkt: seq<int>, done: set<int>, p: int)
    requires SeedingState(s, t, rl, slot, sa, bkt, done) && IsLms(t, p) && p !in done
    requires forall q :: q in done && s[q] == s[p] ==> rl[p] < rl[q]
    ensures forall q, r {:trigger SeedsOrdered(s, rl, slot[p := bkt[s[p]] - 1], q, r)} ::
              q in done + {p} && r in done + {p} ==> SeedsOrdered(s, rl, slot[p := bkt[s[p]] - 1], q, r)
  {
    var slot' := slot[p := bkt[s[p]] - 1];
    forall q, r | q in done + {p} && r in done + {p} ensures SeedsOrdered(s, rl, slot', q, r) {
      if q != p && r != p {
        assert SeedsOrdered(s, rl, slot, q, r);
      } else if q != p {
        assert SeedPlaced(s, slot, sa, bkt, q);
      } else if r != p {
        assert SeedPlaced(s, slot, sa, bkt, r);
      }
    }
  }

  /** A placed seed is never in the free slot just below some bucket's cursor. */
  lemma SeedElsewhere(s: seq<int>, t: seq<SuffixType>, rl: seq<int>, slot: seq<int>,
                      sa: seq<int>, bkt: seq<int>, done: set<int>, q: int, c: int)
    requires SeedingState(s, t, rl, slot, sa, bkt, done) && q in done
    requires 0 <= c < |bkt| && Head(s, c) <= bkt[c] - 1
    ensures slot[q] != bkt[c] - 1
  {
    assert SeedPlaced(s, slot, sa, bkt, q);
    var d := s[q];
    SeedRoom(s, done, d);
    if d < c { HeadMonotone(s, d + 1, c); }
    if c < d { HeadMonotone(s, c + 1, d); }
  }

  lemma SeedingStart(s: seq<int>, t: seq<SuffixType>, rl: seq<int>, slot: seq<int>, sa: seq<int>, bkt: seq<int>)
    requires |slot| == |rl| == |t| == |s| <= |sa|
    requires forall i :: 0 <= i < |s| ==> 0 <= s[i] < |bkt|
    requires forall y :: 0 <= y < |s| ==> sa[y] == -1
    requires forall c :: 0 <= c < |bkt| ==> bkt[c] == Head(s, c + 1)
    ensures SeedingState(s, t, rl, slot, sa, bkt, {})
  {
    forall c | 0 <= c < |bkt| ensures |InBucket(s, {}, c)| == 0 {
      assert InBucket(s, {}, c) == {};
    }
  }

  // ---- from finished seeding to the first pass ----

  ghost function AllLms(t: seq<SuffixType>): (r: set<int>)
    ensures Within(r, |t|)
    ensures forall p :: p in r <==> IsLms(t, p)
  {
    set p | 0 <= p < |t| && IsLms(t, p)
  }

  /** The two orders rank the L suffixes alike. */
  ghost predicate Agree(t: seq<SuffixType>, rl: seq<int>, rs: seq<int>, i: int, j: int)
    requires |rl| == |rs| == |t|
  {
    IsL(t, i) && IsL(t, j) ==> (rs[i] < rs[j] <==> rl[i] < rl[j])
  }

  ghost predicate Orders(s: seq<int>, t: seq<SuffixType>, K: int, rl: seq<int>, rs: seq<int>) {
    && ValidText(s, K) && IsTypes(s, t)
    && FirstOrder(s, t, rl)
    && FinalOrder(s, t, rs)
    && (forall i, j :: Agree(t, rl, rs, i, j))
  }

  /** The place of each first-pass suffix, from the seed slots and the final order. */
  ghost function FirstSlots(t: seq<SuffixType>, rs: seq<int>, slot: seq<int>): (r: seq<int>)
    requires |slot| == |rs| == |t|
    ensures |r| == |t| && forall i :: 0 <= i < |t| ==> r[i] == if t[i] == L then rs[i] else slot[i]
  {
    seq(|t|, i requires 0 <= i < |t| => if t[i] == L then rs[i] else slot[i])
  }

  /** Distinct ranks inside an interval are at most as many as its length. */
  lemma RanksInside(rs: seq<int>, a: set<int>, lo: int, hi: int)
    requires Injective(rs) && Within(a, |rs|) && lo <= hi
    requires forall j :: j in a ==> lo <= rs[j] < hi
    ensures |a| <= hi - lo
  {
    ImageSize(rs, a);
    IntervalSize(lo, hi);
    SubsetSize(Image(rs, a), Interval(lo, hi));
  }

  /** L suffixes of a bucket end before its seeds begin. */
  lemma LBelowSeeds(s: seq<int>, t: seq<SuffixType>, rs: seq<int>, q: int)
    requires SymbolMonotone(s, t, rs) && IsL(t, q)
    ensures rs[q] < Head(s, s[q] + 1) - |InBucket(s, AllLms(t), s[q])|
  {
    var a := InBucket(s, AllLms(t), s[q]);
    forall j | j in a ensures rs[q] + 1 <= rs[j] < Head(s, s[q] + 1) {
      assert BucketLess(s, t, q, j);
      SlotInBucket(s, t, rs, j);
    }
    SlotInBucket(s, t, rs, q);
    RanksInside(rs, a, rs[q] + 1, Head(s, s[q] + 1));
  }

  /** First-pass slots lie in their buckets. */
  lemma FirstSlotInBucket(s: seq<int>, t: seq<SuffixType>, K: int, rl: seq<int>, rs: seq<int>,
                          slot: seq<int>, sa: seq<int>, bkt: seq<int>, p: int)
    requires Orders(s, t, K, rl, rs) && SeedingState(s, t, rl, slot, sa, bkt, AllLms(t))
    requires InFirstPass(t, p)
    ensures Head(s, s[p]) <= FirstSlots(t, rs, slot)[p] < Head(s, s[p] + 1) <= |s|
  {
    HeadMonotone(s, s[p] + 1, s[p] + 1);
    if IsL(t, p) {
      SlotInBucket(s, t, rs, p);
    } else {
      assert SeedPlaced(s, slot, sa, bkt, p);
      SeedRoom(s, AllLms(t), s[p]);
    }
  }

  lemma FirstSlotsBucketLess(s: seq<int>, t: seq<SuffixType>, K: int, rl: seq<int>, rs: seq<int>,
                             slot: seq<int>, sa: seq<int>, bkt: seq<int>, p: int, q: int)
    requires Orders(s, t, K, rl, rs) && SeedingState(s, t, rl, slot, sa, bkt, AllLms(t))
    requires InFirstPass(t, p) && InFirstPass(t, q) && BucketLess(s, t, p, q)
    ensures FirstSlots(t, rs, slot)[p] < FirstSlots(t, rs, slot)[q] && rl[p] < rl[q]
  {
    if s[p] < s[q] {
      FirstSlotInBucket(s, t, K, rl, rs, slot, sa, bkt, p);
      FirstSlotInBucket(s, t, K, rl, rs, slot, sa, bkt, q);
      HeadMonotone(s, s[p] + 1, s[q]);
    } else {
      LBelowSeeds(s, t, rs, p);
      assert SeedPlaced(s, slot, sa, bkt, q);
    }
  }

  /** First-pass slots order the suffixes exactly as rl does. */
  lemma FirstSlotsFollow(s: seq<int>, t: seq<SuffixType>, K: int, rl: seq<int>, rs: seq<int>,
                         slot: seq<int>, sa: seq<int>, bkt: seq<int>, p: int, q: int)
    requires Orders(s, t, K, rl, rs) && SeedingState(s, t, rl, slot, sa, bkt, AllLms(t))
    requires InFirstPass(t, p) && InFirstPass(t, q)
    ensures rl[p] < rl[q] <==> FirstSlots(t, rs, slot)[p] < FirstSlots(t, rs, slot)[q]
    ensures p != q ==> FirstSlots(t, rs, slot)[p] != FirstSlots(t, rs, slot)[q]
  {
    if BucketLess(s, t, p, q) {
      FirstSlotsBucketLess(s, t, K, rl, rs, slot, sa, bkt, p, q);
    } else if BucketLess(s, t, q, p) {
      FirstSlotsBucketLess(s, t, K, rl, rs, slot, sa, bkt, q, p);
    } else if IsL(t, p) {
      assert Agree(t, rl, rs, p, q);
    } else {
      assert SeedsOrdered(s, rl, slot, p, q);
      assert SeedPlaced(s, slot, sa, bkt, p) && SeedPlaced(s, slot, sa, bkt, q);
    }
  }

  /** A finished seeding is the starting point of the first pass. */
  lemma SeedingFinished(s: seq<int>, t: seq<SuffixType>, K: int, rl: seq<int>, rs: seq<int>,
                        slot: seq<int>, sa: seq<int>, bkt: seq<int>)
    requires Orders(s, t, K, rl, rs) && SeedingState(s, t, rl, slot, sa, bkt, AllLms(t))
    ensures SlotOrder(s, t, rs, FirstSlots(t, rs, slot))
    ensures Seeded(t, FirstSlots(t, rs, slot), sa)
    ensures FirstSlots(t, rs, slot)[|s| - 1] == rs[|s| - 1]
  {
    var f := FirstSlots(t, rs, slot);
    forall i, j | IsL(t, i) && IsL(t, j) ensures OrderStep(s, f, i, j) {
      assert OrderStep(s, rl, i, j);
      AfterL(s, t, K, i);
      AfterL(s, t, K, j);
      FirstSlotsFollow(s, t, K, rl, rs, slot, sa, bkt, i, j);
      FirstSlotsFollow(s, t, K, rl, rs, slot, sa, bkt, i + 1, j + 1);
    }
    forall i | IsL(t, i) ensures f[i] == rs[i] && f[i + 1] < f[i] {
      AfterL(s, t, K, i);
      FirstSlotsFollow(s, t, K, rl, rs, slot, sa, bkt, i + 1, i);
    }
    forall i | InFirstPass(t, i) ensures 0 <= f[i] < |s| {
      FirstSlotInBucket(s, t, K, rl, rs, slot, sa, bkt, i);
    }
    forall i, j | InFirstPass(t, i) && InFirstPass(t, j) && i != j ensures f[i] != f[j] {
      FirstSlotsFollow(s, t, K, rl, rs, slot, sa, bkt, i, j);
    }
    forall p | IsLms(t, p) ensures Placed(f, sa, p) {
      assert SeedPlaced(s, slot, sa, bkt, p);
    }
    forall y ensures Settled(t, f, sa, y) {
      assert SlotSeed(slot, sa, AllLms(t), y);
    }
    SentinelSlot(s, t, K, rl, rs, slot, sa, bkt);
  }

  /** The sentinel's seed slot is already its final slot, 0. */
  lemma SentinelSlot(s: seq<int>, t: seq<SuffixType>, K: int, rl: seq<int>, rs: seq<int>,
                     slot: seq<int>, sa: seq<int>, bkt: seq<int>)
    requires Orders(s, t, K, rl, rs) && SeedingState(s, t, rl, slot, sa, bkt, AllLms(t))
    ensures FirstSlots(t, rs, slot)[|s| - 1] == rs[|s| - 1] == 0
  {
    var e := |s| - 1;
    assert Smaller(s, 1) == {e};
    HeadOfZero(s);
    SlotInBucket(s, t, rs, e);
    FirstSlotInBucket(s, t, K, rl, rs, slot, sa, bkt, e);
  }
}
