/** The orders behind the two runs of induced sorting.

    The final run sorts true suffixes. The first run sorts LMS substrings: its key
    of a suffix spells typed symbols up to the next LMS position and then that
    position itself, which is the tie-break that seeding in text order produces. */
module StageOrders {
  import opened LexOrder
  import opened SuffixTypes
  import opened InducedSort
  import opened Seeding

  // ---- final stage: suffixes ----

  ghost function SuffixRanks(s: seq<int>): (r: seq<int>)
    ensures |r| == |s|
  {
    Ranks(Suffixes(s))
  }

  lemma SuffixRankOrder(s: seq<int>, i: nat, j: nat)
    requires i < |s| && j < |s|
    ensures LexLess(s[i..], s[j..]) <==> SuffixRanks(s)[i] < SuffixRanks(s)[j]
  {
    RankOrder(Suffixes(s), i, j);
  }

  lemma SuffixRanksPermute(s: seq<int>)
    ensures Permutation(SuffixRanks(s))
  {
    forall i, j | 0 <= i < |s| && 0 <= j < |s| && Suffixes(s)[i] == Suffixes(s)[j] ensures i == j {
      assert |Suffixes(s)[i]| == |s| - i && |Suffixes(s)[j]| == |s| - j;
    }
    RanksPermute(Suffixes(s));
  }

  lemma SuffixBucket(s: seq<int>, t: seq<SuffixType>, K: int, i: int, j: int)
    requires ValidText(s, K) && IsTypes(s, t) && BucketLess(s, t, i, j)
    ensures SuffixRanks(s)[i] < SuffixRanks(s)[j]
  {
    SuffixRankOrder(s, i, j);
    SuffixCons(s, i, j);
    if s[i] == s[j] { LBeforeS(s, t, K, i, j); }
  }

  lemma SuffixStep(s: seq<int>, i: int, j: int)
    ensures OrderStep(s, SuffixRanks(s), i, j)
  {
    if 0 <= i < |s| - 1 && 0 <= j < |s| - 1 {
      SuffixRankOrder(s, i, j);
      SuffixRankOrder(s, i + 1, j + 1);
      SuffixCons(s, i, j);
    }
  }

  /** True suffix order obeys the inducing laws of both passes. */
  lemma SuffixOrders(s: seq<int>, t: seq<SuffixType>, K: int)
    requires ValidText(s, K) && IsTypes(s, t)
    ensures Orders(s, t, K, SuffixRanks(s), SuffixRanks(s))
  {
    var r := SuffixRanks(s);
    SuffixRanksPermute(s);
    forall i, j | BucketLess(s, t, i, j) ensures r[i] < r[j] { SuffixBucket(s, t, K, i, j); }
    forall i, j ensures OrderStep(s, r, i, j) { SuffixStep(s, i, j); }
    forall i | IsL(t, i) ensures r[i + 1] < r[i] {
      TypeMeaning(s, t, K, i);
      SuffixRankOrder(s, i + 1, i);
    }
    forall i | IsS(t, i) ensures r[i] < r[i + 1] {
      TypeMeaning(s, t, K, i);
      SuffixRankOrder(s, i, i + 1);
    }
  }

  // ---- first stage: LMS substrings ----

  /** A symbol with its type; at equal symbols L precedes S. */
  ghost function Enc(s: seq<int>, t: seq<SuffixType>, i: nat): int
    requires |t| == |s| && i < |s|
  {
    2 * s[i] + if t[i] == S then 1 else 0
  }

  ghost function KeyL(s: seq<int>, t: seq<SuffixType>, i: nat): (k: seq<int>)
    requires |t| == |s| && i < |s|
    ensures k != [] && k[0] == Enc(s, t, i)
    decreases |s| - i
  {
    if IsLms(t, i) || i == |s| - 1 then [Enc(s, t, i), i] else [Enc(s, t, i)] + KeyL(s, t, i + 1)
  }

  ghost function KeyS(s: seq<int>, t: seq<SuffixType>, i: nat): (k: seq<int>)
    requires |t| == |s| && i < |s|
    ensures k != [] && k[0] == Enc(s, t, i)
    decreases |s| - i
  {
    if i == |s| - 1 then [Enc(s, t, i)]
    else if t[i] == L then KeyL(s, t, i)
    else [Enc(s, t, i)] + KeyS(s, t, i + 1)
  }

  ghost function KeysL(s: seq<int>, t: seq<SuffixType>): (r: seq<seq<int>>)
    requires |t| == |s|
    ensures |r| == |s| && forall i :: 0 <= i < |s| ==> r[i] == KeyL(s, t, i)
  {
    seq(|s|, i requires 0 <= i < |s| => KeyL(s, t, i))
  }

  ghost function KeysS(s: seq<int>, t: seq<SuffixType>): (r: seq<seq<int>>)
    requires |t| == |s|
    ensures |r| == |s| && forall i :: 0 <= i < |s| ==> r[i] == KeyS(s, t, i)
  {
    seq(|s|, i requires 0 <= i < |s| => KeyS(s, t, i))
  }

  lemma {:induction false} KeyLDescends(s: seq<int>, t: seq<SuffixType>, K: int, i: int)
    requires ValidText(s, K) && IsTypes(s, t) && IsL(t, i)
    ensures LexLess(KeyL(s, t, i + 1), KeyL(s, t, i))
    decreases |s| - i
  {
    AfterL(s, t, K, i);
    if s[i + 1] == s[i] {
      KeyLDescends(s, t, K, i + 1);
      LexCons(Enc(s, t, i + 1), KeyL(s, t, i + 2), Enc(s, t, i), KeyL(s, t, i + 1));
    }
  }

  lemma {:induction false} KeySAscends(s: seq<int>, t: seq<SuffixType>, K: int, i: int)
    requires ValidText(s, K) && IsTypes(s, t) && IsS(t, i)
    ensures LexLess(KeyS(s, t, i), KeyS(s, t, i + 1))
    decreases |s| - i
  {
    AfterS(s, t, K, i);
    if s[i + 1] == s[i] {
      KeySAscends(s, t, K, i + 1);
      LexCons(Enc(s, t, i), KeyS(s, t, i + 1), Enc(s, t, i + 1), KeyS(s, t, i + 2));
    }
  }

  lemma {:induction false} KeyLDistinct(s: seq<int>, t: seq<SuffixType>, K: int, i: int, j: int)
    requires ValidText(s, K) && IsTypes(s, t) && InFirstPass(t, i) && InFirstPass(t, j)
    requires KeyL(s, t, i) == KeyL(s, t, j)
    ensures i == j
    decreases |s| - i
  {
    assert Enc(s, t, i) == Enc(s, t, j);
    if IsL(t, i) {
      AfterL(s, t, K, i);
      AfterL(s, t, K, j);
      assert KeyL(s, t, i)[1..] == KeyL(s, t, i + 1) && KeyL(s, t, j)[1..] == KeyL(s, t, j + 1);
      KeyLDistinct(s, t, K, i + 1, j + 1);
    } else {
      assert KeyL(s, t, i)[1] == i && KeyL(s, t, j)[1] == j;
    }
  }

  lemma {:induction false} KeySDistinct(s: seq<int>, t: seq<SuffixType>, K: int, i: nat, j: nat)
    requires ValidText(s, K) && IsTypes(s, t) && i < |s| && j < |s|
    requires KeyS(s, t, i) == KeyS(s, t, j)
    ensures i == j
    decreases |s| - i
  {
    assert Enc(s, t, i) == Enc(s, t, j);
    if IsL(t, i) {
      KeyLDistinct(s, t, K, i, j);
    } else if i < |s| - 1 {
      assert j < |s| - 1;
      assert KeyS(s, t, i)[1..] == KeyS(s, t, i + 1) && KeyS(s, t, j)[1..] == KeyS(s, t, j + 1);
      KeySDistinct(s, t, K, i + 1, j + 1);
    }
  }

  ghost function RanksL(s: seq<int>, t: seq<SuffixType>): (r: seq<int>)
    requires |t| == |s|
    ensures |r| == |s|
  {
    Ranks(KeysL(s, t))
  }

  ghost function RanksS(s: seq<int>, t: seq<SuffixType>): (r: seq<int>)
    requires |t| == |s|
    ensures |r| == |s|
  {
    Ranks(KeysS(s, t))
  }

  lemma RanksLOrder(s: seq<int>, t: seq<SuffixType>, i: nat, j: nat)
    requires |t| == |s| && i < |s| && j < |s|
    ensures LexLess(KeyL(s, t, i), KeyL(s, t, j)) <==> RanksL(s, t)[i] < RanksL(s, t)[j]
  {
    RankOrder(KeysL(s, t), i, j);
  }

  lemma RanksSOrder(s: seq<int>, t: seq<SuffixType>, i: nat, j: nat)
    requires |t| == |s| && i < |s| && j < |s|
    ensures LexLess(KeyS(s, t, i), KeyS(s, t, j)) <==> RanksS(s, t)[i] < RanksS(s, t)[j]
  {
    RankOrder(KeysS(s, t), i, j);
  }

  lemma SubstringFirstOrder(s: seq<int>, t: seq<SuffixType>, K: int)
    requires ValidText(s, K) && IsTypes(s, t)
    ensures FirstOrder(s, t, RanksL(s, t))
  {
    var r := RanksL(s, t);
    forall i, j | BucketLess(s, t, i, j) ensures r[i] < r[j] { RanksLOrder(s, t, i, j); }
    forall i, j | IsL(t, i) && IsL(t, j) ensures OrderStep(s, r, i, j) {
      RanksLOrder(s, t, i, j);
      RanksLOrder(s, t, i + 1, j + 1);
      LexCons(Enc(s, t, i), KeyL(s, t, i + 1), Enc(s, t, j), KeyL(s, t, j + 1));
    }
    forall i | IsL(t, i) ensures r[i + 1] < r[i] {
      KeyLDescends(s, t, K, i);
      RanksLOrder(s, t, i + 1, i);
    }
  }

  lemma SubstringFinalOrder(s: seq<int>, t: seq<SuffixType>, K: int)
    requires ValidText(s, K) && IsTypes(s, t)
    ensures FinalOrder(s, t, RanksS(s, t))
  {
    var r := RanksS(s, t);
    forall i, j | 0 <= i < |s| && 0 <= j < |s| && KeysS(s, t)[i] == KeysS(s, t)[j] ensures i == j {
      KeySDistinct(s, t, K, i, j);
    }
    RanksPermute(KeysS(s, t));
    forall i, j | BucketLess(s, t, i, j) ensures r[i] < r[j] { RanksSOrder(s, t, i, j); }
    forall i, j | IsS(t, i) && IsS(t, j) ensures OrderStep(s, r, i, j) {
      RanksSOrder(s, t, i, j);
      RanksSOrder(s, t, i + 1, j + 1);
      LexCons(Enc(s, t, i), KeyS(s, t, i + 1), Enc(s, t, j), KeyS(s, t, j + 1));
    }
    forall i | IsS(t, i) ensures r[i] < r[i + 1] {
      KeySAscends(s, t, K, i);
      RanksSOrder(s, t, i, i + 1);
    }
  }

  /** The LMS-substring order obeys the inducing laws too. */
  lemma SubstringOrders(s: seq<int>, t: seq<SuffixType>, K: int)
    requires ValidText(s, K) && IsTypes(s, t)
    ensures Orders(s, t, K, RanksL(s, t), RanksS(s, t))
  {
    SubstringFirstOrder(s, t, K);
    SubstringFinalOrder(s, t, K);
    forall i, j ensures Agree(t, RanksL(s, t), RanksS(s, t), i, j) {
      if IsL(t, i) && IsL(t, j) {
        RanksLOrder(s, t, i, j);
        RanksSOrder(s, t, i, j);
      }
    }
  }
}
