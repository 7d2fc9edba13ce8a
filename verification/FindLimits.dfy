/** The finders for binary products, equalizers and pullbacks (libcat89/src/findlim.c). */
module FindLimits {
  import opened Common
  import opened FiniteCategory
  import opened UniversalTheory

  // ---- scans of the morphism census ----

  /** The index lists a hom-set without repetition. */
  ghost predicate Lists(ids: seq<nat>, s: set<nat>) {
    && (forall i :: 0 <= i < |ids| ==> ids[i] in s) && (forall m :: m in s ==> m in ids) && |ids| == |s|
    && forall i, j :: 0 <= i < j < |ids| ==> ids[i] != ids[j]
  }

  lemma ListsAdd(ids: seq<nat>, s: set<nat>, m: nat)
    requires Lists(ids, s) && m !in s
    ensures Lists(ids + [m], s + {m})
  {
    assert (ids + [m])[|ids|] == m;
    forall x | x in s ensures x in ids + [m] { assert x in ids; }
  }

  ghost function HomBelow(t: Table, x: nat, y: nat, n: nat): set<nat> {
    set m | 0 <= m < n && m < |t.mors| && t.mors[m] == Arrow(x, y)
  }

  lemma HomStep(t: Table, x: nat, y: nat, i: nat)
    requires i < |t.mors|
    ensures i !in HomBelow(t, x, y, i)
    ensures HomBelow(t, x, y, i + 1) == if t.mors[i] == Arrow(x, y) then HomBelow(t, x, y, i) + {i} else HomBelow(t, x, y, i)
  {
    forall m ensures m in HomBelow(t, x, y, i + 1) <==> m in HomBelow(t, x, y, i) || (m == i && t.mors[i] == Arrow(x, y)) {}
  }

  lemma HomAll(t: Table, x: nat, y: nat)
    ensures HomBelow(t, x, y, |t.mors|) == Hom(t, x, y)
  {
  }

  lemma MediatorsAdd(t: Table, arrows: set<nat>, pa: nat, pb: nat, k: Cone, i: nat)
    requires i !in arrows
    ensures var before := Mediators(t, arrows, pa, pb, k);
            && i !in before
            && Mediators(t, arrows + {i}, pa, pb, k) == if Legs(t, pa, pb, i) == k then before + {i} else before
  {
    var before, after := Mediators(t, arrows, pa, pb, k), Mediators(t, arrows + {i}, pa, pb, k);
    forall m ensures m in after <==> m in before || (m == i && Legs(t, pa, pb, i) == k) {}
  }

  /** hom_count. */
  method HomCount(t: Table, x: nat, y: nat) returns (n: nat)
    ensures n == |Hom(t, x, y)|
  {
    n := 0;
    for i := 0 to |t.mors|
      invariant n == |HomBelow(t, x, y, i)|
    {
      if t.mors[i].dom == x && t.mors[i].cod == y {
        assert HomBelow(t, x, y, i + 1) == HomBelow(t, x, y, i) + {i};
        n := n + 1;
      } else {
        assert HomBelow(t, x, y, i + 1) == HomBelow(t, x, y, i);
      }
    }
    assert HomBelow(t, x, y, |t.mors|) == Hom(t, x, y);
  }

  /** gather_indices. */
  method Gather(t: Table, x: nat, y: nat) returns (ids: seq<nat>)
    ensures Lists(ids, Hom(t, x, y))
  {
    ids := [];
    for i := 0 to |t.mors|
      invariant Lists(ids, HomBelow(t, x, y, i))
    {
      if t.mors[i].dom == x && t.mors[i].cod == y {
        assert HomBelow(t, x, y, i + 1) == HomBelow(t, x, y, i) + {i};
        ListsAdd(ids, HomBelow(t, x, y, i), i);
        ids := ids + [i];
      } else {
        assert HomBelow(t, x, y, i + 1) == HomBelow(t, x, y, i);
      }
    }
    assert HomBelow(t, x, y, |t.mors|) == Hom(t, x, y);
  }

  method Compose(t: Table, g: nat, f: nat) returns (gf: nat)
    requires IsCategory(t) && Composable(t, g, f)
    ensures gf == Comp(t, g, f)
  {
    var r := StoreComp(t, g, f);
    assert UniqueRow(t.comps, g, f);
    gf := r.mor;
  }

  /** count_mediators: the arrows x -> p through which the cone (xa, xb) factors. */
  method CountMediators(t: Table, x: nat, p: nat, a: nat, b: nat, pa: nat, pb: nat, xa: nat, xb: nat) returns (n: nat, last: nat)
    requires IsCategory(t) && pa in Hom(t, p, a) && pb in Hom(t, p, b)
    ensures n == |Mediators(t, Hom(t, x, p), pa, pb, (xa, xb))|
    ensures n > 0 ==> last in Mediators(t, Hom(t, x, p), pa, pb, (xa, xb))
  {
    n, last := 0, 0;
    ghost var k := (xa, xb);
    for i := 0 to |t.mors|
      invariant n == |Mediators(t, HomBelow(t, x, p, i), pa, pb, k)|
      invariant n > 0 ==> last in Mediators(t, HomBelow(t, x, p, i), pa, pb, k)
    {
      HomStep(t, x, p, i);
      MediatorsAdd(t, HomBelow(t, x, p, i), pa, pb, k, i);
      if t.mors[i].dom == x && t.mors[i].cod == p {
        HomComposes(t, x, p, a, pa, i);
        HomComposes(t, x, p, b, pb, i);
        var c1 := Compose(t, pa, i);
        var c2 := Compose(t, pb, i);
        if c1 == xa && c2 == xb {
          n, last := n + 1, i;
        }
      }
    }
    HomAll(t, x, p);
  }

  /** factor_mediator: the unique mediator of a cone, if it is unique. */
  method FactorMediator(t: Table, x: nat, p: nat, a: nat, b: nat, pa: nat, pb: nat, xa: nat, xb: nat) returns (m: Option<nat>)
    requires IsCategory(t) && pa in Hom(t, p, a) && pb in Hom(t, p, b)
    ensures m.Some? <==> OneMediator(t, Hom(t, x, p), pa, pb, (xa, xb))
    ensures m.Some? ==> m.value in Hom(t, x, p) && Legs(t, pa, pb, m.value) == (xa, xb)
    ensures m.Some? ==> forall m' :: m' in Hom(t, x, p) && Legs(t, pa, pb, m') == (xa, xb) ==> m' == m.value
  {
    var n, last := CountMediators(t, x, p, a, b, pa, pb, xa, xb);
    if n != 1 { return None; }
    ghost var s := Mediators(t, Hom(t, x, p), pa, pb, (xa, xb));
    forall m' | m' in Hom(t, x, p) && Legs(t, pa, pb, m') == (xa, xb) ensures m' == last {
      assert m' in s;
      OneElement(s, m', last);
    }
    return Some(last);
  }

  lemma OneElement(s: set<nat>, x: nat, y: nat)
    requires |s| == 1 && x in s && y in s
    ensures x == y
  {
    assert |s - {x}| == 0;
  }

  // ---- products ----

  /** pair_covered: every b-leg beside xa has a mediator. */
  method PairCovered(t: Table, y: nat, p: nat, a: nat, b: nat, pa: nat, pb: nat, xa: nat, bids: seq<nat>) returns (ok: bool)
    requires IsCategory(t) && pa in Hom(t, p, a) && pb in Hom(t, p, b)
    ensures ok <==> forall j :: 0 <= j < |bids| ==> SomeMediator(t, Hom(t, y, p), pa, pb, (xa, bids[j]))
  {
    for k := 0 to |bids|
      invariant forall j :: 0 <= j < k ==> SomeMediator(t, Hom(t, y, p), pa, pb, (xa, bids[j]))
    {
      var n, last := CountMediators(t, y, p, a, b, pa, pb, xa, bids[k]);
      if n == 0 { return false; }
    }
    return true;
  }

  /** The loop of obj_check: every pair of legs has a mediator. */
  method ProductCovered(t: Table, y: nat, p: nat, a: nat, b: nat, pa: nat, pb: nat) returns (ok: bool)
    requires IsCategory(t) && pa in Hom(t, p, a) && pb in Hom(t, p, b)
    ensures ok <==> Surjective(t, Hom(t, y, p), pa, pb, ProductCones(t, y, a, b))
  {
    ghost var arrows, cones := Hom(t, y, p), ProductCones(t, y, a, b);
    var aids := Gather(t, y, a);
    var bids := Gather(t, y, b);
    for j := 0 to |aids|
      invariant forall i, k :: 0 <= i < j && 0 <= k < |bids| ==> SomeMediator(t, arrows, pa, pb, (aids[i], bids[k]))
    {
      ok := PairCovered(t, y, p, a, b, pa, pb, aids[j], bids);
      if !ok {
        ghost var k :| 0 <= k < |bids| && !SomeMediator(t, arrows, pa, pb, (aids[j], bids[k]));
        assert (aids[j], bids[k]) in cones;
        return false;
      }
    }
    forall k | k in cones ensures SomeMediator(t, arrows, pa, pb, k) {
      var i :| 0 <= i < |aids| && aids[i] == k.0;
      var j :| 0 <= j < |bids| && bids[j] == k.1;
    }
    return true;
  }

  /** obj_check: as many arrows as cones, and every cone has a mediator. */
  method ObjCheck(t: Table, y: nat, p: nat, a: nat, b: nat, pa: nat, pb: nat) returns (ok: bool)
    requires IsCategory(t) && pa in Hom(t, p, a) && pb in Hom(t, p, b)
    ensures ok <==> Bijective(t, Hom(t, y, p), pa, pb, ProductCones(t, y, a, b))
  {
    ProductInto(t, y, p, a, b, pa, pb);
    CountDecides(t, Hom(t, y, p), pa, pb, ProductCones(t, y, a, b));
    PairsCount(Hom(t, y, a), Hom(t, y, b));
    var npy := HomCount(t, y, p);
    var na := HomCount(t, y, a);
    var nb := HomCount(t, y, b);
    if npy != na * nb { return false; }
    ok := ProductCovered(t, y, p, a, b, pa, pb);
  }

  /** is_product. */
  method ProductCheck(t: Table, p: nat, a: nat, b: nat, pa: nat, pb: nat) returns (ok: bool)
    requires IsCategory(t) && p < |t.ident| && pa in Hom(t, p, a) && pb in Hom(t, p, b)
    ensures ok <==> IsProduct(t, p, a, b, pa, pb)
  {
    for y := 0 to |t.ident|
      invariant forall x {:trigger ProductCones(t, x, a, b)} :: 0 <= x < y ==> Bijective(t, Hom(t, x, p), pa, pb, ProductCones(t, x, a, b))
    {
      ok := ObjCheck(t, y, p, a, b, pa, pb);
      if !ok { return; }
    }
    return true;
  }

  datatype Limit = Limit(apex: nat, legA: nat, legB: nat)

  /** What a finder reports: a foreign object or arrow, arrows that do not meet, or the search's result. */
  datatype Outcome = Invalid | Domain | NotFound | Found(limit: Limit)

  /** try_apex: every pair of legs from one apex. */
  method TryApex(t: Table, a: nat, b: nat, p: nat) returns (r: Option<Limit>)
    requires IsCategory(t) && p < |t.ident|
    ensures r.Some? ==> r.value.apex == p && IsProduct(t, p, a, b, r.value.legA, r.value.legB)
    ensures r.None? ==> forall pa, pb :: !IsProduct(t, p, a, b, pa, pb)
  {
    var aids := Gather(t, p, a);
    var bids := Gather(t, p, b);
    for j := 0 to |aids|
      invariant forall i, x :: 0 <= i < j && 0 <= x < |bids| ==> !IsProduct(t, p, a, b, aids[i], bids[x])
    {
      for k := 0 to |bids|
        invariant forall x :: 0 <= x < k ==> !IsProduct(t, p, a, b, aids[j], bids[x])
      {
        var ok := ProductCheck(t, p, a, b, aids[j], bids[k]);
        if ok { return Some(Limit(p, aids[j], bids[k])); }
      }
    }
    forall pa, pb ensures !IsProduct(t, p, a, b, pa, pb) {
      if pa in Hom(t, p, a) && pb in Hom(t, p, b) {
        var i :| 0 <= i < |aids| && aids[i] == pa;
        var j :| 0 <= j < |bids| && bids[j] == pb;
      }
    }
    return None;
  }

  /** search_product: succeeds exactly when a product exists, with a product. */
  method SearchProduct(t: Table, a: nat, b: nat) returns (r: Option<Limit>)
    requires IsCategory(t)
    ensures r.Some? ==> IsProduct(t, r.value.apex, a, b, r.value.legA, r.value.legB)
    ensures r.None? ==> forall p, pa, pb :: !IsProduct(t, p, a, b, pa, pb)
  {
    for p := 0 to |t.ident|
      invariant forall x, pa, pb :: 0 <= x < p ==> !IsProduct(t, x, a, b, pa, pb)
    {
      r := TryApex(t, a, b, p);
      if r.Some? { return; }
    }
    return None;
  }

  // ---- equalizers ----

  ghost function Undistinguished(t: Table, f: nat, g: nat, arrows: set<nat>): set<nat> {
    set m | m in arrows && Commutes(t, f, g, (m, m))
  }

  ghost function Equalizing(t: Table, w: nat, f: nat, g: nat): set<nat>
    requires IsMor(t, f)
  {
    Undistinguished(t, f, g, Hom(t, w, t.mors[f].dom))
  }

  lemma UndistinguishedAdd(t: Table, f: nat, g: nat, arrows: set<nat>, i: nat)
    requires i !in arrows
    ensures var before := Undistinguished(t, f, g, arrows);
            && i !in before
            && Undistinguished(t, f, g, arrows + {i}) == if Commutes(t, f, g, (i, i)) then before + {i} else before
  {
    var before, after := Undistinguished(t, f, g, arrows), Undistinguished(t, f, g, arrows + {i});
    forall m ensures m in after <==> m in before || (m == i && Commutes(t, f, g, (i, i))) {}
  }

  /** eqz_gather: the arrows w -> x that f and g do not distinguish. */
  method GatherEqualizing(t: Table, w: nat, f: nat, g: nat) returns (ids: seq<nat>)
    requires IsCategory(t) && Parallel(t, f, g)
    ensures Lists(ids, Equalizing(t, w, f, g))
  {
    var x := t.mors[f].dom;
    ids := [];
    for i := 0 to |t.mors|
      invariant Lists(ids, Undistinguished(t, f, g, HomBelow(t, w, x, i)))
    {
      ghost var before := HomBelow(t, w, x, i);
      HomStep(t, w, x, i);
      UndistinguishedAdd(t, f, g, before, i);
      if t.mors[i].dom == w && t.mors[i].cod == x {
        var c1 := Compose(t, f, i);
        var c2 := Compose(t, g, i);
        if c1 == c2 {
          ListsAdd(ids, Undistinguished(t, f, g, before), i);
          ids := ids + [i];
        }
      }
    }
    HomAll(t, w, x);
  }

  ghost function Diagonal(s: set<nat>): set<Cone> {
    set x | x in s :: (x, x)
  }

  lemma {:induction false} DiagonalCount(s: set<nat>)
    ensures |Diagonal(s)| == |s|
    decreases |s|
  {
    if s == {} {
      assert Diagonal(s) == {};
    } else {
      var y :| y in s;
      DiagonalCount(s - {y});
      assert Diagonal(s) == Diagonal(s - {y}) + {(y, y)};
      assert (y, y) !in Diagonal(s - {y});
    }
  }

  lemma EqualizerConesCount(t: Table, y: nat, f: nat, g: nat)
    requires Parallel(t, f, g)
    ensures EqualizerCones(t, y, f, g) == Diagonal(Equalizing(t, y, f, g))
    ensures |EqualizerCones(t, y, f, g)| == |Equalizing(t, y, f, g)|
  {
    DiagonalCount(Equalizing(t, y, f, g));
    assert EqualizerCones(t, y, f, g) == Diagonal(Equalizing(t, y, f, g));
  }

  /** eqz_covered: every listed arrow has a mediator. */
  method EqualizerCovered(t: Table, w: nat, p: nat, x: nat, e: nat, ids: seq<nat>, ghost s: set<nat>) returns (ok: bool)
    requires IsCategory(t) && e in Hom(t, p, x) && Lists(ids, s)
    ensures ok <==> Surjective(t, Hom(t, w, p), e, e, Diagonal(s))
  {
    ghost var arrows := Hom(t, w, p);
    for k := 0 to |ids|
      invariant forall j :: 0 <= j < k ==> SomeMediator(t, arrows, e, e, (ids[j], ids[j]))
    {
      var n, last := CountMediators(t, w, p, x, x, e, e, ids[k], ids[k]);
      if n == 0 {
        assert (ids[k], ids[k]) in Diagonal(s) && !SomeMediator(t, arrows, e, e, (ids[k], ids[k]));
        return false;
      }
    }
    forall k | k in Diagonal(s) ensures SomeMediator(t, arrows, e, e, k) {
      assert k.0 in ids;
      var j :| 0 <= j < |ids| && ids[j] == k.0;
    }
    return true;
  }

  /** eqz_obj_ok. */
  method EqualizerObjCheck(t: Table, w: nat, p: nat, e: nat, f: nat, g: nat) returns (ok: bool)
    requires IsCategory(t) && Parallel(t, f, g) && e in Hom(t, p, t.mors[f].dom) && Commutes(t, f, g, (e, e))
    ensures ok <==> Bijective(t, Hom(t, w, p), e, e, EqualizerCones(t, w, f, g))
  {
    ghost var arrows, cones := Hom(t, w, p), EqualizerCones(t, w, f, g);
    var x := t.mors[f].dom;
    EqualizerInto(t, w, p, f, g, e);
    CountDecides(t, arrows, e, e, cones);
    EqualizerConesCount(t, w, f, g);
    var eqi := GatherEqualizing(t, w, f, g);
    var na := HomCount(t, w, p);
    if na != |eqi| { return false; }
    ok := EqualizerCovered(t, w, p, x, e, eqi, Equalizing(t, w, f, g));
  }

  /** is_equalizer. */
  method EqualizerCheck(t: Table, p: nat, f: nat, g: nat, e: nat) returns (ok: bool)
    requires IsCategory(t) && Parallel(t, f, g) && p < |t.ident| && e in Hom(t, p, t.mors[f].dom)
    ensures ok <==> IsEqualizer(t, p, f, g, e)
  {
    var c1 := Compose(t, f, e);
    var c2 := Compose(t, g, e);
    if c1 != c2 { return false; }
    for y := 0 to |t.ident|
      invariant forall x {:trigger EqualizerCones(t, x, f, g)} :: 0 <= x < y ==> Bijective(t, Hom(t, x, p), e, e, EqualizerCones(t, x, f, g))
    {
      ok := EqualizerObjCheck(t, y, p, e, f, g);
      if !ok { return; }
    }
    return true;
  }

  /** search_equalizer. */
  method SearchEqualizer(t: Table, f: nat, g: nat) returns (r: Option<Limit>)
    requires IsCategory(t) && Parallel(t, f, g)
    ensures r.Some? ==> r.value.legA == r.value.legB && IsEqualizer(t, r.value.apex, f, g, r.value.legA)
    ensures r.None? ==> forall p, e :: !IsEqualizer(t, p, f, g, e)
  {
    for p := 0 to |t.ident|
      invariant forall x, e :: 0 <= x < p ==> !IsEqualizer(t, x, f, g, e)
    {
      var ids := Gather(t, p, t.mors[f].dom);
      for j := 0 to |ids|
        invariant forall i :: 0 <= i < j ==> !IsEqualizer(t, p, f, g, ids[i])
      {
        var ok := EqualizerCheck(t, p, f, g, ids[j]);
        if ok { return Some(Limit(p, ids[j], ids[j])); }
      }
      forall e ensures !IsEqualizer(t, p, f, g, e) {
        if e in Hom(t, p, t.mors[f].dom) { var i :| 0 <= i < |ids| && ids[i] == e; }
      }
    }
    return None;
  }

  // ---- pullbacks ----

  /** The commuting cones with legs from the two sets. */
  ghost function CommutingPairs(t: Table, f: nat, g: nat, a: set<nat>, b: set<nat>): set<Cone> {
    set k | k in Pairs(a, b) && Commutes(t, f, g, k)
  }

  /** The first n listed elements. */
  ghost function Elems(ids: seq<nat>, n: nat): set<nat> {
    set i | 0 <= i < n && i < |ids| :: ids[i]
  }

  lemma ElemsStep(ids: seq<nat>, s: set<nat>, j: nat)
    requires Lists(ids, s) && j < |ids|
    ensures Elems(ids, j + 1) == Elems(ids, j) + {ids[j]} && ids[j] !in Elems(ids, j)
  {
    forall x ensures x in Elems(ids, j + 1) <==> x in Elems(ids, j) + {ids[j]} {}
  }

  lemma ElemsAll(ids: seq<nat>, s: set<nat>)
    requires Lists(ids, s)
    ensures Elems(ids, |ids|) == s
  {
    forall x | x in s ensures x in Elems(ids, |ids|) { assert x in ids; }
  }

  lemma PairsAddSecond(t: Table, f: nat, g: nat, xa: nat, b: set<nat>, y: nat)
    requires y !in b
    ensures var before := CommutingPairs(t, f, g, {xa}, b);
            && (xa, y) !in before
            && CommutingPairs(t, f, g, {xa}, b + {y}) == if Commutes(t, f, g, (xa, y)) then before + {(xa, y)} else before
  {
    var before, after := CommutingPairs(t, f, g, {xa}, b), CommutingPairs(t, f, g, {xa}, b + {y});
    forall k ensures k in after <==> k in before || (k == (xa, y) && Commutes(t, f, g, k)) {}
  }

  lemma PairsAddFirst(t: Table, f: nat, g: nat, a: set<nat>, x: nat, b: set<nat>)
    requires x !in a
    ensures var before, extra := CommutingPairs(t, f, g, a, b), CommutingPairs(t, f, g, {x}, b);
            CommutingPairs(t, f, g, a + {x}, b) == before + extra && |before + extra| == |before| + |extra|
  {
    var before, extra := CommutingPairs(t, f, g, a, b), CommutingPairs(t, f, g, {x}, b);
    var after := CommutingPairs(t, f, g, a + {x}, b);
    forall k ensures k in after <==> k in before + extra {}
    assert before !! extra;
  }

  /** The inner loop of pb_obj_check: the cones that have xa as first leg. */
  method PullbackRow(t: Table, w: nat, p: nat, f: nat, g: nat, pa: nat, pb: nat, xa: nat, yids: seq<nat>) returns (n: nat, ok: bool)
    requires IsCategory(t) && Cospan(t, f, g) && xa in Hom(t, w, t.mors[f].dom) && Lists(yids, Hom(t, w, t.mors[g].dom))
    requires pa in Hom(t, p, t.mors[f].dom) && pb in Hom(t, p, t.mors[g].dom)
    ensures n == |CommutingPairs(t, f, g, {xa}, Hom(t, w, t.mors[g].dom))|
    ensures ok <==> Surjective(t, Hom(t, w, p), pa, pb, CommutingPairs(t, f, g, {xa}, Hom(t, w, t.mors[g].dom)))
  {
    n, ok := 0, true;
    ghost var arrows, ys := Hom(t, w, p), Hom(t, w, t.mors[g].dom);
    for j := 0 to |yids|
      invariant n == |CommutingPairs(t, f, g, {xa}, Elems(yids, j))|
      invariant ok <==> Surjective(t, arrows, pa, pb, CommutingPairs(t, f, g, {xa}, Elems(yids, j)))
    {
      ElemsStep(yids, ys, j);
      PairsAddSecond(t, f, g, xa, Elems(yids, j), yids[j]);
      assert yids[j] in ys;
      var c1 := Compose(t, f, xa);
      var c2 := Compose(t, g, yids[j]);
      if c1 == c2 {
        var m, last := CountMediators(t, w, p, t.mors[f].dom, t.mors[g].dom, pa, pb, xa, yids[j]);
        SurjectiveAdd(t, arrows, pa, pb, CommutingPairs(t, f, g, {xa}, Elems(yids, j)), (xa, yids[j]));
        if m == 0 { ok := false; }
        n := n + 1;
      }
    }
    ElemsAll(yids, ys);
  }

  lemma SurjectiveAdd(t: Table, arrows: set<nat>, pa: nat, pb: nat, cones: set<Cone>, k: Cone)
    ensures Surjective(t, arrows, pa, pb, cones + {k}) <==> Surjective(t, arrows, pa, pb, cones) && SomeMediator(t, arrows, pa, pb, k)
  {
  }

  lemma SurjectiveUnion(t: Table, arrows: set<nat>, pa: nat, pb: nat, c: set<Cone>, d: set<Cone>)
    ensures Surjective(t, arrows, pa, pb, c + d) <==> Surjective(t, arrows, pa, pb, c) && Surjective(t, arrows, pa, pb, d)
  {
  }

  /** The two loops of pb_obj_check: how many cones commute, and whether each has a mediator. */
  method PullbackScan(t: Table, w: nat, p: nat, f: nat, g: nat, pa: nat, pb: nat) returns (nc: nat, ok: bool)
    requires IsCategory(t) && Cospan(t, f, g)
    requires pa in Hom(t, p, t.mors[f].dom) && pb in Hom(t, p, t.mors[g].dom)
    ensures nc == |CommutingPairs(t, f, g, Hom(t, w, t.mors[f].dom), Hom(t, w, t.mors[g].dom))|
    ensures ok <==> Surjective(t, Hom(t, w, p), pa, pb, CommutingPairs(t, f, g, Hom(t, w, t.mors[f].dom), Hom(t, w, t.mors[g].dom)))
  {
    var xids := Gather(t, w, t.mors[f].dom);
    var yids := Gather(t, w, t.mors[g].dom);
    nc, ok := 0, true;
    ghost var arrows, xs, ys := Hom(t, w, p), Hom(t, w, t.mors[f].dom), Hom(t, w, t.mors[g].dom);
    for i := 0 to |xids|
      invariant nc == |CommutingPairs(t, f, g, Elems(xids, i), ys)|
      invariant ok <==> Surjective(t, arrows, pa, pb, CommutingPairs(t, f, g, Elems(xids, i), ys))
    {
      ElemsStep(xids, xs, i);
      PairsAddFirst(t, f, g, Elems(xids, i), xids[i], ys);
      assert xids[i] in xs;
      var n, row := PullbackRow(t, w, p, f, g, pa, pb, xids[i], yids);
      SurjectiveUnion(t, arrows, pa, pb, CommutingPairs(t, f, g, Elems(xids, i), ys), CommutingPairs(t, f, g, {xids[i]}, ys));
      nc := nc + n;
      ok := ok && row;
    }
    ElemsAll(xids, xs);
  }

  lemma PullbackConesPairs(t: Table, w: nat, f: nat, g: nat)
    requires Cospan(t, f, g)
    ensures PullbackCones(t, w, f, g) == CommutingPairs(t, f, g, Hom(t, w, t.mors[f].dom), Hom(t, w, t.mors[g].dom))
  {
  }

  /** pb_obj_check. */
  method PullbackObjCheck(t: Table, w: nat, p: nat, f: nat, g: nat, pa: nat, pb: nat) returns (ok: bool)
    requires IsCategory(t) && Cospan(t, f, g)
    requires pa in Hom(t, p, t.mors[f].dom) && pb in Hom(t, p, t.mors[g].dom) && Commutes(t, f, g, (pa, pb))
    ensures ok <==> Bijective(t, Hom(t, w, p), pa, pb, PullbackCones(t, w, f, g))
  {
    PullbackInto(t, w, p, f, g, pa, pb);
    CountDecides(t, Hom(t, w, p), pa, pb, PullbackCones(t, w, f, g));
    PullbackConesPairs(t, w, f, g);
    var npa := HomCount(t, w, p);
    var nc, all := PullbackScan(t, w, p, f, g, pa, pb);
    ok := all;
    if ok && nc != npa { ok := false; }
  }

  /** is_pullback. */
  method PullbackCheck(t: Table, p: nat, f: nat, g: nat, pa: nat, pb: nat) returns (ok: bool)
    requires IsCategory(t) && Cospan(t, f, g) && p < |t.ident|
    requires pa in Hom(t, p, t.mors[f].dom) && pb in Hom(t, p, t.mors[g].dom)
    ensures ok <==> IsPullback(t, p, f, g, pa, pb)
  {
    var c1 := Compose(t, f, pa);
    var c2 := Compose(t, g, pb);
    if c1 != c2 { return false; }
    for y := 0 to |t.ident|
      invariant forall x {:trigger PullbackCones(t, x, f, g)} :: 0 <= x < y ==> Bijective(t, Hom(t, x, p), pa, pb, PullbackCones(t, x, f, g))
    {
      ok := PullbackObjCheck(t, y, p, f, g, pa, pb);
      if !ok { return; }
    }
    return true;
  }

  /** The two inner loops of search_pullback: every pair of legs from one apex. */
  method TryPullbackApex(t: Table, f: nat, g: nat, p: nat) returns (r: Option<Limit>)
    requires IsCategory(t) && Cospan(t, f, g) && p < |t.ident|
    ensures r.Some? ==> r.value.apex == p && IsPullback(t, p, f, g, r.value.legA, r.value.legB)
    ensures r.None? ==> forall pa, pb :: !IsPullback(t, p, f, g, pa, pb)
  {
    var xids := Gather(t, p, t.mors[f].dom);
    var yids := Gather(t, p, t.mors[g].dom);
    for j := 0 to |xids|
      invariant forall i, x :: 0 <= i < j && 0 <= x < |yids| ==> !IsPullback(t, p, f, g, xids[i], yids[x])
    {
      for k := 0 to |yids|
        invariant forall x :: 0 <= x < k ==> !IsPullback(t, p, f, g, xids[j], yids[x])
      {
        var ok := PullbackCheck(t, p, f, g, xids[j], yids[k]);
        if ok { return Some(Limit(p, xids[j], yids[k])); }
      }
    }
    forall pa, pb ensures !IsPullback(t, p, f, g, pa, pb) {
      if pa in Hom(t, p, t.mors[f].dom) && pb in Hom(t, p, t.mors[g].dom) {
        var i :| 0 <= i < |xids| && xids[i] == pa;
        var j :| 0 <= j < |yids| && yids[j] == pb;
      }
    }
    return None;
  }

  /** search_pullback. */
  method SearchPullback(t: Table, f: nat, g: nat) returns (r: Option<Limit>)
    requires IsCategory(t) && Cospan(t, f, g)
    ensures r.Some? ==> IsPullback(t, r.value.apex, f, g, r.value.legA, r.value.legB)
    ensures r.None? ==> forall p, pa, pb :: !IsPullback(t, p, f, g, pa, pb)
  {
    for p := 0 to |t.ident|
      invariant forall x, pa, pb :: 0 <= x < p ==> !IsPullback(t, x, f, g, pa, pb)
    {
      r := TryPullbackApex(t, f, g, p);
      if r.Some? { return; }
    }
    return None;
  }

  // ---- the finders ----

  /** cat89_find_product: succeeds exactly when a product exists, with a product. */
  method FindProduct(t: Table, a: nat, b: nat) returns (r: Outcome)
    requires IsCategory(t)
    ensures r != Domain && (r == Invalid <==> !(a < |t.ident| && b < |t.ident|))
    ensures r.Found? ==> IsProduct(t, r.limit.apex, a, b, r.limit.legA, r.limit.legB)
    ensures r.NotFound? ==> forall p, pa, pb :: !IsProduct(t, p, a, b, pa, pb)
  {
    if a >= |t.ident| || b >= |t.ident| { return Invalid; }
    var found := SearchProduct(t, a, b);
    return if found.Some? then Found(found.value) else NotFound;
  }

  /** cat89_find_equalizer. */
  method FindEqualizer(t: Table, f: nat, g: nat) returns (r: Outcome)
    requires IsCategory(t)
    ensures r == Invalid <==> !(IsMor(t, f) && IsMor(t, g))
    ensures r == Domain <==> IsMor(t, f) && IsMor(t, g) && !Parallel(t, f, g)
    ensures r.Found? ==> Parallel(t, f, g) && IsEqualizer(t, r.limit.apex, f, g, r.limit.legA)
    ensures r.NotFound? ==> Parallel(t, f, g) && forall p, e :: !IsEqualizer(t, p, f, g, e)
  {
    if f >= |t.mors| || g >= |t.mors| { return Invalid; }
    if t.mors[f].dom != t.mors[g].dom || t.mors[f].cod != t.mors[g].cod { return Domain; }
    var found := SearchEqualizer(t, f, g);
    return if found.Some? then Found(found.value) else NotFound;
  }

  /** cat89_find_pullback. */
  method FindPullback(t: Table, f: nat, g: nat) returns (r: Outcome)
    requires IsCategory(t)
    ensures r == Invalid <==> !(IsMor(t, f) && IsMor(t, g))
    ensures r == Domain <==> IsMor(t, f) && IsMor(t, g) && !Cospan(t, f, g)
    ensures r.Found? ==> Cospan(t, f, g) && IsPullback(t, r.limit.apex, f, g, r.limit.legA, r.limit.legB)
    ensures r.NotFound? ==> Cospan(t, f, g) && forall p, pa, pb :: !IsPullback(t, p, f, g, pa, pb)
  {
    if f >= |t.mors| || g >= |t.mors| { return Invalid; }
    if t.mors[f].cod != t.mors[g].cod { return Domain; }
    var found := SearchPullback(t, f, g);
    return if found.Some? then Found(found.value) else NotFound;
  }
}
