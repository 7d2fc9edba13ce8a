/** The finders for coproducts, coequalizers and pushouts (libcat89/src/findlim.c), whose
    properties are those of the opposite category. */
module FindColimits {
  import opened Common
  import opened FiniteCategory
  import opened UniversalTheory
  import opened FindLimits

  /** The cocone that u : s -> y induces on the two injections. */
  ghost function Colegs(t: Table, ia: nat, ib: nat, u: nat): Cone {
    (Comp(t, u, ia), Comp(t, u, ib))
  }

  /** evaluate_col, counted over an arrow set. */
  ghost function Comediators(t: Table, arrows: set<nat>, ia: nat, ib: nat, k: Cone): set<nat> {
    set u | u in arrows && Colegs(t, ia, ib, u) == k
  }

  ghost function CoproductCocones(t: Table, y: nat, a: nat, b: nat): set<Cone> {
    Pairs(Hom(t, a, y), Hom(t, b, y))
  }

  ghost predicate Cocommutes(t: Table, f: nat, g: nat, k: Cone) {
    Comp(t, k.0, f) == Comp(t, k.1, g)
  }

  ghost function PushoutCocones(t: Table, y: nat, f: nat, g: nat): set<Cone>
    requires IsMor(t, f) && IsMor(t, g)
  {
    set k | k in CoproductCocones(t, y, t.mors[f].cod, t.mors[g].cod) && Cocommutes(t, f, g, k)
  }

  ghost function CoequalizerCocones(t: Table, y: nat, f: nat, g: nat): set<Cone>
    requires IsMor(t, f) && IsMor(t, g)
  {
    set x | x in Hom(t, t.mors[f].cod, y) && Cocommutes(t, f, g, (x, x)) :: (x, x)
  }

  /** Each cocone factors through exactly one arrow s -> y. */
  ghost predicate UniqueFactors(t: Table, arrows: set<nat>, ia: nat, ib: nat, cocones: set<Cone>) {
    forall k :: k in cocones ==> |Comediators(t, arrows, ia, ib, k)| == 1
  }

  ghost predicate SomeFactor(t: Table, arrows: set<nat>, ia: nat, ib: nat, k: Cone) {
    Comediators(t, arrows, ia, ib, k) != {}
  }

  /** Each cocone factors through some arrow. */
  ghost predicate AllFactor(t: Table, arrows: set<nat>, ia: nat, ib: nat, cocones: set<Cone>) {
    forall k {:trigger SomeFactor(t, arrows, ia, ib, k)} :: k in cocones ==> SomeFactor(t, arrows, ia, ib, k)
  }

  /** What the dual object checks compare: cardinalities, and some comediator for every cocone. */
  ghost predicate DualCheck(t: Table, arrows: set<nat>, ia: nat, ib: nat, cocones: set<Cone>) {
    |arrows| == |cocones| && AllFactor(t, arrows, ia, ib, cocones)
  }

  ghost predicate IsCoproduct(t: Table, s: nat, a: nat, b: nat, ia: nat, ib: nat) {
    && s < |t.ident| && ia in Hom(t, a, s) && ib in Hom(t, b, s)
    && forall y {:trigger CoproductCocones(t, y, a, b)} :: 0 <= y < |t.ident| ==> UniqueFactors(t, Hom(t, s, y), ia, ib, CoproductCocones(t, y, a, b))
  }

  ghost predicate Span(t: Table, f: int, g: int) {
    IsMor(t, f) && IsMor(t, g) && t.mors[f].dom == t.mors[g].dom
  }

  ghost predicate IsPushout(t: Table, s: nat, f: nat, g: nat, ia: nat, ib: nat)
    requires Span(t, f, g)
  {
    && s < |t.ident| && ia in Hom(t, t.mors[f].cod, s) && ib in Hom(t, t.mors[g].cod, s) && Cocommutes(t, f, g, (ia, ib))
    && forall y {:trigger PushoutCocones(t, y, f, g)} :: 0 <= y < |t.ident| ==> UniqueFactors(t, Hom(t, s, y), ia, ib, PushoutCocones(t, y, f, g))
  }

  ghost predicate IsCoequalizer(t: Table, s: nat, f: nat, g: nat, c: nat)
    requires Parallel(t, f, g)
  {
    && s < |t.ident| && c in Hom(t, t.mors[f].cod, s) && Cocommutes(t, f, g, (c, c))
    && forall y {:trigger CoequalizerCocones(t, y, f, g)} :: 0 <= y < |t.ident| ==> UniqueFactors(t, Hom(t, s, y), c, c, CoequalizerCocones(t, y, f, g))
  }

  // ---- the opposite category ----

  lemma OppositeHom(t: Table, x: nat, y: nat)
    ensures Hom(Opposite(t), x, y) == Hom(t, y, x)
  {
  }

  lemma OppositeMediators(t: Table, arrows: set<nat>, ia: nat, ib: nat, k: Cone)
    ensures Mediators(Opposite(t), arrows, ia, ib, k) == Comediators(t, arrows, ia, ib, k)
  {
    forall u ensures Legs(Opposite(t), ia, ib, u) == Colegs(t, ia, ib, u) {
      OppositeComp(t, u, ia);
      OppositeComp(t, u, ib);
    }
  }

  lemma OppositeUnique(t: Table, arrows: set<nat>, ia: nat, ib: nat, cocones: set<Cone>)
    ensures Bijective(Opposite(t), arrows, ia, ib, cocones) <==> UniqueFactors(t, arrows, ia, ib, cocones)
    ensures Surjective(Opposite(t), arrows, ia, ib, cocones) <==> AllFactor(t, arrows, ia, ib, cocones)
  {
    forall k
      ensures OneMediator(Opposite(t), arrows, ia, ib, k) <==> |Comediators(t, arrows, ia, ib, k)| == 1
      ensures SomeMediator(Opposite(t), arrows, ia, ib, k) <==> SomeFactor(t, arrows, ia, ib, k)
    {
      OppositeMediators(t, arrows, ia, ib, k);
    }
  }

  lemma OppositeCommutes(t: Table, f: nat, g: nat, k: Cone)
    ensures Commutes(Opposite(t), f, g, k) <==> Cocommutes(t, f, g, k)
  {
    OppositeComp(t, k.0, f);
    OppositeComp(t, k.1, g);
  }

  lemma OppositePushoutCones(t: Table, y: nat, f: nat, g: nat)
    requires IsMor(t, f) && IsMor(t, g)
    ensures PullbackCones(Opposite(t), y, f, g) == PushoutCocones(t, y, f, g)
  {
    OppositeHom(t, y, t.mors[f].cod);
    OppositeHom(t, y, t.mors[g].cod);
    forall k ensures k in PullbackCones(Opposite(t), y, f, g) <==> k in PushoutCocones(t, y, f, g) { OppositeCommutes(t, f, g, k); }
  }

  lemma OppositeCoequalizerCones(t: Table, y: nat, f: nat, g: nat)
    requires IsMor(t, f) && IsMor(t, g)
    ensures EqualizerCones(Opposite(t), y, f, g) == CoequalizerCocones(t, y, f, g)
  {
    OppositeHom(t, y, t.mors[f].cod);
    forall x: nat ensures Commutes(Opposite(t), f, g, (x, x)) <==> Cocommutes(t, f, g, (x, x)) { OppositeCommutes(t, f, g, (x, x)); }
  }

  /** A coproduct is a product in the opposite category. */
  lemma CoproductIsOppositeProduct(t: Table, s: nat, a: nat, b: nat, ia: nat, ib: nat)
    ensures IsCoproduct(t, s, a, b, ia, ib) <==> IsProduct(Opposite(t), s, a, b, ia, ib)
  {
    OppositeHom(t, s, a);
    OppositeHom(t, s, b);
    forall y: nat
      ensures ProductCones(Opposite(t), y, a, b) == CoproductCocones(t, y, a, b)
      ensures Bijective(Opposite(t), Hom(Opposite(t), y, s), ia, ib, ProductCones(Opposite(t), y, a, b)) <==>
              UniqueFactors(t, Hom(t, s, y), ia, ib, CoproductCocones(t, y, a, b))
    {
      OppositeHom(t, y, a);
      OppositeHom(t, y, b);
      OppositeHom(t, y, s);
      OppositeUnique(t, Hom(t, s, y), ia, ib, CoproductCocones(t, y, a, b));
    }
  }

  lemma PushoutIsOppositePullback(t: Table, s: nat, f: nat, g: nat, ia: nat, ib: nat)
    requires Span(t, f, g)
    ensures Cospan(Opposite(t), f, g)
    ensures IsPushout(t, s, f, g, ia, ib) <==> IsPullback(Opposite(t), s, f, g, ia, ib)
  {
    OppositeHom(t, s, t.mors[f].cod);
    OppositeHom(t, s, t.mors[g].cod);
    OppositeCommutes(t, f, g, (ia, ib));
    forall y: nat
      ensures PullbackCones(Opposite(t), y, f, g) == PushoutCocones(t, y, f, g)
      ensures Bijective(Opposite(t), Hom(Opposite(t), y, s), ia, ib, PullbackCones(Opposite(t), y, f, g)) <==>
              UniqueFactors(t, Hom(t, s, y), ia, ib, PushoutCocones(t, y, f, g))
    {
      OppositePushoutCones(t, y, f, g);
      OppositeHom(t, y, s);
      OppositeUnique(t, Hom(t, s, y), ia, ib, PushoutCocones(t, y, f, g));
    }
  }

  lemma CoequalizerIsOppositeEqualizer(t: Table, s: nat, f: nat, g: nat, c: nat)
    requires Parallel(t, f, g)
    ensures Parallel(Opposite(t), f, g)
    ensures IsCoequalizer(t, s, f, g, c) <==> IsEqualizer(Opposite(t), s, f, g, c)
  {
    OppositeHom(t, s, t.mors[f].cod);
    OppositeCommutes(t, f, g, (c, c));
    forall y: nat
      ensures EqualizerCones(Opposite(t), y, f, g) == CoequalizerCocones(t, y, f, g)
      ensures Bijective(Opposite(t), Hom(Opposite(t), y, s), c, c, EqualizerCones(Opposite(t), y, f, g)) <==>
              UniqueFactors(t, Hom(t, s, y), c, c, CoequalizerCocones(t, y, f, g))
    {
      OppositeCoequalizerCones(t, y, f, g);
      OppositeHom(t, y, s);
      OppositeUnique(t, Hom(t, s, y), c, c, CoequalizerCocones(t, y, f, g));
    }
  }

  // ---- the dual object checks decide the dual properties ----

  /** obj_check_col. */
  lemma CoproductCheckDecides(t: Table, y: nat, s: nat, a: nat, b: nat, ia: nat, ib: nat)
    requires IsCategory(t) && ia in Hom(t, a, s) && ib in Hom(t, b, s)
    ensures UniqueFactors(t, Hom(t, s, y), ia, ib, CoproductCocones(t, y, a, b)) <==> DualCheck(t, Hom(t, s, y), ia, ib, CoproductCocones(t, y, a, b))
    ensures |CoproductCocones(t, y, a, b)| == |Hom(t, a, y)| * |Hom(t, b, y)|
  {
    var o, cocones := Opposite(t), CoproductCocones(t, y, a, b);
    OppositeIsCategory(t);
    OppositeHom(t, s, a);
    OppositeHom(t, s, b);
    OppositeHom(t, y, a);
    OppositeHom(t, y, b);
    OppositeHom(t, y, s);
    ProductInto(o, y, s, a, b, ia, ib);
    CountDecides(o, Hom(t, s, y), ia, ib, cocones);
    OppositeUnique(t, Hom(t, s, y), ia, ib, cocones);
    PairsCount(Hom(t, a, y), Hom(t, b, y));
  }

  /** po_obj_check. */
  lemma PushoutCheckDecides(t: Table, y: nat, s: nat, f: nat, g: nat, ia: nat, ib: nat)
    requires IsCategory(t) && Span(t, f, g)
    requires ia in Hom(t, t.mors[f].cod, s) && ib in Hom(t, t.mors[g].cod, s) && Cocommutes(t, f, g, (ia, ib))
    ensures UniqueFactors(t, Hom(t, s, y), ia, ib, PushoutCocones(t, y, f, g)) <==> DualCheck(t, Hom(t, s, y), ia, ib, PushoutCocones(t, y, f, g))
  {
    var o, cocones := Opposite(t), PushoutCocones(t, y, f, g);
    OppositeIsCategory(t);
    OppositeHom(t, s, t.mors[f].cod);
    OppositeHom(t, s, t.mors[g].cod);
    OppositeHom(t, y, s);
    OppositeCommutes(t, f, g, (ia, ib));
    OppositePushoutCones(t, y, f, g);
    PullbackInto(o, y, s, f, g, ia, ib);
    CountDecides(o, Hom(t, s, y), ia, ib, cocones);
    OppositeUnique(t, Hom(t, s, y), ia, ib, cocones);
  }

  /** coeq_obj_ok. */
  lemma CoequalizerCheckDecides(t: Table, y: nat, s: nat, f: nat, g: nat, c: nat)
    requires IsCategory(t) && Parallel(t, f, g) && c in Hom(t, t.mors[f].cod, s) && Cocommutes(t, f, g, (c, c))
    ensures UniqueFactors(t, Hom(t, s, y), c, c, CoequalizerCocones(t, y, f, g)) <==> DualCheck(t, Hom(t, s, y), c, c, CoequalizerCocones(t, y, f, g))
  {
    var o, cocones := Opposite(t), CoequalizerCocones(t, y, f, g);
    OppositeIsCategory(t);
    OppositeHom(t, s, t.mors[f].cod);
    OppositeHom(t, y, s);
    OppositeCommutes(t, f, g, (c, c));
    OppositeCoequalizerCones(t, y, f, g);
    EqualizerInto(o, y, s, f, g, c);
    CountDecides(o, Hom(t, s, y), c, c, cocones);
    OppositeUnique(t, Hom(t, s, y), c, c, cocones);
  }

  // ---- scans ----

  lemma ComediatorsAdd(t: Table, arrows: set<nat>, ia: nat, ib: nat, k: Cone, u: nat)
    requires u !in arrows
    ensures var before := Comediators(t, arrows, ia, ib, k);
            && u !in before
            && Comediators(t, arrows + {u}, ia, ib, k) == if Colegs(t, ia, ib, u) == k then before + {u} else before
  {
    var before, after := Comediators(t, arrows, ia, ib, k), Comediators(t, arrows + {u}, ia, ib, k);
    forall m ensures m in after <==> m in before || (m == u && Colegs(t, ia, ib, u) == k) {}
  }

  /** count_col and po_med_count: the arrows s -> y through which the cocone (xa, xb) factors. */
  method CountComediators(t: Table, s: nat, y: nat, a: nat, b: nat, ia: nat, ib: nat, xa: nat, xb: nat) returns (n: nat, last: nat)
    requires IsCategory(t) && ia in Hom(t, a, s) && ib in Hom(t, b, s)
    ensures n == |Comediators(t, Hom(t, s, y), ia, ib, (xa, xb))|
    ensures n > 0 ==> last in Comediators(t, Hom(t, s, y), ia, ib, (xa, xb))
  {
    n, last := 0, 0;
    ghost var k := (xa, xb);
    for i := 0 to |t.mors|
      invariant n == |Comediators(t, HomBelow(t, s, y, i), ia, ib, k)|
      invariant n > 0 ==> last in Comediators(t, HomBelow(t, s, y, i), ia, ib, k)
    {
      HomStep(t, s, y, i);
      ComediatorsAdd(t, HomBelow(t, s, y, i), ia, ib, k, i);
      if t.mors[i].dom == s && t.mors[i].cod == y {
        HomComposes(t, a, s, y, i, ia);
        HomComposes(t, b, s, y, i, ib);
        var c1 := Compose(t, i, ia);
        var c2 := Compose(t, i, ib);
        if c1 == xa && c2 == xb {
          n, last := n + 1, i;
        }
      }
    }
    HomAll(t, s, y);
  }

  /** factor_mediator_col: the unique comediator of a cocone, if it is unique. */
  method FactorComediator(t: Table, s: nat, y: nat, a: nat, b: nat, ia: nat, ib: nat, xa: nat, xb: nat) returns (u: Option<nat>)
    requires IsCategory(t) && ia in Hom(t, a, s) && ib in Hom(t, b, s)
    ensures u.Some? <==> |Comediators(t, Hom(t, s, y), ia, ib, (xa, xb))| == 1
    ensures u.Some? ==> u.value in Hom(t, s, y) && Colegs(t, ia, ib, u.value) == (xa, xb)
  {
    var n, last := CountComediators(t, s, y, a, b, ia, ib, xa, xb);
    if n != 1 { return None; }
    return Some(last);
  }

  // ---- coproducts ----

  /** col_pair_covered. */
  method CoPairCovered(t: Table, s: nat, y: nat, a: nat, b: nat, ia: nat, ib: nat, xa: nat, bids: seq<nat>) returns (ok: bool)
    requires IsCategory(t) && ia in Hom(t, a, s) && ib in Hom(t, b, s)
    ensures ok <==> forall j :: 0 <= j < |bids| ==> SomeFactor(t, Hom(t, s, y), ia, ib, (xa, bids[j]))
  {
    for k := 0 to |bids|
      invariant forall j :: 0 <= j < k ==> SomeFactor(t, Hom(t, s, y), ia, ib, (xa, bids[j]))
    {
      var n, last := CountComediators(t, s, y, a, b, ia, ib, xa, bids[k]);
      if n == 0 { return false; }
    }
    return true;
  }

  /** The loop of obj_check_col. */
  method CoproductCovered(t: Table, y: nat, s: nat, a: nat, b: nat, ia: nat, ib: nat) returns (ok: bool)
    requires IsCategory(t) && ia in Hom(t, a, s) && ib in Hom(t, b, s)
    ensures ok <==> AllFactor(t, Hom(t, s, y), ia, ib, CoproductCocones(t, y, a, b))
  {
    ghost var arrows, cocones := Hom(t, s, y), CoproductCocones(t, y, a, b);
    var aids := Gather(t, a, y);
    var bids := Gather(t, b, y);
    for j := 0 to |aids|
      invariant forall i, k :: 0 <= i < j && 0 <= k < |bids| ==> SomeFactor(t, arrows, ia, ib, (aids[i], bids[k]))
    {
      ok := CoPairCovered(t, s, y, a, b, ia, ib, aids[j], bids);
      if !ok {
        ghost var k :| 0 <= k < |bids| && !SomeFactor(t, arrows, ia, ib, (aids[j], bids[k]));
        assert (aids[j], bids[k]) in cocones;
        return false;
      }
    }
    forall k | k in cocones ensures SomeFactor(t, arrows, ia, ib, k) {
      var i :| 0 <= i < |aids| && aids[i] == k.0;
      var j :| 0 <= j < |bids| && bids[j] == k.1;
    }
    return true;
  }

  /** obj_check_col. */
  method CoproductObjCheck(t: Table, y: nat, s: nat, a: nat, b: nat, ia: nat, ib: nat) returns (ok: bool)
    requires IsCategory(t) && ia in Hom(t, a, s) && ib in Hom(t, b, s)
    ensures ok <==> UniqueFactors(t, Hom(t, s, y), ia, ib, CoproductCocones(t, y, a, b))
  {
    CoproductCheckDecides(t, y, s, a, b, ia, ib);
    var nsy := HomCount(t, s, y);
    var na := HomCount(t, a, y);
    var nb := HomCount(t, b, y);
    if nsy != na * nb { return false; }
    ok := CoproductCovered(t, y, s, a, b, ia, ib);
  }

  /** is_coproduct. */
  method CoproductCheck(t: Table, s: nat, a: nat, b: nat, ia: nat, ib: nat) returns (ok: bool)
    requires IsCategory(t) && s < |t.ident| && ia in Hom(t, a, s) && ib in Hom(t, b, s)
    ensures ok <==> IsCoproduct(t, s, a, b, ia, ib)
  {
    for y := 0 to |t.ident|
      invariant forall x {:trigger CoproductCocones(t, x, a, b)} :: 0 <= x < y ==> UniqueFactors(t, Hom(t, s, x), ia, ib, CoproductCocones(t, x, a, b))
    {
      ok := CoproductObjCheck(t, y, s, a, b, ia, ib);
      if !ok { return; }
    }
    return true;
  }

  /** try_apex_col. */
  method TryCoapex(t: Table, a: nat, b: nat, s: nat) returns (r: Option<Limit>)
    requires IsCategory(t) && s < |t.ident|
    ensures r.Some? ==> r.value.apex == s && IsCoproduct(t, s, a, b, r.value.legA, r.value.legB)
    ensures r.None? ==> forall ia, ib :: !IsCoproduct(t, s, a, b, ia, ib)
  {
    var aids := Gather(t, a, s);
    var bids := Gather(t, b, s);
    for j := 0 to |aids|
      invariant forall i, x :: 0 <= i < j && 0 <= x < |bids| ==> !IsCoproduct(t, s, a, b, aids[i], bids[x])
    {
      for k := 0 to |bids|
        invariant forall x :: 0 <= x < k ==> !IsCoproduct(t, s, a, b, aids[j], bids[x])
      {
        var ok := CoproductCheck(t, s, a, b, aids[j], bids[k]);
        if ok { return Some(Limit(s, aids[j], bids[k])); }
      }
    }
    forall ia, ib ensures !IsCoproduct(t, s, a, b, ia, ib) {
      if ia in Hom(t, a, s) && ib in Hom(t, b, s) {
        var i :| 0 <= i < |aids| && aids[i] == ia;
        var j :| 0 <= j < |bids| && bids[j] == ib;
      }
    }
    return None;
  }

  /** search_coproduct. */
  method SearchCoproduct(t: Table, a: nat, b: nat) returns (r: Option<Limit>)
    requires IsCategory(t)
    ensures r.Some? ==> IsCoproduct(t, r.value.apex, a, b, r.value.legA, r.value.legB)
    ensures r.None? ==> forall s, ia, ib :: !IsCoproduct(t, s, a, b, ia, ib)
  {
    for s := 0 to |t.ident|
      invariant forall x, ia, ib :: 0 <= x < s ==> !IsCoproduct(t, x, a, b, ia, ib)
    {
      r := TryCoapex(t, a, b, s);
      if r.Some? { return; }
    }
    return None;
  }

  // ---- coequalizers ----

  ghost function Coequal(t: Table, f: nat, g: nat, arrows: set<nat>): set<nat> {
    set m | m in arrows && Cocommutes(t, f, g, (m, m))
  }

  lemma CoequalAdd(t: Table, f: nat, g: nat, arrows: set<nat>, i: nat)
    requires i !in arrows
    ensures var before := Coequal(t, f, g, arrows);
            && i !in before
            && Coequal(t, f, g, arrows + {i}) == if Cocommutes(t, f, g, (i, i)) then before + {i} else before
  {
    var before, after := Coequal(t, f, g, arrows), Coequal(t, f, g, arrows + {i});
    forall m ensures m in after <==> m in before || (m == i && Cocommutes(t, f, g, (i, i))) {}
  }

  /** coeq_gather: the arrows y -> w that make f and g equal. */
  method GatherCoequal(t: Table, w: nat, f: nat, g: nat) returns (ids: seq<nat>)
    requires IsCategory(t) && Parallel(t, f, g)
    ensures Lists(ids, Coequal(t, f, g, Hom(t, t.mors[f].cod, w)))
  {
    var y := t.mors[f].cod;
    ids := [];
    for i := 0 to |t.mors|
      invariant Lists(ids, Coequal(t, f, g, HomBelow(t, y, w, i)))
    {
      ghost var before := HomBelow(t, y, w, i);
      HomStep(t, y, w, i);
      CoequalAdd(t, f, g, before, i);
      if t.mors[i].dom == y && t.mors[i].cod == w {
        var c1 := Compose(t, i, f);
        var c2 := Compose(t, i, g);
        if c1 == c2 {
          ListsAdd(ids, Coequal(t, f, g, before), i);
          ids := ids + [i];
        }
      }
    }
    HomAll(t, y, w);
  }

  lemma CoequalizerCoconesCount(t: Table, w: nat, f: nat, g: nat)
    requires Parallel(t, f, g)
    ensures CoequalizerCocones(t, w, f, g) == Diagonal(Coequal(t, f, g, Hom(t, t.mors[f].cod, w)))
    ensures |CoequalizerCocones(t, w, f, g)| == |Coequal(t, f, g, Hom(t, t.mors[f].cod, w))|
  {
    DiagonalCount(Coequal(t, f, g, Hom(t, t.mors[f].cod, w)));
    assert CoequalizerCocones(t, w, f, g) == Diagonal(Coequal(t, f, g, Hom(t, t.mors[f].cod, w)));
  }

  /** coeq_covered. */
  method CoequalizerCovered(t: Table, q: nat, w: nat, y: nat, c: nat, ids: seq<nat>, ghost s: set<nat>) returns (ok: bool)
    requires IsCategory(t) && c in Hom(t, y, q) && Lists(ids, s)
    ensures ok <==> AllFactor(t, Hom(t, q, w), c, c, Diagonal(s))
  {
    ghost var arrows := Hom(t, q, w);
    for k := 0 to |ids|
      invariant forall j :: 0 <= j < k ==> SomeFactor(t, arrows, c, c, (ids[j], ids[j]))
    {
      var n, last := CountComediators(t, q, w, y, y, c, c, ids[k], ids[k]);
      if n == 0 {
        assert (ids[k], ids[k]) in Diagonal(s) && !SomeFactor(t, arrows, c, c, (ids[k], ids[k]));
        return false;
      }
    }
    forall k | k in Diagonal(s) ensures SomeFactor(t, arrows, c, c, k) {
      assert k.0 in ids;
      var j :| 0 <= j < |ids| && ids[j] == k.0;
    }
    return true;
  }

  /** coeq_obj_ok. */
  method CoequalizerObjCheck(t: Table, w: nat, q: nat, c: nat, f: nat, g: nat) returns (ok: bool)
    requires IsCategory(t) && Parallel(t, f, g) && c in Hom(t, t.mors[f].cod, q) && Cocommutes(t, f, g, (c, c))
    ensures ok <==> UniqueFactors(t, Hom(t, q, w), c, c, CoequalizerCocones(t, w, f, g))
  {
    CoequalizerCheckDecides(t, w, q, f, g, c);
    CoequalizerCoconesCount(t, w, f, g);
    var ids := GatherCoequal(t, w, f, g);
    var nq := HomCount(t, q, w);
    if nq != |ids| { return false; }
    ok := CoequalizerCovered(t, q, w, t.mors[f].cod, c, ids, Coequal(t, f, g, Hom(t, t.mors[f].cod, w)));
  }

  /** is_coequalizer. */
  method CoequalizerCheck(t: Table, q: nat, f: nat, g: nat, c: nat) returns (ok: bool)
    requires IsCategory(t) && Parallel(t, f, g) && q < |t.ident| && c in Hom(t, t.mors[f].cod, q)
    ensures ok <==> IsCoequalizer(t, q, f, g, c)
  {
    var c1 := Compose(t, c, f);
    var c2 := Compose(t, c, g);
    if c1 != c2 { return false; }
    for y := 0 to |t.ident|
      invariant forall x {:trigger CoequalizerCocones(t, x, f, g)} :: 0 <= x < y ==> UniqueFactors(t, Hom(t, q, x), c, c, CoequalizerCocones(t, x, f, g))
    {
      ok := CoequalizerObjCheck(t, y, q, c, f, g);
      if !ok { return; }
    }
    return true;
  }

  /** search_coequalizer. */
  method SearchCoequalizer(t: Table, f: nat, g: nat) returns (r: Option<Limit>)
    requires IsCategory(t) && Parallel(t, f, g)
    ensures r.Some? ==> r.value.legA == r.value.legB && IsCoequalizer(t, r.value.apex, f, g, r.value.legA)
    ensures r.None? ==> forall q, c :: !IsCoequalizer(t, q, f, g, c)
  {
    for q := 0 to |t.ident|
      invariant forall x, c :: 0 <= x < q ==> !IsCoequalizer(t, x, f, g, c)
    {
      var ids := Gather(t, t.mors[f].cod, q);
      for j := 0 to |ids|
        invariant forall i :: 0 <= i < j ==> !IsCoequalizer(t, q, f, g, ids[i])
      {
        var ok := CoequalizerCheck(t, q, f, g, ids[j]);
        if ok { return Some(Limit(q, ids[j], ids[j])); }
      }
      forall c ensures !IsCoequalizer(t, q, f, g, c) {
        if c in Hom(t, t.mors[f].cod, q) { var i :| 0 <= i < |ids| && ids[i] == c; }
      }
    }
    return None;
  }

  // ---- pushouts ----

  /** The commuting cocones with legs from the two sets. */
  ghost function CocommutingPairs(t: Table, f: nat, g: nat, a: set<nat>, b: set<nat>): set<Cone> {
    set k | k in Pairs(a, b) && Cocommutes(t, f, g, k)
  }

  lemma CoPairsAddSecond(t: Table, f: nat, g: nat, x: nat, b: set<nat>, y: nat)
    requires y !in b
    ensures var before := CocommutingPairs(t, f, g, {x}, b);
            && (x, y) !in before
            && CocommutingPairs(t, f, g, {x}, b + {y}) == if Cocommutes(t, f, g, (x, y)) then before + {(x, y)} else before
  {
    var before, after := CocommutingPairs(t, f, g, {x}, b), CocommutingPairs(t, f, g, {x}, b + {y});
    forall k ensures k in after <==> k in before || (k == (x, y) && Cocommutes(t, f, g, k)) {}
  }

  lemma CoPairsAddFirst(t: Table, f: nat, g: nat, a: set<nat>, x: nat, b: set<nat>)
    requires x !in a
    ensures var before, extra := CocommutingPairs(t, f, g, a, b), CocommutingPairs(t, f, g, {x}, b);
            CocommutingPairs(t, f, g, a + {x}, b) == before + extra && |before + extra| == |before| + |extra|
  {
    var before, extra := CocommutingPairs(t, f, g, a, b), CocommutingPairs(t, f, g, {x}, b);
    var after := CocommutingPairs(t, f, g, a + {x}, b);
    forall k ensures k in after <==> k in before + extra {}
    assert before !! extra;
  }

  lemma AllFactorUnion(t: Table, arrows: set<nat>, ia: nat, ib: nat, c: set<Cone>, d: set<Cone>)
    ensures AllFactor(t, arrows, ia, ib, c + d) <==> AllFactor(t, arrows, ia, ib, c) && AllFactor(t, arrows, ia, ib, d)
  {
  }

  /** The inner loop of po_obj_check: the cocones that have xa as first leg. */
  method PushoutRow(t: Table, w: nat, s: nat, f: nat, g: nat, ia: nat, ib: nat, xa: nat, zids: seq<nat>) returns (n: nat, ok: bool)
    requires IsCategory(t) && Span(t, f, g) && xa in Hom(t, t.mors[f].cod, w) && Lists(zids, Hom(t, t.mors[g].cod, w))
    requires ia in Hom(t, t.mors[f].cod, s) && ib in Hom(t, t.mors[g].cod, s)
    ensures n == |CocommutingPairs(t, f, g, {xa}, Hom(t, t.mors[g].cod, w))|
    ensures ok <==> AllFactor(t, Hom(t, s, w), ia, ib, CocommutingPairs(t, f, g, {xa}, Hom(t, t.mors[g].cod, w)))
  {
    n, ok := 0, true;
    ghost var arrows, zs := Hom(t, s, w), Hom(t, t.mors[g].cod, w);
    for j := 0 to |zids|
      invariant n == |CocommutingPairs(t, f, g, {xa}, Elems(zids, j))|
      invariant ok <==> AllFactor(t, arrows, ia, ib, CocommutingPairs(t, f, g, {xa}, Elems(zids, j)))
    {
      ElemsStep(zids, zs, j);
      CoPairsAddSecond(t, f, g, xa, Elems(zids, j), zids[j]);
      assert zids[j] in zs;
      var c1 := Compose(t, xa, f);
      var c2 := Compose(t, zids[j], g);
      if c1 == c2 {
        var m, last := CountComediators(t, s, w, t.mors[f].cod, t.mors[g].cod, ia, ib, xa, zids[j]);
        AllFactorUnion(t, arrows, ia, ib, CocommutingPairs(t, f, g, {xa}, Elems(zids, j)), {(xa, zids[j])});
        assert AllFactor(t, arrows, ia, ib, {(xa, zids[j])}) <==> m > 0 by { assert SomeFactor(t, arrows, ia, ib, (xa, zids[j])) <==> m > 0; }
        if m == 0 { ok := false; }
        n := n + 1;
      }
    }
    ElemsAll(zids, zs);
  }

  /** The two loops of po_obj_check. */
  method PushoutScan(t: Table, w: nat, s: nat, f: nat, g: nat, ia: nat, ib: nat) returns (nc: nat, ok: bool)
    requires IsCategory(t) && Span(t, f, g)
    requires ia in Hom(t, t.mors[f].cod, s) && ib in Hom(t, t.mors[g].cod, s)
    ensures nc == |CocommutingPairs(t, f, g, Hom(t, t.mors[f].cod, w), Hom(t, t.mors[g].cod, w))|
    ensures ok <==> AllFactor(t, Hom(t, s, w), ia, ib, CocommutingPairs(t, f, g, Hom(t, t.mors[f].cod, w), Hom(t, t.mors[g].cod, w)))
  {
    var yids := Gather(t, t.mors[f].cod, w);
    var zids := Gather(t, t.mors[g].cod, w);
    nc, ok := 0, true;
    ghost var arrows, ys, zs := Hom(t, s, w), Hom(t, t.mors[f].cod, w), Hom(t, t.mors[g].cod, w);
    for i := 0 to |yids|
      invariant nc == |CocommutingPairs(t, f, g, Elems(yids, i), zs)|
      invariant ok <==> AllFactor(t, arrows, ia, ib, CocommutingPairs(t, f, g, Elems(yids, i), zs))
    {
      ElemsStep(yids, ys, i);
      CoPairsAddFirst(t, f, g, Elems(yids, i), yids[i], zs);
      assert yids[i] in ys;
      var n, row := PushoutRow(t, w, s, f, g, ia, ib, yids[i], zids);
      AllFactorUnion(t, arrows, ia, ib, CocommutingPairs(t, f, g, Elems(yids, i), zs), CocommutingPairs(t, f, g, {yids[i]}, zs));
      nc := nc + n;
      ok := ok && row;
    }
    ElemsAll(yids, ys);
  }

  lemma PushoutCoconesPairs(t: Table, w: nat, f: nat, g: nat)
    requires Span(t, f, g)
    ensures PushoutCocones(t, w, f, g) == CocommutingPairs(t, f, g, Hom(t, t.mors[f].cod, w), Hom(t, t.mors[g].cod, w))
  {
  }

  /** po_obj_check. */
  method PushoutObjCheck(t: Table, w: nat, s: nat, f: nat, g: nat, ia: nat, ib: nat) returns (ok: bool)
    requires IsCategory(t) && Span(t, f, g)
    requires ia in Hom(t, t.mors[f].cod, s) && ib in Hom(t, t.mors[g].cod, s) && Cocommutes(t, f, g, (ia, ib))
    ensures ok <==> UniqueFactors(t, Hom(t, s, w), ia, ib, PushoutCocones(t, w, f, g))
  {
    PushoutCheckDecides(t, w, s, f, g, ia, ib);
    PushoutCoconesPairs(t, w, f, g);
    var nq := HomCount(t, s, w);
    var nc, all := PushoutScan(t, w, s, f, g, ia, ib);
    ok := all;
    if ok && nc != nq { ok := false; }
  }

  /** is_pushout. */
  method PushoutCheck(t: Table, s: nat, f: nat, g: nat, ia: nat, ib: nat) returns (ok: bool)
    requires IsCategory(t) && Span(t, f, g) && s < |t.ident|
    requires ia in Hom(t, t.mors[f].cod, s) && ib in Hom(t, t.mors[g].cod, s)
    ensures ok <==> IsPushout(t, s, f, g, ia, ib)
  {
    var c1 := Compose(t, ia, f);
    var c2 := Compose(t, ib, g);
    if c1 != c2 { return false; }
    for y := 0 to |t.ident|
      invariant forall x {:trigger PushoutCocones(t, x, f, g)} :: 0 <= x < y ==> UniqueFactors(t, Hom(t, s, x), ia, ib, PushoutCocones(t, x, f, g))
    {
      ok := PushoutObjCheck(t, y, s, f, g, ia, ib);
      if !ok { return; }
    }
    return true;
  }

  /** The two inner loops of search_pushout. */
  method TryPushoutApex(t: Table, f: nat, g: nat, s: nat) returns (r: Option<Limit>)
    requires IsCategory(t) && Span(t, f, g) && s < |t.ident|
    ensures r.Some? ==> r.value.apex == s && IsPushout(t, s, f, g, r.value.legA, r.value.legB)
    ensures r.None? ==> forall ia, ib :: !IsPushout(t, s, f, g, ia, ib)
  {
    var yids := Gather(t, t.mors[f].cod, s);
    var zids := Gather(t, t.mors[g].cod, s);
    for j := 0 to |yids|
      invariant forall i, x :: 0 <= i < j && 0 <= x < |zids| ==> !IsPushout(t, s, f, g, yids[i], zids[x])
    {
      for k := 0 to |zids|
        invariant forall x :: 0 <= x < k ==> !IsPushout(t, s, f, g, yids[j], zids[x])
      {
        var ok := PushoutCheck(t, s, f, g, yids[j], zids[k]);
        if ok { return Some(Limit(s, yids[j], zids[k])); }
      }
    }
    forall ia, ib ensures !IsPushout(t, s, f, g, ia, ib) {
      if ia in Hom(t, t.mors[f].cod, s) && ib in Hom(t, t.mors[g].cod, s) {
        var i :| 0 <= i < |yids| && yids[i] == ia;
        var j :| 0 <= j < |zids| && zids[j] == ib;
      }
    }
    return None;
  }

  /** search_pushout. */
  method SearchPushout(t: Table, f: nat, g: nat) returns (r: Option<Limit>)
    requires IsCategory(t) && Span(t, f, g)
    ensures r.Some? ==> IsPushout(t, r.value.apex, f, g, r.value.legA, r.value.legB)
    ensures r.None? ==> forall s, ia, ib :: !IsPushout(t, s, f, g, ia, ib)
  {
    for s := 0 to |t.ident|
      invariant forall x, ia, ib :: 0 <= x < s ==> !IsPushout(t, x, f, g, ia, ib)
    {
      r := TryPushoutApex(t, f, g, s);
      if r.Some? { return; }
    }
    return None;
  }

  // ---- the finders ----

  /** cat89_find_binary_coproduct. */
  method FindCoproduct(t: Table, a: nat, b: nat) returns (r: Outcome)
    requires IsCategory(t)
    ensures r != Domain && (r == Invalid <==> !(a < |t.ident| && b < |t.ident|))
    ensures r.Found? ==> IsCoproduct(t, r.limit.apex, a, b, r.limit.legA, r.limit.legB)
    ensures r.NotFound? ==> forall s, ia, ib :: !IsCoproduct(t, s, a, b, ia, ib)
  {
    if a >= |t.ident| || b >= |t.ident| { return Invalid; }
    var found := SearchCoproduct(t, a, b);
    return if found.Some? then Found(found.value) else NotFound;
  }

  /** cat89_find_coequalizer. */
  method FindCoequalizer(t: Table, f: nat, g: nat) returns (r: Outcome)
    requires IsCategory(t)
    ensures r == Invalid <==> !(IsMor(t, f) && IsMor(t, g))
    ensures r == Domain <==> IsMor(t, f) && IsMor(t, g) && !Parallel(t, f, g)
    ensures r.Found? ==> Parallel(t, f, g) && IsCoequalizer(t, r.limit.apex, f, g, r.limit.legA)
    ensures r.NotFound? ==> Parallel(t, f, g) && forall s, c :: !IsCoequalizer(t, s, f, g, c)
  {
    if f >= |t.mors| || g >= |t.mors| { return Invalid; }
    if t.mors[f].dom != t.mors[g].dom || t.mors[f].cod != t.mors[g].cod { return Domain; }
    var found := SearchCoequalizer(t, f, g);
    return if found.Some? then Found(found.value) else NotFound;
  }

  /** cat89_find_pushout. */
  method FindPushout(t: Table, f: nat, g: nat) returns (r: Outcome)
    requires IsCategory(t)
    ensures r == Invalid <==> !(IsMor(t, f) && IsMor(t, g))
    ensures r == Domain <==> IsMor(t, f) && IsMor(t, g) && !Span(t, f, g)
    ensures r.Found? ==> Span(t, f, g) && IsPushout(t, r.limit.apex, f, g, r.limit.legA, r.limit.legB)
    ensures r.NotFound? ==> Span(t, f, g) && forall s, ia, ib :: !IsPushout(t, s, f, g, ia, ib)
  {
    if f >= |t.mors| || g >= |t.mors| { return Invalid; }
    if t.mors[f].dom != t.mors[g].dom { return Domain; }
    var found := SearchPushout(t, f, g);
    return if found.Some? then Found(found.value) else NotFound;
  }
}
