/** Universal properties in a finite category, and the counting argument by which the
    finders of libcat89/src/findlim.c decide them. */
module UniversalTheory {
  import opened FiniteCategory

  ghost function Hom(t: Table, x: nat, y: nat): set<nat> {
    set m | 0 <= m < |t.mors| && t.mors[m] == Arrow(x, y)
  }

  type Cone = (nat, nat)

  /** The cone that m : y -> p induces through the two legs. */
  ghost function Legs(t: Table, pa: nat, pb: nat, m: nat): Cone {
    (Comp(t, pa, m), Comp(t, pb, m))
  }

  ghost function Mediators(t: Table, arrows: set<nat>, pa: nat, pb: nat, k: Cone): set<nat> {
    set m | m in arrows && Legs(t, pa, pb, m) == k
  }

  ghost predicate OneMediator(t: Table, arrows: set<nat>, pa: nat, pb: nat, k: Cone) {
    |Mediators(t, arrows, pa, pb, k)| == 1
  }

  ghost predicate SomeMediator(t: Table, arrows: set<nat>, pa: nat, pb: nat, k: Cone) {
    Mediators(t, arrows, pa, pb, k) != {}
  }

  /** Each of the cones factors through exactly one of the arrows. */
  ghost predicate Bijective(t: Table, arrows: set<nat>, pa: nat, pb: nat, cones: set<Cone>) {
    forall k {:trigger OneMediator(t, arrows, pa, pb, k)} :: k in cones ==> OneMediator(t, arrows, pa, pb, k)
  }

  ghost predicate Surjective(t: Table, arrows: set<nat>, pa: nat, pb: nat, cones: set<Cone>) {
    forall k {:trigger SomeMediator(t, arrows, pa, pb, k)} :: k in cones ==> SomeMediator(t, arrows, pa, pb, k)
  }

  ghost predicate Into(t: Table, arrows: set<nat>, pa: nat, pb: nat, cones: set<Cone>) {
    forall m :: m in arrows ==> Legs(t, pa, pb, m) in cones
  }

  /** Onto finitely many cones: at least as many arrows, and as many exactly when each factors once. */
  lemma {:induction false} FiberCount(t: Table, arrows: set<nat>, pa: nat, pb: nat, cones: set<Cone>)
    requires Into(t, arrows, pa, pb, cones) && Surjective(t, arrows, pa, pb, cones)
    ensures |arrows| >= |cones|
    ensures |arrows| == |cones| <==> Bijective(t, arrows, pa, pb, cones)
    decreases |cones|
  {
    if cones == {} {
      assert forall m :: m in arrows ==> Legs(t, pa, pb, m) in cones;
      assert arrows == {};
    } else {
      var k :| k in cones;
      var fiber := Mediators(t, arrows, pa, pb, k);
      var rest, others := arrows - fiber, cones - {k};
      assert SomeMediator(t, arrows, pa, pb, k);
      OtherFibers(t, arrows, pa, pb, cones, k);
      FiberCount(t, rest, pa, pb, others);
      assert |arrows| == |rest| + |fiber| by { assert arrows == rest + fiber; }
      assert |fiber| >= 1;
      if Bijective(t, arrows, pa, pb, cones) { assert OneMediator(t, arrows, pa, pb, k); }
      if |arrows| == |cones| {
        forall j | j in cones ensures OneMediator(t, arrows, pa, pb, j) {
          if j != k { assert OneMediator(t, rest, pa, pb, j); }
        }
      }
    }
  }

  /** Taking one cone and its arrows away leaves the other fibres as they were. */
  lemma OtherFibers(t: Table, arrows: set<nat>, pa: nat, pb: nat, cones: set<Cone>, k: Cone)
    requires Into(t, arrows, pa, pb, cones) && Surjective(t, arrows, pa, pb, cones) && k in cones
    ensures var rest, others := arrows - Mediators(t, arrows, pa, pb, k), cones - {k};
            && Into(t, rest, pa, pb, others) && Surjective(t, rest, pa, pb, others)
            && (Bijective(t, arrows, pa, pb, cones) ==> Bijective(t, rest, pa, pb, others))
            && forall j :: j in others ==> Mediators(t, rest, pa, pb, j) == Mediators(t, arrows, pa, pb, j)
  {
    var rest, others := arrows - Mediators(t, arrows, pa, pb, k), cones - {k};
    forall j | j in others
      ensures Mediators(t, rest, pa, pb, j) == Mediators(t, arrows, pa, pb, j)
      ensures SomeMediator(t, rest, pa, pb, j) && (OneMediator(t, arrows, pa, pb, j) ==> OneMediator(t, rest, pa, pb, j))
    {
      assert SomeMediator(t, arrows, pa, pb, j);
    }
  }

  lemma OneIsSome(t: Table, arrows: set<nat>, pa: nat, pb: nat, cones: set<Cone>)
    requires Bijective(t, arrows, pa, pb, cones)
    ensures Surjective(t, arrows, pa, pb, cones)
  {
    forall k | k in cones ensures SomeMediator(t, arrows, pa, pb, k) { assert OneMediator(t, arrows, pa, pb, k); }
  }

  /** Equal cardinality plus surjectivity is bijectivity. */
  lemma CountDecides(t: Table, arrows: set<nat>, pa: nat, pb: nat, cones: set<Cone>)
    requires Into(t, arrows, pa, pb, cones)
    ensures Bijective(t, arrows, pa, pb, cones) <==> |arrows| == |cones| && Surjective(t, arrows, pa, pb, cones)
  {
    if Bijective(t, arrows, pa, pb, cones) { OneIsSome(t, arrows, pa, pb, cones); }
    if Surjective(t, arrows, pa, pb, cones) { FiberCount(t, arrows, pa, pb, cones); }
  }

  // ---- products, pullbacks, equalizers ----

  ghost function Pairs(a: set<nat>, b: set<nat>): set<Cone> {
    set x, y | x in a && y in b :: (x, y)
  }

  lemma {:induction false} PairsCount(a: set<nat>, b: set<nat>)
    ensures |Pairs(a, b)| == |a| * |b|
    decreases |a|
  {
    if a == {} {
      assert Pairs(a, b) == {};
    } else {
      var x :| x in a;
      PairsCount(a - {x}, b);
      RowCount(x, b);
      PairsSplit(a, b, x);
      OneMore(|a - {x}|, |b|);
    }
  }

  lemma OneMore(m: nat, n: nat)
    ensures (m + 1) * n == m * n + n
  {
  }

  lemma PairsSplit(a: set<nat>, b: set<nat>, x: nat)
    requires x in a
    ensures |Pairs(a, b)| == |Pairs(a - {x}, b)| + |Pairs({x}, b)| && |a| == |a - {x}| + 1
  {
    var rest, row := Pairs(a - {x}, b), Pairs({x}, b);
    forall k ensures k in Pairs(a, b) <==> k in rest + row {}
    assert Pairs(a, b) == rest + row;
    assert rest !! row;
  }

  lemma {:induction false} RowCount(x: nat, b: set<nat>)
    ensures |Pairs({x}, b)| == |b|
    decreases |b|
  {
    if b == {} {
      assert Pairs({x}, b) == {};
    } else {
      var y :| y in b;
      RowCount(x, b - {y});
      assert Pairs({x}, b) == Pairs({x}, b - {y}) + {(x, y)};
    }
  }

  ghost function ProductCones(t: Table, y: nat, a: nat, b: nat): set<Cone> {
    Pairs(Hom(t, y, a), Hom(t, y, b))
  }

  ghost predicate Commutes(t: Table, f: nat, g: nat, k: Cone) {
    Comp(t, f, k.0) == Comp(t, g, k.1)
  }

  ghost function PullbackCones(t: Table, y: nat, f: nat, g: nat): set<Cone>
    requires IsMor(t, f) && IsMor(t, g)
  {
    set k | k in ProductCones(t, y, t.mors[f].dom, t.mors[g].dom) && Commutes(t, f, g, k)
  }

  ghost function EqualizerCones(t: Table, y: nat, f: nat, g: nat): set<Cone>
    requires IsMor(t, f) && IsMor(t, g)
  {
    set x | x in Hom(t, y, t.mors[f].dom) && Commutes(t, f, g, (x, x)) :: (x, x)
  }

  /** p with legs pa, pb is a product of a and b. */
  ghost predicate IsProduct(t: Table, p: nat, a: nat, b: nat, pa: nat, pb: nat) {
    && p < |t.ident| && pa in Hom(t, p, a) && pb in Hom(t, p, b)
    && forall y {:trigger ProductCones(t, y, a, b)} :: 0 <= y < |t.ident| ==> Bijective(t, Hom(t, y, p), pa, pb, ProductCones(t, y, a, b))
  }

  ghost predicate Cospan(t: Table, f: int, g: int) {
    IsMor(t, f) && IsMor(t, g) && t.mors[f].cod == t.mors[g].cod
  }

  /** p with legs pa, pb is a pullback of f and g. */
  ghost predicate IsPullback(t: Table, p: nat, f: nat, g: nat, pa: nat, pb: nat)
    requires Cospan(t, f, g)
  {
    && p < |t.ident| && pa in Hom(t, p, t.mors[f].dom) && pb in Hom(t, p, t.mors[g].dom) && Commutes(t, f, g, (pa, pb))
    && forall y {:trigger PullbackCones(t, y, f, g)} :: 0 <= y < |t.ident| ==> Bijective(t, Hom(t, y, p), pa, pb, PullbackCones(t, y, f, g))
  }

  ghost predicate Parallel(t: Table, f: int, g: int) {
    Cospan(t, f, g) && t.mors[f].dom == t.mors[g].dom
  }

  /** p with leg e is an equalizer of f and g. */
  ghost predicate IsEqualizer(t: Table, p: nat, f: nat, g: nat, e: nat)
    requires Parallel(t, f, g)
  {
    && p < |t.ident| && e in Hom(t, p, t.mors[f].dom) && Commutes(t, f, g, (e, e))
    && forall y {:trigger EqualizerCones(t, y, f, g)} :: 0 <= y < |t.ident| ==> Bijective(t, Hom(t, y, p), e, e, EqualizerCones(t, y, f, g))
  }

  // ---- every arrow into the apex induces a cone ----

  lemma HomComposes(t: Table, y: nat, p: nat, a: nat, pa: nat, m: nat)
    requires IsCategory(t) && m in Hom(t, y, p) && pa in Hom(t, p, a)
    ensures Composable(t, pa, m) && Comp(t, pa, m) in Hom(t, y, a)
  {
    CompTyped(t, pa, m);
  }

  lemma ProductInto(t: Table, y: nat, p: nat, a: nat, b: nat, pa: nat, pb: nat)
    requires IsCategory(t) && pa in Hom(t, p, a) && pb in Hom(t, p, b)
    ensures Into(t, Hom(t, y, p), pa, pb, ProductCones(t, y, a, b))
  {
    forall m | m in Hom(t, y, p) ensures Legs(t, pa, pb, m) in ProductCones(t, y, a, b) {
      HomComposes(t, y, p, a, pa, m);
      HomComposes(t, y, p, b, pb, m);
    }
  }

  /** Associativity carries commuting legs to commuting cones. */
  lemma LegsCommute(t: Table, y: nat, p: nat, f: nat, g: nat, pa: nat, pb: nat, m: nat)
    requires IsCategory(t) && Cospan(t, f, g) && m in Hom(t, y, p)
    requires pa in Hom(t, p, t.mors[f].dom) && pb in Hom(t, p, t.mors[g].dom) && Commutes(t, f, g, (pa, pb))
    ensures Commutes(t, f, g, Legs(t, pa, pb, m))
  {
    assert Composable(t, f, pa) && Composable(t, pa, m) && Composable(t, g, pb) && Composable(t, pb, m);
    assert Associates(t, f, pa, m) && Associates(t, g, pb, m);
  }

  lemma PullbackInto(t: Table, y: nat, p: nat, f: nat, g: nat, pa: nat, pb: nat)
    requires IsCategory(t) && Cospan(t, f, g)
    requires pa in Hom(t, p, t.mors[f].dom) && pb in Hom(t, p, t.mors[g].dom) && Commutes(t, f, g, (pa, pb))
    ensures Into(t, Hom(t, y, p), pa, pb, PullbackCones(t, y, f, g))
  {
    ProductInto(t, y, p, t.mors[f].dom, t.mors[g].dom, pa, pb);
    forall m | m in Hom(t, y, p) ensures Legs(t, pa, pb, m) in PullbackCones(t, y, f, g) { LegsCommute(t, y, p, f, g, pa, pb, m); }
  }

  lemma EqualizerInto(t: Table, y: nat, p: nat, f: nat, g: nat, e: nat)
    requires IsCategory(t) && Parallel(t, f, g) && e in Hom(t, p, t.mors[f].dom) && Commutes(t, f, g, (e, e))
    ensures Into(t, Hom(t, y, p), e, e, EqualizerCones(t, y, f, g))
  {
    forall m | m in Hom(t, y, p) ensures Legs(t, e, e, m) in EqualizerCones(t, y, f, g) {
      HomComposes(t, y, p, t.mors[f].dom, e, m);
      LegsCommute(t, y, p, f, g, e, e, m);
    }
  }

  // ---- universal objects are unique up to isomorphism ----

  lemma UniqueMediator(t: Table, arrows: set<nat>, pa: nat, pb: nat, k: Cone, m: nat, n: nat)
    requires OneMediator(t, arrows, pa, pb, k) && m in arrows && n in arrows && Legs(t, pa, pb, m) == k == Legs(t, pa, pb, n)
    ensures m == n
  {
    var s := Mediators(t, arrows, pa, pb, k);
    assert m in s && n in s;
    assert |s - {m}| == 0;
  }

  lemma SomeArrow(t: Table, arrows: set<nat>, pa: nat, pb: nat, k: Cone) returns (i: nat)
    requires OneMediator(t, arrows, pa, pb, k)
    ensures i in arrows && Legs(t, pa, pb, i) == k
  {
    var s := Mediators(t, arrows, pa, pb, k);
    assert s != {};
    i :| i in s;
  }

  /** i and j are inverse to each other and carry the legs of p to those of p'. */
  ghost predicate Isomorphism(t: Table, p: nat, p': nat, k: Cone, k': Cone, i: nat, j: nat) {
    && i in Hom(t, p', p) && j in Hom(t, p, p') && Legs(t, k.0, k.1, i) == k' && Legs(t, k'.0, k'.1, j) == k
    && IdentityOf(t, p) && IdentityOf(t, p') && Comp(t, i, j) == t.ident[p].mor && Comp(t, j, i) == t.ident[p'].mor
  }

  /** Going there and back mediates p with itself, so it is the identity. */
  lemma ThereAndBack(t: Table, p: nat, p': nat, a: nat, b: nat, k: Cone, k': Cone, i: nat, j: nat)
    requires IsCategory(t) && p < |t.ident| && k.0 in Hom(t, p, a) && k.1 in Hom(t, p, b)
    requires OneMediator(t, Hom(t, p, p), k.0, k.1, k)
    requires i in Hom(t, p', p) && Legs(t, k.0, k.1, i) == k' && j in Hom(t, p, p') && Legs(t, k'.0, k'.1, j) == k
    ensures IdentityOf(t, p) && Comp(t, i, j) == t.ident[p].mor
  {
    assert IdentityOf(t, p);
    var id := t.ident[p].mor;
    assert Units(t, k.0) && Units(t, k.1);
    assert Composable(t, i, j) && Composable(t, k.0, i) && Composable(t, k.1, i);
    assert Associates(t, k.0, i, j) && Associates(t, k.1, i, j);
    CompTyped(t, i, j);
    UniqueMediator(t, Hom(t, p, p), k.0, k.1, k, id, Comp(t, i, j));
  }

  /** Two apexes through which each other's legs factor exactly once are isomorphic. */
  lemma Isomorphic(t: Table, p: nat, p': nat, a: nat, b: nat, k: Cone, k': Cone) returns (i: nat, j: nat)
    requires IsCategory(t) && p < |t.ident| && p' < |t.ident|
    requires k.0 in Hom(t, p, a) && k.1 in Hom(t, p, b) && k'.0 in Hom(t, p', a) && k'.1 in Hom(t, p', b)
    requires OneMediator(t, Hom(t, p, p), k.0, k.1, k) && OneMediator(t, Hom(t, p', p), k.0, k.1, k')
    requires OneMediator(t, Hom(t, p', p'), k'.0, k'.1, k') && OneMediator(t, Hom(t, p, p'), k'.0, k'.1, k)
    ensures Isomorphism(t, p, p', k, k', i, j)
  {
    i := SomeArrow(t, Hom(t, p', p), k.0, k.1, k');
    j := SomeArrow(t, Hom(t, p, p'), k'.0, k'.1, k);
    ThereAndBack(t, p, p', a, b, k, k', i, j);
    ThereAndBack(t, p', p, a, b, k', k, j, i);
  }

  /** Any two products of a and b are isomorphic by arrows that respect the legs. */
  lemma ProductsIsomorphic(t: Table, p: nat, p': nat, a: nat, b: nat, k: Cone, k': Cone) returns (i: nat, j: nat)
    requires IsCategory(t) && IsProduct(t, p, a, b, k.0, k.1) && IsProduct(t, p', a, b, k'.0, k'.1)
    ensures Isomorphism(t, p, p', k, k', i, j)
  {
    assert k in ProductCones(t, p, a, b) && k' in ProductCones(t, p', a, b);
    i, j := Isomorphic(t, p, p', a, b, k, k');
  }

  lemma PullbacksIsomorphic(t: Table, p: nat, p': nat, f: nat, g: nat, k: Cone, k': Cone) returns (i: nat, j: nat)
    requires IsCategory(t) && Cospan(t, f, g) && IsPullback(t, p, f, g, k.0, k.1) && IsPullback(t, p', f, g, k'.0, k'.1)
    ensures Isomorphism(t, p, p', k, k', i, j)
  {
    assert k in PullbackCones(t, p, f, g) && k' in PullbackCones(t, p', f, g);
    i, j := Isomorphic(t, p, p', t.mors[f].dom, t.mors[g].dom, k, k');
  }

  lemma EqualizersIsomorphic(t: Table, p: nat, p': nat, f: nat, g: nat, e: nat, e': nat) returns (i: nat, j: nat)
    requires IsCategory(t) && Parallel(t, f, g) && IsEqualizer(t, p, f, g, e) && IsEqualizer(t, p', f, g, e')
    ensures Isomorphism(t, p, p', (e, e), (e', e'), i, j)
  {
    assert (e, e) in EqualizerCones(t, p, f, g) && (e', e') in EqualizerCones(t, p', f, g);
    i, j := Isomorphic(t, p, p', t.mors[f].dom, t.mors[f].dom, (e, e), (e', e'));
  }
}
