/** Finite categories as composition tables, and the builder that validates them
    (libcat89/src/finite.c). */
module FiniteCategory {

  datatype Arrow = Arrow(dom: nat, cod: nat)
  datatype CompRow = CompRow(g: nat, f: nat, result: nat)
  datatype Ident = Unset | Ident(mor: nat)

  /** Objects and morphisms are numbered; comps lists the rows g after f = result. */
  datatype Table = Table(ident: seq<Ident>, mors: seq<Arrow>, comps: seq<CompRow>)

  // ---- composition ----

  ghost predicate RowFor(comps: seq<CompRow>, g: nat, f: nat, i: int) {
    0 <= i < |comps| && comps[i].g == g && comps[i].f == f
  }

  /** Exactly one row gives the composite of g and f. */
  ghost predicate UniqueRow(comps: seq<CompRow>, g: nat, f: nat) {
    (exists i :: RowFor(comps, g, f, i)) && forall i, j :: RowFor(comps, g, f, i) && RowFor(comps, g, f, j) ==> i == j
  }

  /** The result of the first row for g and f. */
  function Lookup(comps: seq<CompRow>, g: nat, f: nat): nat {
    if comps == [] then 0
    else if comps[0].g == g && comps[0].f == f then comps[0].result
    else Lookup(comps[1..], g, f)
  }

  function Comp(t: Table, g: nat, f: nat): nat {
    Lookup(t.comps, g, f)
  }

  lemma {:induction false} LookupFirst(comps: seq<CompRow>, g: nat, f: nat, i: int)
    requires RowFor(comps, g, f, i) && forall j :: RowFor(comps, g, f, j) ==> i <= j
    ensures Lookup(comps, g, f) == comps[i].result
    decreases |comps|
  {
    if i > 0 {
      var rest := comps[1..];
      assert !RowFor(comps, g, f, 0);
      var i' := i - 1;
      assert RowFor(rest, g, f, i');
      forall j | RowFor(rest, g, f, j) ensures i' <= j { var j' := j + 1; assert RowFor(comps, g, f, j'); }
      LookupFirst(rest, g, f, i');
    }
  }

  lemma LookupUnique(comps: seq<CompRow>, g: nat, f: nat, i: int)
    requires UniqueRow(comps, g, f) && RowFor(comps, g, f, i)
    ensures Lookup(comps, g, f) == comps[i].result
  {
    LookupFirst(comps, g, f, i);
  }

  // ---- the laws ----

  ghost predicate IsMor(t: Table, m: int) {
    0 <= m < |t.mors|
  }

  ghost predicate Composable(t: Table, g: int, f: int) {
    IsMor(t, g) && IsMor(t, f) && t.mors[f].cod == t.mors[g].dom
  }

  /** Indices that the builder's operations accept. */
  ghost predicate InRange(t: Table) {
    && (forall m :: 0 <= m < |t.mors| ==> t.mors[m].dom < |t.ident| && t.mors[m].cod < |t.ident|)
    && (forall o :: 0 <= o < |t.ident| && t.ident[o].Ident? ==> t.ident[o].mor < |t.mors|)
    && (forall i :: 0 <= i < |t.comps| ==> t.comps[i].g < |t.mors| && t.comps[i].f < |t.mors| && t.comps[i].result < |t.mors|)
  }

  ghost predicate IdentityOf(t: Table, o: int) {
    0 <= o < |t.ident| && t.ident[o].Ident? && t.ident[o].mor < |t.mors| && t.mors[t.ident[o].mor] == Arrow(o, o)
  }

  ghost predicate RowTyped(t: Table, i: int)
    requires InRange(t) && 0 <= i < |t.comps|
  {
    var r := t.comps[i];
    && t.mors[r.f].cod == t.mors[r.g].dom
    && t.mors[r.result] == Arrow(t.mors[r.f].dom, t.mors[r.g].cod)
  }

  ghost predicate Associates(t: Table, h: int, g: int, f: int) {
    IsMor(t, h) && IsMor(t, g) && IsMor(t, f) ==> Comp(t, h, Comp(t, g, f)) == Comp(t, Comp(t, h, g), f)
  }

  ghost predicate Units(t: Table, f: int)
    requires InRange(t) && IsMor(t, f) && forall o :: 0 <= o < |t.ident| ==> IdentityOf(t, o)
  {
    assert IdentityOf(t, t.mors[f].cod) && IdentityOf(t, t.mors[f].dom);
    Comp(t, t.ident[t.mors[f].cod].mor, f) == f && Comp(t, f, t.ident[t.mors[f].dom].mor) == f
  }

  ghost predicate Typing(t: Table) {
    InRange(t) && (forall o :: 0 <= o < |t.ident| ==> IdentityOf(t, o)) && forall i :: 0 <= i < |t.comps| ==> RowTyped(t, i)
  }

  ghost predicate Total(t: Table) {
    forall g, f {:trigger Composable(t, g, f)} :: Composable(t, g, f) ==> UniqueRow(t.comps, g, f)
  }

  ghost predicate Associative(t: Table) {
    forall h, g, f {:trigger Composable(t, h, g), Composable(t, g, f)} :: Composable(t, g, f) && Composable(t, h, g) ==> Associates(t, h, g, f)
  }

  /** The table is a category. */
  ghost predicate IsCategory(t: Table) {
    Typing(t) && Total(t) && Associative(t) && forall f :: IsMor(t, f) ==> Units(t, f)
  }

  /** Composites are typed. */
  lemma CompTyped(t: Table, g: nat, f: nat)
    requires Typing(t) && Total(t) && Composable(t, g, f)
    ensures IsMor(t, Comp(t, g, f)) && t.mors[Comp(t, g, f)] == Arrow(t.mors[f].dom, t.mors[g].cod)
  {
    var i :| RowFor(t.comps, g, f, i);
    LookupUnique(t.comps, g, f, i);
    assert RowTyped(t, i);
  }

  // ---- the opposite ----

  function FlipArrow(a: Arrow): Arrow { Arrow(a.cod, a.dom) }
  function FlipRow(r: CompRow): CompRow { CompRow(r.f, r.g, r.result) }

  function Opposite(t: Table): (o: Table)
    ensures |o.mors| == |t.mors| && forall m :: 0 <= m < |t.mors| ==> o.mors[m] == FlipArrow(t.mors[m])
    ensures |o.comps| == |t.comps| && forall i :: 0 <= i < |t.comps| ==> o.comps[i] == FlipRow(t.comps[i])
    ensures o.ident == t.ident
  {
    Table(t.ident,
          seq(|t.mors|, m requires 0 <= m < |t.mors| => FlipArrow(t.mors[m])),
          seq(|t.comps|, i requires 0 <= i < |t.comps| => FlipRow(t.comps[i])))
  }

  lemma {:induction false} LookupFlipped(a: seq<CompRow>, b: seq<CompRow>, g: nat, f: nat)
    requires |a| == |b| && forall i :: 0 <= i < |a| ==> b[i] == FlipRow(a[i])
    ensures Lookup(b, f, g) == Lookup(a, g, f)
    decreases |a|
  {
    if a != [] { LookupFlipped(a[1..], b[1..], g, f); }
  }

  lemma OppositeComp(t: Table, g: nat, f: nat)
    ensures Comp(Opposite(t), f, g) == Comp(t, g, f)
  {
    LookupFlipped(t.comps, Opposite(t).comps, g, f);
  }

  lemma OppositeTotal(t: Table)
    requires Typing(t) && Total(t)
    ensures Typing(Opposite(t)) && Total(Opposite(t))
  {
    var o := Opposite(t);
    forall i | 0 <= i < |o.comps| ensures RowTyped(o, i) { assert RowTyped(t, i); }
    forall x | 0 <= x < |o.ident| ensures IdentityOf(o, x) { assert IdentityOf(t, x); }
    forall g, f | Composable(o, g, f) ensures UniqueRow(o.comps, g, f) {
      assert Composable(t, f, g);
      var i :| RowFor(t.comps, f, g, i);
      assert RowFor(o.comps, g, f, i);
      forall j, k | RowFor(o.comps, g, f, j) && RowFor(o.comps, g, f, k) ensures j == k {
        assert RowFor(t.comps, f, g, j) && RowFor(t.comps, f, g, k);
      }
    }
  }

  /** The opposite of a category is a category. */
  lemma OppositeIsCategory(t: Table)
    requires IsCategory(t)
    ensures IsCategory(Opposite(t))
  {
    var o := Opposite(t);
    OppositeTotal(t);
    forall h, g, f | Composable(o, g, f) && Composable(o, h, g) ensures Associates(o, h, g, f) {
      assert Composable(t, f, g) && Composable(t, g, h);
      assert Associates(t, f, g, h);
      OppositeComp(t, f, g);
      OppositeComp(t, g, h);
      OppositeComp(t, Comp(t, f, g), h);
      OppositeComp(t, f, Comp(t, g, h));
    }
    forall f | IsMor(o, f) ensures Units(o, f) {
      assert Units(t, f);
      assert IdentityOf(t, t.mors[f].cod) && IdentityOf(t, t.mors[f].dom);
      OppositeComp(t, t.ident[t.mors[f].cod].mor, f);
      OppositeComp(t, f, t.ident[t.mors[f].dom].mor);
    }
  }

  // ---- validation ----

  ghost function CountRows(comps: seq<CompRow>, g: nat, f: nat): nat {
    if comps == [] then 0
    else
      var n := |comps| - 1;
      CountRows(comps[..n], g, f) + if comps[n].g == g && comps[n].f == f then 1 else 0
  }

  lemma {:induction false} CountPositive(comps: seq<CompRow>, g: nat, f: nat)
    ensures CountRows(comps, g, f) > 0 <==> exists i :: RowFor(comps, g, f, i)
  {
    if comps != [] {
      var n := |comps| - 1;
      CountPositive(comps[..n], g, f);
      if i :| RowFor(comps, g, f, i) { if i < n { assert RowFor(comps[..n], g, f, i); } }
      if i :| RowFor(comps[..n], g, f, i) { assert RowFor(comps, g, f, i); }
      if comps[n].g == g && comps[n].f == f { assert RowFor(comps, g, f, n); }
    }
  }

  lemma {:induction false} CountOne(comps: seq<CompRow>, g: nat, f: nat)
    ensures CountRows(comps, g, f) == 1 <==> UniqueRow(comps, g, f)
  {
    if comps != [] {
      var n := |comps| - 1;
      var init := comps[..n];
      CountOne(init, g, f);
      CountPositive(init, g, f);
      CountPositive(comps, g, f);
      forall i ensures RowFor(comps, g, f, i) <==> RowFor(init, g, f, i) || (i == n && comps[n].g == g && comps[n].f == f) {}
      if CountRows(comps, g, f) == 1 {
        forall i, j | RowFor(comps, g, f, i) && RowFor(comps, g, f, j) ensures i == j {}
      }
      if UniqueRow(comps, g, f) {
        if comps[n].g == g && comps[n].f == f {
          assert RowFor(comps, g, f, n);
        } else {
          forall i, j | RowFor(init, g, f, i) && RowFor(init, g, f, j) ensures i == j { assert RowFor(comps, g, f, i) && RowFor(comps, g, f, j); }
        }
      }
    }
  }

  /** comp_lookup: the number of rows for g and f, and the last one's result. */
  method CompLookup(t: Table, g: nat, f: nat) returns (result: nat, count: nat)
    ensures count == 1 <==> UniqueRow(t.comps, g, f)
    ensures count == 1 ==> result == Comp(t, g, f)
  {
    result, count := 0, 0;
    for i := 0 to |t.comps|
      invariant count == CountRows(t.comps[..i], g, f)
      invariant count > 0 ==> exists k :: RowFor(t.comps, g, f, k) && t.comps[k].result == result
    {
      assert t.comps[..i + 1][..i] == t.comps[..i];
      if t.comps[i].g == g && t.comps[i].f == f {
        assert RowFor(t.comps, g, f, i);
        result := t.comps[i].result;
        count := count + 1;
      }
    }
    assert t.comps[..|t.comps|] == t.comps;
    CountOne(t.comps, g, f);
    if count == 1 {
      ghost var k :| RowFor(t.comps, g, f, k) && t.comps[k].result == result;
      LookupUnique(t.comps, g, f, k);
    }
  }

  /** store_comp: what the finished category composes with. */
  method StoreComp(t: Table, g: nat, f: nat) returns (result: Ident)
    ensures result == Unset <==> forall i :: !RowFor(t.comps, g, f, i)
    ensures result.Ident? ==> result.mor == Comp(t, g, f)
  {
    for i := 0 to |t.comps|
      invariant forall j :: 0 <= j < i ==> !RowFor(t.comps, g, f, j)
    {
      if t.comps[i].g == g && t.comps[i].f == f {
        assert RowFor(t.comps, g, f, i);
        LookupFirst(t.comps, g, f, i);
        return Ident(t.comps[i].result);
      }
    }
    return Unset;
  }

  /** validate_ident_refs and validate_ident_typing. */
  method ValidateIdentities(t: Table) returns (ok: bool)
    requires InRange(t)
    ensures ok <==> forall o :: 0 <= o < |t.ident| ==> IdentityOf(t, o)
  {
    for o := 0 to |t.ident|
      invariant forall x :: 0 <= x < o ==> t.ident[x].Ident?
    {
      if t.ident[o].Unset? { assert !IdentityOf(t, o); return false; }
    }
    for o := 0 to |t.ident|
      invariant forall x :: 0 <= x < o ==> IdentityOf(t, x)
    {
      var row := t.mors[t.ident[o].mor];
      if row.dom != o || row.cod != o { assert !IdentityOf(t, o); return false; }
    }
    return true;
  }

  /** validate_comp_rows. */
  method ValidateRows(t: Table) returns (ok: bool)
    requires InRange(t)
    ensures ok <==> forall i :: 0 <= i < |t.comps| ==> RowTyped(t, i)
  {
    for i := 0 to |t.comps|
      invariant forall x :: 0 <= x < i ==> RowTyped(t, x)
    {
      var r := t.comps[i];
      var f, g, c := t.mors[r.f], t.mors[r.g], t.mors[r.result];
      if f.cod != g.dom || c.dom != f.dom || c.cod != g.cod { assert !RowTyped(t, i); return false; }
    }
    return true;
  }

  /** validate_completeness. */
  method ValidateCompleteness(t: Table) returns (ok: bool)
    requires InRange(t)
    ensures ok <==> Total(t)
  {
    for g := 0 to |t.mors|
      invariant forall g', f {:trigger Composable(t, g', f)} :: Composable(t, g', f) && g' < g ==> UniqueRow(t.comps, g', f)
    {
      for f := 0 to |t.mors|
        invariant forall f' {:trigger Composable(t, g, f')} :: Composable(t, g, f') && f' < f ==> UniqueRow(t.comps, g, f')
      {
        if t.mors[f].cod == t.mors[g].dom {
          var result, count := CompLookup(t, g, f);
          if count != 1 { assert Composable(t, g, f); return false; }
        }
      }
    }
    return true;
  }

  /** assoc_pair_ok: every h after the pair. */
  method AssocPair(t: Table, g: nat, f: nat) returns (ok: bool)
    requires Typing(t) && Total(t) && Composable(t, g, f)
    ensures ok <==> forall h {:trigger Composable(t, h, g)} :: Composable(t, h, g) ==> Associates(t, h, g, f)
  {
    var gf, n := CompLookup(t, g, f);
    CompTyped(t, g, f);
    for h := 0 to |t.mors|
      invariant forall h' {:trigger Composable(t, h', g)} :: Composable(t, h', g) && h' < h ==> Associates(t, h', g, f)
    {
      if t.mors[h].dom == t.mors[g].cod {
        assert Composable(t, h, g);
        CompTyped(t, h, g);
        var hg, n1 := CompLookup(t, h, g);
        assert Composable(t, hg, f) && Composable(t, h, gf);
        var lhs, n2 := CompLookup(t, hg, f);
        var rhs, n3 := CompLookup(t, h, gf);
        if lhs != rhs { assert !Associates(t, h, g, f); return false; }
      }
    }
    return true;
  }

  /** validate_associativity. */
  method ValidateAssociativity(t: Table) returns (ok: bool)
    requires Typing(t) && Total(t)
    ensures ok <==> Associative(t)
  {
    for g := 0 to |t.mors|
      invariant forall h, g', f {:trigger Composable(t, h, g'), Composable(t, g', f)} :: Composable(t, g', f) && Composable(t, h, g') && g' < g ==> Associates(t, h, g', f)
    {
      for f := 0 to |t.mors|
        invariant forall h, f' {:trigger Composable(t, h, g), Composable(t, g, f')} :: Composable(t, g, f') && Composable(t, h, g) && f' < f ==> Associates(t, h, g, f')
      {
        if t.mors[f].cod == t.mors[g].dom {
          assert Composable(t, g, f);
          var pair := AssocPair(t, g, f);
          if !pair { return false; }
        }
      }
    }
    return true;
  }

  /** validate_identities. */
  method ValidateUnits(t: Table) returns (ok: bool)
    requires Typing(t) && Total(t)
    ensures ok <==> forall f :: IsMor(t, f) ==> Units(t, f)
  {
    for f := 0 to |t.mors|
      invariant forall f' :: 0 <= f' < f ==> Units(t, f')
    {
      var dom, cod := t.mors[f].dom, t.mors[f].cod;
      assert IdentityOf(t, cod) && IdentityOf(t, dom);
      assert Composable(t, t.ident[cod].mor, f) && Composable(t, f, t.ident[dom].mor);
      var left, n := CompLookup(t, t.ident[cod].mor, f);
      if n != 1 || left != f { assert !Units(t, f); return false; }
      var right, m := CompLookup(t, f, t.ident[dom].mor);
      if m != 1 || right != f { assert !Units(t, f); return false; }
    }
    return true;
  }

  /** builder_valid: accepts exactly the categories. */
  method TableValid(t: Table) returns (ok: bool)
    requires InRange(t)
    ensures ok <==> IsCategory(t)
  {
    ok := ValidateIdentities(t);
    if !ok { return; }
    ok := ValidateRows(t);
    if !ok { return; }
    ok := ValidateCompleteness(t);
    if !ok { return; }
    ok := ValidateAssociativity(t);
    if !ok { return; }
    ok := ValidateUnits(t);
  }

  // ---- the builder ----

  class Builder {
    var table: Table

    ghost predicate Valid()
      reads this
    {
      InRange(table)
    }

    constructor ()
      ensures Valid() && table == Table([], [], [])
    {
      table := Table([], [], []);
    }

    method AddObject() returns (id: nat)
      requires Valid()
      modifies this
      ensures Valid() && id == |old(table).ident| && table == old(table).(ident := old(table).ident + [Unset])
    {
      id := |table.ident|;
      table := table.(ident := table.ident + [Unset]);
    }

    method AddMorphism(dom: nat, cod: nat) returns (ok: bool, id: nat)
      requires Valid()
      modifies this
      ensures Valid() && (ok <==> dom < |old(table).ident| && cod < |old(table).ident|)
      ensures ok ==> id == |old(table).mors| && table == old(table).(mors := old(table).mors + [Arrow(dom, cod)])
      ensures !ok ==> table == old(table)
    {
      if dom >= |table.ident| || cod >= |table.ident| { return false, 0; }
      ok, id := true, |table.mors|;
      table := table.(mors := table.mors + [Arrow(dom, cod)]);
    }

    method SetIdentity(obj: nat, mor: nat) returns (ok: bool)
      requires Valid()
      modifies this
      ensures Valid() && (ok <==> obj < |old(table).ident| && mor < |old(table).mors|)
      ensures table == if ok then old(table).(ident := old(table).ident[obj := Ident(mor)]) else old(table)
    {
      if obj >= |table.ident| || mor >= |table.mors| { return false; }
      table := table.(ident := table.ident[obj := Ident(mor)]);
      return true;
    }

    method SetComposition(g: nat, f: nat, result: nat) returns (ok: bool)
      requires Valid()
      modifies this
      ensures Valid() && (ok <==> g < |old(table).mors| && f < |old(table).mors| && result < |old(table).mors|)
      ensures table == if ok then old(table).(comps := old(table).comps + [CompRow(g, f, result)]) else old(table)
    {
      if g >= |table.mors| || f >= |table.mors| || result >= |table.mors| { return false; }
      table := table.(comps := table.comps + [CompRow(g, f, result)]);
      return true;
    }

    /** cat89_finite_build: hands out a category exactly when the table is one. */
    method Build() returns (ok: bool, t: Table)
      requires Valid()
      ensures (ok <==> IsCategory(table)) && t == table
    {
      t := table;
      ok := TableValid(t);
    }
  }
}
