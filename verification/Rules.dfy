/** Rules as callers write them, their check, and their compilation to variable slots
    (dl89_rule.c). */
module Rules {
  import opened Common
  import opened Datalog
  import opened DeltaTables

  datatype SourceTerm = Value(c: nat) | Var(id: nat)
  datatype SourceAtom = SourceAtom(rel: nat, terms: seq<SourceTerm>)
  datatype SourceRule = SourceRule(head: SourceAtom, body: seq<SourceAtom>)

  // ---- meaning ----

  /** Values for the variables of a rule, by identifier. */
  type Assignment = map<nat, nat>

  ghost function TermValue(t: SourceTerm, m: Assignment): nat {
    match t
    case Value(c) => c
    case Var(v) => if v in m then m[v] else 0
  }

  ghost function Instance(a: SourceAtom, m: Assignment): (f: Fact)
    ensures f.rel == a.rel && |f.args| == |a.terms|
    ensures forall k :: 0 <= k < |a.terms| ==> f.args[k] == TermValue(a.terms[k], m)
  {
    Fact(a.rel, seq(|a.terms|, k requires 0 <= k < |a.terms| => TermValue(a.terms[k], m)))
  }

  ghost predicate Holds(rules: seq<SourceRule>, k: int, m: Assignment, facts: set<Fact>) {
    0 <= k < |rules| && forall b :: 0 <= b < |rules[k].body| ==> Instance(rules[k].body[b], m) in facts
  }

  ghost predicate SourceClosed(rules: seq<SourceRule>, facts: set<Fact>) {
    forall k, m {:trigger Holds(rules, k, m, facts)} :: Holds(rules, k, m, facts) ==> Instance(rules[k].head, m) in facts
  }

  /** The least set of facts that contains base and is closed under the rules. */
  ghost predicate SourceLeast(rules: seq<SourceRule>, base: set<Fact>, facts: set<Fact>) {
    base <= facts && SourceClosed(rules, facts) && SourceBelow(rules, base, facts)
  }

  ghost predicate SourceBelow(rules: seq<SourceRule>, base: set<Fact>, facts: set<Fact>) {
    forall t: set<Fact> {:trigger SourceClosed(rules, t)} :: base <= t && SourceClosed(rules, t) ==> facts <= t
  }

  // ---- the check ----

  datatype Arity = Arity(rel: nat, arity: nat)

  /** atom_of: the head is atom 0. */
  function AtomOf(r: SourceRule, i: nat): SourceAtom
    requires i <= |r.body|
  {
    if i == 0 then r.head else r.body[i - 1]
  }

  ghost predicate SameArity(a: SourceAtom, b: SourceAtom) {
    a.rel == b.rel ==> |a.terms| == |b.terms|
  }

  /** No two atoms use one relation with two arities. */
  ghost predicate AritiesAgree(r: SourceRule) {
    forall i, j :: 0 <= i < j <= |r.body| ==> SameArity(AtomOf(r, i), AtomOf(r, j))
  }

  ghost predicate Fits(reg: seq<Arity>, rel: nat, arity: nat) {
    forall k :: 0 <= k < |reg| && reg[k].rel == rel ==> reg[k].arity == arity
  }

  /** A relation is registered at most once. */
  ghost predicate Registry(reg: seq<Arity>) {
    forall i, j :: 0 <= i < j < |reg| ==> reg[i].rel != reg[j].rel
  }

  ghost predicate RegistryAgrees(reg: seq<Arity>, r: SourceRule) {
    forall i {:trigger AtomOf(r, i)} :: 0 <= i <= |r.body| ==> Fits(reg, AtomOf(r, i).rel, |AtomOf(r, i).terms|)
  }

  ghost predicate InBody(r: SourceRule, v: nat) {
    exists b :: 0 <= b < |r.body| && Var(v) in r.body[b].terms
  }

  /** Every variable of the head occurs in the body. */
  ghost predicate HeadSafe(r: SourceRule) {
    forall p :: 0 <= p < |r.head.terms| && r.head.terms[p].Var? ==> InBody(r, r.head.terms[p].id)
  }

  /** dl89_registry_find. */
  method RegistryFind(reg: seq<Arity>, rel: nat) returns (a: Option<Arity>)
    ensures a.Some? ==> a.value in reg && a.value.rel == rel
    ensures a.None? ==> forall k :: 0 <= k < |reg| ==> reg[k].rel != rel
  {
    for k := 0 to |reg|
      invariant forall j :: 0 <= j < k ==> reg[j].rel != rel
    {
      if reg[k].rel == rel { return Some(reg[k]); }
    }
    return None;
  }

  /** check_rule_arities. */
  method CheckArities(r: SourceRule) returns (ok: bool)
    ensures ok <==> AritiesAgree(r)
  {
    for i := 0 to |r.body| + 1
      invariant forall x, y :: 0 <= x < i && x < y <= |r.body| ==> SameArity(AtomOf(r, x), AtomOf(r, y))
    {
      for j := i + 1 to |r.body| + 1
        invariant forall y :: i < y < j ==> SameArity(AtomOf(r, i), AtomOf(r, y))
      {
        var a, b := AtomOf(r, i), AtomOf(r, j);
        if a.rel == b.rel && |a.terms| != |b.terms| {
          assert !SameArity(a, b);
          return false;
        }
      }
    }
    return true;
  }

  /** check_rule_registry. */
  method CheckRegistry(reg: seq<Arity>, r: SourceRule) returns (ok: bool)
    requires Registry(reg)
    ensures ok <==> RegistryAgrees(reg, r)
  {
    for i := 0 to |r.body| + 1
      invariant forall x {:trigger AtomOf(r, x)} :: 0 <= x < i ==> Fits(reg, AtomOf(r, x).rel, |AtomOf(r, x).terms|)
    {
      var a := AtomOf(r, i);
      var found := RegistryFind(reg, a.rel);
      if found.Some? && found.value.arity != |a.terms| {
        assert !Fits(reg, a.rel, |a.terms|);
        return false;
      }
    }
    return true;
  }

  /** var_in_body. */
  method VarInBody(r: SourceRule, v: nat) returns (found: bool)
    ensures found <==> InBody(r, v)
  {
    for b := 0 to |r.body|
      invariant forall x :: 0 <= x < b ==> Var(v) !in r.body[x].terms
    {
      var terms := r.body[b].terms;
      for p := 0 to |terms|
        invariant forall q :: 0 <= q < p ==> terms[q] != Var(v)
      {
        if terms[p].Var? && terms[p].id == v { return true; }
      }
    }
    return false;
  }

  /** check_head_safety. */
  method CheckSafety(r: SourceRule) returns (ok: bool)
    ensures ok <==> HeadSafe(r)
  {
    for p := 0 to |r.head.terms|
      invariant forall q :: 0 <= q < p && r.head.terms[q].Var? ==> InBody(r, r.head.terms[q].id)
    {
      if r.head.terms[p].Var? {
        var found := VarInBody(r, r.head.terms[p].id);
        if !found { return false; }
      }
    }
    return true;
  }

  ghost predicate Accepts(reg: seq<Arity>, r: SourceRule) {
    AritiesAgree(r) && RegistryAgrees(reg, r) && HeadSafe(r)
  }

  /** dl89_rule_check. */
  method RuleCheck(reg: seq<Arity>, r: SourceRule) returns (ok: bool)
    requires Registry(reg)
    ensures ok <==> Accepts(reg, r)
  {
    ok := CheckArities(r);
    if ok { ok := CheckRegistry(reg, r); }
    if ok { ok := CheckSafety(r); }
  }

  // ---- compilation ----

  ghost predicate Distinct(ids: seq<nat>) {
    forall i, j :: 0 <= i < j < |ids| ==> ids[i] != ids[j]
  }

  /** The compiled term stands for the source term when slot i holds variable ids[i]. */
  ghost predicate TermMeans(t: SourceTerm, c: Term, ids: seq<nat>) {
    match c
    case Const(v) => t == Value(v)
    case Slot(i) => i < |ids| && t == Var(ids[i])
  }

  ghost predicate TermsMean(ts: seq<SourceTerm>, cs: seq<Term>, ids: seq<nat>) {
    |cs| <= |ts| && forall k :: 0 <= k < |cs| ==> TermMeans(ts[k], cs[k], ids)
  }

  ghost predicate AtomMeans(a: SourceAtom, c: Atom, ids: seq<nat>) {
    a.rel == c.rel && |a.terms| == |c.terms| && TermsMean(a.terms, c.terms, ids)
  }

  ghost predicate AtomsMean(a: seq<SourceAtom>, c: seq<Atom>, ids: seq<nat>) {
    |c| <= |a| && forall b :: 0 <= b < |c| ==> AtomMeans(a[b], c[b], ids)
  }

  ghost predicate RuleMeans(r: SourceRule, c: Rule, ids: seq<nat>) {
    && Distinct(ids) && c.vars == |ids|
    && AtomMeans(r.head, c.head, ids) && |c.body| == |r.body| && AtomsMean(r.body, c.body, ids)
  }

  /** var_slot. */
  method VarSlot(ids: seq<nat>, v: nat) returns (slot: Option<nat>)
    ensures slot.Some? ==> slot.value < |ids| && ids[slot.value] == v
    ensures slot.None? ==> v !in ids
  {
    for i := 0 to |ids|
      invariant v !in ids[..i]
    {
      if ids[i] == v { return Some(i); }
    }
    return None;
  }

  /** copy_terms: one atom, allotting slots to variables on first sight. */
  method CompileAtom(a: SourceAtom, ids: seq<nat>) returns (c: Atom, ids': seq<nat>)
    requires Distinct(ids)
    ensures Distinct(ids') && ids <= ids' && AtomMeans(a, c, ids')
  {
    var terms := [];
    ids' := ids;
    for p := 0 to |a.terms|
      invariant |terms| == p && Distinct(ids') && ids <= ids' && TermsMean(a.terms, terms, ids')
    {
      ghost var before := ids';
      match a.terms[p] {
        case Value(v) =>
          terms := terms + [Const(v)];
        case Var(v) =>
          var slot := VarSlot(ids', v);
          if slot.None? {
            slot := Some(|ids'|);
            ids' := ids' + [v];
          }
          terms := terms + [Slot(slot.value)];
      }
      TermsGrow(a.terms, terms[..p], before, ids');
    }
    c := Atom(a.rel, terms);
  }

  lemma TermsGrow(ts: seq<SourceTerm>, cs: seq<Term>, ids: seq<nat>, ids': seq<nat>)
    requires TermsMean(ts, cs, ids) && ids <= ids'
    ensures TermsMean(ts, cs, ids')
  {
    forall k | 0 <= k < |cs| ensures TermMeans(ts[k], cs[k], ids') { assert TermMeans(ts[k], cs[k], ids); }
  }

  /** dl89_crule_compile: head first, then the body, sharing one variable table. */
  method CompileRule(r: SourceRule) returns (c: Rule, ids: seq<nat>)
    ensures RuleMeans(r, c, ids)
  {
    var head;
    head, ids := CompileAtom(r.head, []);
    var body := [];
    for b := 0 to |r.body|
      invariant |body| == b && Distinct(ids) && AtomMeans(r.head, head, ids) && AtomsMean(r.body, body, ids)
    {
      ghost var before := ids;
      var atom;
      atom, ids := CompileAtom(r.body[b], ids);
      TermsGrow(r.head.terms, head.terms, before, ids);
      AtomsGrow(r.body, body, before, ids);
      body := body + [atom];
    }
    c := Rule(head, body, |ids|);
  }

  lemma AtomsGrow(a: seq<SourceAtom>, c: seq<Atom>, ids: seq<nat>, ids': seq<nat>)
    requires AtomsMean(a, c, ids) && ids <= ids'
    ensures AtomsMean(a, c, ids')
  {
    forall b | 0 <= b < |c| ensures AtomMeans(a[b], c[b], ids') { TermsGrow(a[b].terms, c[b].terms, ids, ids'); }
  }

  // ---- compilation preserves meaning ----

  lemma AtomMeansOk(a: SourceAtom, c: Atom, ids: seq<nat>)
    requires AtomMeans(a, c, ids)
    ensures AtomOk(c, |ids|)
  {
    forall k | 0 <= k < |c.terms| && c.terms[k].Slot? ensures c.terms[k].i < |ids| { assert TermMeans(a.terms[k], c.terms[k], ids); }
  }

  lemma OccursMeans(a: SourceAtom, c: Atom, ids: seq<nat>, i: nat)
    requires AtomMeans(a, c, ids) && Distinct(ids) && i < |ids|
    ensures Occurs(c, i) <==> Var(ids[i]) in a.terms
  {
    if Occurs(c, i) {
      var k :| 0 <= k < |c.terms| && c.terms[k] == Slot(i);
      assert TermMeans(a.terms[k], c.terms[k], ids);
    }
    if Var(ids[i]) in a.terms {
      var k :| 0 <= k < |a.terms| && a.terms[k] == Var(ids[i]);
      assert TermMeans(a.terms[k], c.terms[k], ids);
    }
  }

  /** A safe rule compiles to a well-formed one. */
  lemma CompiledOk(r: SourceRule, c: Rule, ids: seq<nat>)
    requires RuleMeans(r, c, ids) && HeadSafe(r)
    ensures RuleOk(c)
  {
    AtomMeansOk(r.head, c.head, ids);
    forall b | 0 <= b < |c.body| ensures AtomOk(c.body[b], c.vars) { AtomMeansOk(r.body[b], c.body[b], ids); }
    forall i: nat | Occurs(c.head, i) ensures exists b :: 0 <= b < |c.body| && Occurs(c.body[b], i) {
      OccursMeans(r.head, c.head, ids, i);
      var v := ids[i];
      var p :| 0 <= p < |r.head.terms| && r.head.terms[p] == Var(v);
      assert InBody(r, v);
      var b :| 0 <= b < |r.body| && Var(v) in r.body[b].terms;
      OccursMeans(r.body[b], c.body[b], ids, i);
    }
  }

  /** s and m give the same values to the compiled variables. */
  ghost predicate Agree(ids: seq<nat>, s: Subst, m: Assignment) {
    |s| == |ids| && forall i :: 0 <= i < |ids| ==> s[i] == TermValue(Var(ids[i]), m)
  }

  lemma AgreeApply(a: SourceAtom, c: Atom, ids: seq<nat>, s: Subst, m: Assignment)
    requires AtomMeans(a, c, ids) && Agree(ids, s, m)
    ensures Apply(c, s) == Instance(a, m)
  {
    forall k | 0 <= k < |c.terms| ensures Apply(c, s).args[k] == Instance(a, m).args[k] {
      assert TermMeans(a.terms[k], c.terms[k], ids);
    }
  }

  lemma ToSubst(ids: seq<nat>, m: Assignment) returns (s: Subst)
    ensures Agree(ids, s, m)
  {
    s := seq(|ids|, i requires 0 <= i < |ids| => TermValue(Var(ids[i]), m));
  }

  lemma {:induction false} ToAssignment(ids: seq<nat>, s: Subst) returns (m: Assignment)
    requires Distinct(ids) && |s| == |ids|
    ensures Agree(ids, s, m)
  {
    if ids == [] {
      m := map[];
    } else {
      var n := |ids| - 1;
      var m' := ToAssignment(ids[..n], s[..n]);
      m := m'[ids[n] := s[n]];
      forall i | 0 <= i < |ids| ensures s[i] == TermValue(Var(ids[i]), m) {
        if i < n { assert s[..n][i] == TermValue(Var(ids[..n][i]), m'); }
      }
    }
  }

  ghost predicate ProgramMeans(src: seq<SourceRule>, rules: seq<Rule>, ids: seq<seq<nat>>) {
    |src| == |rules| == |ids| && forall k :: 0 <= k < |src| ==> RuleMeans(src[k], rules[k], ids[k])
  }

  lemma FiresMeans(src: seq<SourceRule>, rules: seq<Rule>, ids: seq<seq<nat>>, k: nat, s: Subst, m: Assignment, facts: set<Fact>)
    requires ProgramMeans(src, rules, ids) && k < |src| && Agree(ids[k], s, m)
    ensures Fires(rules, k, s, facts) <==> Holds(src, k, m, facts)
    ensures Apply(rules[k].head, s) == Instance(src[k].head, m)
  {
    assert RuleMeans(src[k], rules[k], ids[k]);
    AgreeApply(src[k].head, rules[k].head, ids[k], s, m);
    forall b | 0 <= b < |rules[k].body| ensures Apply(rules[k].body[b], s) == Instance(src[k].body[b], m) {
      AgreeApply(src[k].body[b], rules[k].body[b], ids[k], s, m);
    }
  }

  /** The same sets are closed under the compiled and the source rules. */
  lemma ClosedMeans(src: seq<SourceRule>, rules: seq<Rule>, ids: seq<seq<nat>>, facts: set<Fact>)
    requires ProgramMeans(src, rules, ids)
    ensures Closed(rules, facts) <==> SourceClosed(src, facts)
  {
    if Closed(rules, facts) {
      forall k, m | Holds(src, k, m, facts) ensures Instance(src[k].head, m) in facts {
        var s := ToSubst(ids[k], m);
        FiresMeans(src, rules, ids, k, s, m, facts);
      }
    }
    if SourceClosed(src, facts) {
      forall k, s | Fires(rules, k, s, facts) ensures Apply(rules[k].head, s) in facts {
        assert RuleMeans(src[k], rules[k], ids[k]);
        var m := ToAssignment(ids[k], s);
        FiresMeans(src, rules, ids, k, s, m, facts);
      }
    }
  }

  /** So their least models are the same. */
  lemma CompilePreservesMeaning(src: seq<SourceRule>, rules: seq<Rule>, ids: seq<seq<nat>>, base: set<Fact>, facts: set<Fact>)
    requires ProgramMeans(src, rules, ids)
    ensures Below(rules, base, facts) <==> SourceBelow(src, base, facts)
    ensures LeastModel(rules, base, facts) <==> SourceLeast(src, base, facts)
  {
    ClosedMeans(src, rules, ids, facts);
    if Below(rules, base, facts) {
      forall t: set<Fact> | base <= t && SourceClosed(src, t) ensures facts <= t { ClosedMeans(src, rules, ids, t); }
    }
    if SourceBelow(src, base, facts) {
      forall t: set<Fact> | base <= t && Closed(rules, t) ensures facts <= t { ClosedMeans(src, rules, ids, t); }
    }
  }
}
