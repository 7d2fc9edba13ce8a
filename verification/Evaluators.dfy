/** The evaluator handle (dl89_eval.c): rules and facts are added, then run. */
module Evaluators {
  import opened Common
  import opened Datalog
  import opened DeltaTables
  import opened Join
  import opened Fixpoint
  import opened Rules

  datatype EvalStatus = Done | BadProgram | StoreFailed

  /** Every fact of a registered relation has the registered arity. */
  ghost predicate Typed(reg: seq<Arity>, facts: set<Fact>) {
    forall f :: f in facts ==> Arity(f.rel, |f.args|) in reg
  }

  ghost predicate Registered(reg: seq<Arity>, a: SourceAtom) {
    Arity(a.rel, |a.terms|) in reg
  }

  ghost predicate AllRegistered(reg: seq<Arity>, r: SourceRule, n: int) {
    forall i {:trigger AtomOf(r, i)} :: 0 <= i < n <= |r.body| + 1 ==> Registered(reg, AtomOf(r, i))
  }

  ghost predicate HeadsRegistered(reg: seq<Arity>, program: seq<SourceRule>) {
    forall k :: 0 <= k < |program| ==> Registered(reg, program[k].head)
  }

  /** register_atom. */
  method RegisterAtom(reg: seq<Arity>, a: SourceAtom) returns (reg': seq<Arity>)
    requires Registry(reg) && Fits(reg, a.rel, |a.terms|)
    ensures Registry(reg') && reg <= reg' && Registered(reg', a)
    ensures forall e :: e in reg' ==> e in reg || e == Arity(a.rel, |a.terms|)
  {
    var found := RegistryFind(reg, a.rel);
    if found.Some? {
      return reg;
    }
    reg' := reg + [Arity(a.rel, |a.terms|)];
    assert reg'[|reg|] == Arity(a.rel, |a.terms|);
  }

  ghost predicate OnlyAtoms(reg: seq<Arity>, reg': seq<Arity>, r: SourceRule, n: int) {
    forall e {:trigger e in reg'} :: e in reg' ==> e in reg || exists i :: 0 <= i < n <= |r.body| + 1 && e == Arity(AtomOf(r, i).rel, |AtomOf(r, i).terms|)
  }

  /** An atom fits what has been registered so far of its own rule. */
  lemma StillFits(reg: seq<Arity>, reg': seq<Arity>, r: SourceRule, n: nat)
    requires n <= |r.body| && AritiesAgree(r) && RegistryAgrees(reg, r) && OnlyAtoms(reg, reg', r, n)
    ensures Fits(reg', AtomOf(r, n).rel, |AtomOf(r, n).terms|)
  {
    var a := AtomOf(r, n);
    assert Fits(reg, a.rel, |a.terms|);
    forall k | 0 <= k < |reg'| && reg'[k].rel == a.rel ensures reg'[k].arity == |a.terms| {
      assert reg'[k] in reg';
      if reg'[k] !in reg {
        var i :| 0 <= i < n && reg'[k] == Arity(AtomOf(r, i).rel, |AtomOf(r, i).terms|);
        assert SameArity(AtomOf(r, i), a);
      }
    }
  }

  /** register_rule. */
  method RegisterRule(reg: seq<Arity>, r: SourceRule) returns (reg': seq<Arity>)
    requires Registry(reg) && AritiesAgree(r) && RegistryAgrees(reg, r)
    ensures Registry(reg') && reg <= reg' && AllRegistered(reg', r, |r.body| + 1) && OnlyAtoms(reg, reg', r, |r.body| + 1)
  {
    reg' := reg;
    for i := 0 to |r.body| + 1
      invariant Registry(reg') && reg <= reg' && AllRegistered(reg', r, i) && OnlyAtoms(reg, reg', r, i)
    {
      StillFits(reg, reg', r, i);
      ghost var before := reg';
      reg' := RegisterAtom(reg', AtomOf(r, i));
      forall j | 0 <= j < i ensures Registered(reg', AtomOf(r, j)) { assert Registered(before, AtomOf(r, j)); }
    }
  }

  /** max_arity_of. */
  method MaxArity(r: Rule) returns (m: nat)
    ensures |r.head.terms| <= m && forall b :: 0 <= b < |r.body| ==> |r.body[b].terms| <= m
  {
    m := |r.head.terms|;
    for b := 0 to |r.body|
      invariant |r.head.terms| <= m && forall x :: 0 <= x < b ==> |r.body[x].terms| <= m
    {
      if |r.body[b].terms| > m { m := |r.body[b].terms|; }
    }
  }

  class Evaluator {
    const store: Store
    var rules: seq<CompiledRule>
    var arities: seq<Arity>
    ghost var program: seq<SourceRule>
    ghost var ids: seq<seq<nat>>

    ghost predicate Valid()
      reads this
    {
      && Registry(arities) && HeadsRegistered(arities, program)
      && (forall k :: 0 <= k < |rules| ==> rules[k].Valid())
      && ProgramMeans(program, SourceRules(rules), ids)
    }

    constructor (s: Store)
      ensures Valid() && store == s && program == [] && arities == []
    {
      store, rules, arities, program, ids := s, [], [], [], [];
    }

    /** dl89_eval_add_rule: installed exactly when the rule is well formed, otherwise nothing changes. */
    method AddRule(r: SourceRule) returns (st: EvalStatus)
      requires Valid()
      modifies this
      ensures Valid() && (st == Done <==> Accepts(old(arities), r)) && (st == Done || st == BadProgram)
      ensures st == Done ==> program == old(program) + [r] && AllRegistered(arities, r, |r.body| + 1) && old(arities) <= arities
      ensures st == Done ==> OnlyAtoms(old(arities), arities, r, |r.body| + 1)
      ensures st != Done ==> unchanged(this)
    {
      var ok := RuleCheck(arities, r);
      if !ok { return BadProgram; }
      var c, vars := CompileRule(r);
      CompiledOk(r, c, vars);
      var cap := MaxArity(c);
      var compiled := new CompiledRule(c, cap);
      var reg := RegisterRule(arities, r);
      assert Registered(reg, AtomOf(r, 0));
      HeadsStay(arities, reg, program, r);
      arities := reg;
      rules := rules + [compiled];
      program := program + [r];
      ids := ids + [vars];
      return Done;
    }

    /** dl89_eval_add_fact. */
    method AddFact(f: Fact) returns (st: EvalStatus)
      requires Valid()
      modifies this, store
      ensures Valid() && program == old(program)
      ensures st == BadProgram <==> !Fits(old(arities), f.rel, |f.args|)
      ensures st == Done ==> store.facts == old(store.facts) + {f} && Arity(f.rel, |f.args|) in arities && old(arities) <= arities
      ensures st == Done ==> forall e :: e in arities ==> e in old(arities) || e == Arity(f.rel, |f.args|)
      ensures st != Done ==> store.facts == old(store.facts) && arities == old(arities)
      ensures store.failed == old(store.failed) + Fault(st != StoreFailed)
    {
      var entry := RegistryFind(arities, f.rel);
      if entry.Some? && entry.value.arity != |f.args| {
        assert !Fits(arities, f.rel, |f.args|);
        return BadProgram;
      }
      ghost var before := arities;
      var added := entry.None?;
      if added {
        arities := arities + [Arity(f.rel, |f.args|)];
        assert arities[|before|] == Arity(f.rel, |f.args|);
      }
      var ok, inserted := store.Insert(f);
      if !ok {
        if added { arities := arities[..|arities| - 1]; }
        return StoreFailed;
      }
      return Done;
    }

    /** dl89_eval_run: the store ends as the least model of the rules as they were written, unless one of
        its calls failed, the last one made. */
    method Run() returns (st: EvalStatus)
      requires Valid()
      modifies Scratch(rules), Flags(rules), store
      ensures Valid() && st != BadProgram && store.scans == old(store.scans)
      ensures store.failed == old(store.failed) + Fault(st != StoreFailed)
      ensures st == Done ==> SourceLeast(program, old(store.facts), store.facts)
      ensures old(store.facts) <= store.facts && SourceBelow(program, old(store.facts), store.facts)
      ensures Typed(arities, old(store.facts)) ==> Typed(arities, store.facts)
    {
      ghost var base := store.facts;
      var run := FixpointRun(rules, store);
      CompilePreservesMeaning(program, SourceRules(rules), ids, base, store.facts);
      if Typed(arities, base) { StaysTyped(arities, program, SourceRules(rules), ids, base, store.facts); }
      return if run == Ok then Done else StoreFailed;
    }
  }

  lemma HeadsStay(reg: seq<Arity>, reg': seq<Arity>, program: seq<SourceRule>, r: SourceRule)
    requires HeadsRegistered(reg, program) && reg <= reg' && Registered(reg', r.head)
    ensures HeadsRegistered(reg', program + [r])
  {
    forall k | 0 <= k < |program + [r]| ensures Registered(reg', (program + [r])[k].head) {
      if k < |program| { assert Registered(reg, program[k].head); }
    }
  }

  /** Derived facts use the registered arities. */
  lemma StaysTyped(reg: seq<Arity>, program: seq<SourceRule>, rules: seq<Rule>, ids: seq<seq<nat>>, base: set<Fact>, facts: set<Fact>)
    requires HeadsRegistered(reg, program) && ProgramMeans(program, rules, ids) && RulesOk(rules)
    requires Typed(reg, base) && Below(rules, base, facts)
    ensures Typed(reg, facts)
  {
    ActiveContains(rules, base);
    ActiveClosed(rules, base);
    var active := Active(rules, base);
    var t := set f | f in active && Arity(f.rel, |f.args|) in reg;
    forall k, s | Fires(rules, k, s, t) ensures Apply(rules[k].head, s) in t {
      assert Fires(rules, k, s, active);
      assert RuleMeans(program[k], rules[k], ids[k]) && Registered(reg, program[k].head);
    }
    assert Closed(rules, t);
  }
}
