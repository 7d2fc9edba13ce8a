/** Semi-naive evaluation (dl89_fixpoint.c): a first pass over the full store, then rounds
    in which one body position at a time ranges over what the previous round added. */
module Fixpoint {
  import opened Common
  import opened Datalog
  import opened DeltaTables
  import opened Join

  // ---- what a round keeps ----

  /** Instances whose body lies in known have their head in facts. */
  ghost predicate Settled(rules: seq<Rule>, known: set<Fact>, facts: set<Fact>) {
    forall k, s {:trigger Fires(rules, k, s, known)} :: Fires(rules, k, s, known) ==> Apply(rules[k].head, s) in facts
  }

  ghost predicate IsHead(rules: seq<Rule>, rel: nat) {
    exists k :: 0 <= k < |rules| && rules[k].head.rel == rel
  }

  ghost predicate AllHeadRelations(rules: seq<Rule>, facts: set<Fact>) {
    forall f :: f in facts ==> IsHead(rules, f.rel)
  }

  /** The semi-naive invariant: instances over the facts older than the delta are settled. */
  ghost predicate SemiNaive(g: Program, facts: set<Fact>, delta: set<Fact>) {
    && RulesOk(g.rules) && g.base <= facts && Below(g.rules, g.base, facts)
    && delta <= facts && AllHeadRelations(g.rules, delta)
    && Settled(g.rules, facts - delta, facts)
  }

  /** Instances over facts0 that take position pos from the delta have their head in facts1. */
  ghost predicate VariantDone(rules: seq<Rule>, k: int, pos: int, delta: set<Fact>, facts0: set<Fact>, facts1: set<Fact>) {
    forall s {:trigger Fires(rules, k, s, facts0)} ::
      Fires(rules, k, s, facts0) && 0 <= pos < |rules[k].body| && Apply(rules[k].body[pos], s) in delta
      ==> Apply(rules[k].head, s) in facts1
  }

  ghost predicate VariantsDone(rules: seq<Rule>, k: int, n: int, delta: set<Fact>, facts0: set<Fact>, facts1: set<Fact>) {
    forall pos {:trigger VariantDone(rules, k, pos, delta, facts0, facts1)} :: 0 <= pos < n ==> VariantDone(rules, k, pos, delta, facts0, facts1)
  }

  ghost predicate RulesDone(rules: seq<Rule>, n: int, delta: set<Fact>, facts0: set<Fact>, facts1: set<Fact>) {
    forall k {:trigger VariantsDone(rules, k, |rules[k].body|, delta, facts0, facts1)} ::
      0 <= k < n <= |rules| ==> VariantsDone(rules, k, |rules[k].body|, delta, facts0, facts1)
  }

  lemma VariantsGrow(rules: seq<Rule>, k: int, n: int, delta: set<Fact>, facts0: set<Fact>, facts1: set<Fact>, facts2: set<Fact>)
    requires VariantsDone(rules, k, n, delta, facts0, facts1) && facts1 <= facts2
    ensures VariantsDone(rules, k, n, delta, facts0, facts2)
  {
    forall pos | 0 <= pos < n ensures VariantDone(rules, k, pos, delta, facts0, facts2) {
      assert VariantDone(rules, k, pos, delta, facts0, facts1);
    }
  }

  lemma RulesDoneStep(rules: seq<Rule>, n: int, delta: set<Fact>, facts0: set<Fact>, facts1: set<Fact>, facts2: set<Fact>)
    requires 0 <= n < |rules| && RulesDone(rules, n, delta, facts0, facts1) && facts1 <= facts2
    requires VariantsDone(rules, n, |rules[n].body|, delta, facts0, facts2)
    ensures RulesDone(rules, n + 1, delta, facts0, facts2)
  {
    forall k | 0 <= k < n ensures VariantsDone(rules, k, |rules[k].body|, delta, facts0, facts2) {
      VariantsGrow(rules, k, |rules[k].body|, delta, facts0, facts1, facts2);
    }
  }

  /** A whole round settles the instances over the facts it started from. */
  lemma RoundSettles(rules: seq<Rule>, delta: set<Fact>, facts0: set<Fact>, facts1: set<Fact>)
    requires Settled(rules, facts0 - delta, facts0) && facts0 <= facts1
    requires RulesDone(rules, |rules|, delta, facts0, facts1)
    ensures Settled(rules, facts0, facts1)
  {
    forall k, s | Fires(rules, k, s, facts0) ensures Apply(rules[k].head, s) in facts1 {
      if pos :| 0 <= pos < |rules[k].body| && Apply(rules[k].body[pos], s) in delta {
        assert VariantsDone(rules, k, |rules[k].body|, delta, facts0, facts1);
        assert VariantDone(rules, k, pos, delta, facts0, facts1);
      } else {
        assert Fires(rules, k, s, facts0 - delta);
      }
    }
  }

  /** What one join adds belongs to its head's relation. */
  lemma NewFactsAreHeads(rules: seq<Rule>, k: int, facts0: set<Fact>, facts1: set<Fact>, delta: Option<Delta>, pos: int, d: set<Fact>)
    requires 0 <= k < |rules| && Justified(rules[k], facts0, facts1, delta, pos) && AllHeadRelations(rules, d)
    ensures AllHeadRelations(rules, d + (facts1 - facts0))
  {
    forall f | f in facts1 - facts0 ensures IsHead(rules, f.rel) {
      var s :| InstanceOf(rules[k], facts1, delta, pos, f, s);
    }
  }

  /** A join with the delta at pos does that variant, for every earlier store. */
  lemma JoinDoesVariant(rules: seq<Rule>, k: int, pos: int, dl: Delta, delta: set<Fact>, facts0: set<Fact>, facts: set<Fact>, facts1: set<Fact>)
    requires 0 <= k < |rules| && 0 <= pos < |rules[k].body| && facts0 <= facts
    requires dl.rel == rules[k].body[pos].rel && dl.arity == |rules[k].body[pos].terms|
    requires forall t :: |t| == dl.arity ==> (Fact(dl.rel, t) in delta <==> t in dl.tuples)
    requires AllHeads(rules[k], Some(dl), pos, facts, facts1)
    ensures VariantDone(rules, k, pos, delta, facts0, facts1)
  {
    var r := rules[k];
    forall s | Fires(rules, k, s, facts0) && Apply(r.body[pos], s) in delta ensures Apply(r.head, s) in facts1 {
      var f := Apply(r.body[pos], s);
      assert f == Fact(dl.rel, f.args);
      assert f in DeltaFacts(dl);
      assert RestSupplied(r, 0, s, facts, Some(dl), pos);
    }
  }

  // ---- the evaluator ----

  /** The scratch arrays of all rules. */
  ghost function Scratch(rules: seq<CompiledRule>): (o: set<array<nat>>)
    ensures forall k :: 0 <= k < |rules| ==> {rules[k].env, rules[k].values, rules[k].tuple, rules[k].boundLog} <= o
  {
    if rules == [] then {}
    else Scratch(rules[..|rules| - 1]) +
         (var r := rules[|rules| - 1]; {r.env, r.values, r.tuple, r.boundLog})
  }

  ghost function Flags(rules: seq<CompiledRule>): (o: set<array<bool>>)
    ensures forall k :: 0 <= k < |rules| ==> {rules[k].bound, rules[k].bvalues} <= o
  {
    if rules == [] then {}
    else Flags(rules[..|rules| - 1]) + (var r := rules[|rules| - 1]; {r.bound, r.bvalues})
  }

  ghost function SourceRules(rules: seq<CompiledRule>): (r: seq<Rule>)
    ensures |r| == |rules| && forall k :: 0 <= k < |rules| ==> r[k] == rules[k].rule
  {
    seq(|rules|, k requires 0 <= k < |rules| => rules[k].rule)
  }

  ghost predicate Ready(rules: seq<CompiledRule>, g: Program) {
    g.rules == SourceRules(rules) && forall k :: 0 <= k < |rules| ==> rules[k].Valid()
  }

  ghost predicate Sound(g: Program, facts: set<Fact>) {
    RulesOk(g.rules) && g.base <= facts && Below(g.rules, g.base, facts)
  }

  /** relation_is_idb. */
  method RelationIsIdb(rules: seq<CompiledRule>, rel: nat) returns (b: bool)
    ensures b <==> IsHead(SourceRules(rules), rel)
  {
    for k := 0 to |rules|
      invariant forall j :: 0 <= j < k ==> rules[j].rule.head.rel != rel
    {
      if rules[k].rule.head.rel == rel {
        assert SourceRules(rules)[k].head.rel == rel;
        return true;
      }
    }
    return false;
  }

  /** Since facts0 the store has grown soundly, and the table holds exactly what was added. */
  ghost predicate Grew(g: Program, facts0: set<Fact>, facts: set<Fact>, table: set<Fact>, total: int) {
    Sound(g, facts) && facts0 <= facts && SinkGrew({}, 0, table, total, facts0, facts) && AllHeadRelations(g.rules, table)
  }

  /** run_variant: rule k with body position pos over the delta. */
  method RunVariant(rules: seq<CompiledRule>, store: Store, k: nat, pos: nat, delta: DeltaTable, next: DeltaTable, ghost g: Program, ghost facts0: set<Fact>)
    returns (st: Status)
    requires Ready(rules, g) && Sound(g, store.facts) && k < |rules| && pos < |rules[k].rule.body|
    requires delta.Valid() && next.Valid() && delta != next
    requires delta.Facts() <= store.facts && AllHeadRelations(g.rules, delta.Facts()) && facts0 <= store.facts
    modifies Scratch(rules), Flags(rules), store, next
    ensures next.Valid() && SinkGrew(old(next.Facts()), old(next.total), next.Facts(), next.total, old(store.facts), store.facts)
    ensures Sound(g, store.facts) && old(store.facts) <= store.facts && store.scans == old(store.scans) && store.failed == old(store.failed) + Fault(st == Ok)
    ensures AllHeadRelations(g.rules, old(next.Facts())) ==> AllHeadRelations(g.rules, next.Facts())
    ensures st == Ok ==> VariantDone(g.rules, k, pos, delta.Facts(), facts0, store.facts)
  {
    var atom := rules[k].rule.body[pos];
    var idb := RelationIsIdb(rules, atom.rel);
    if !idb {
      assert forall s :: Apply(g.rules[k].body[pos], s) !in delta.Facts();
      return Ok;
    }
    var found := delta.Find(atom.rel, |atom.terms|);
    if found.None? {
      forall s ensures Apply(g.rules[k].body[pos], s) !in delta.Facts() {
        var f := Apply(g.rules[k].body[pos], s);
        assert f == Fact(atom.rel, f.args);
      }
      return Ok;
    }
    ghost var facts, d := store.facts, next.Facts();
    ghost var df := delta.Facts();
    st := JoinRule(rules[k], store, next, found, pos, g, k);
    if AllHeadRelations(g.rules, d) { NewFactsAreHeads(g.rules, k, facts, store.facts, found, pos, d); }
    if st == Ok { JoinDoesVariant(g.rules, k, pos, found.value, df, facts0, facts, store.facts); }
  }

  /** The inner loop of run_round: one rule, every body position. */
  method RunRule(rules: seq<CompiledRule>, store: Store, k: nat, delta: DeltaTable, next: DeltaTable, ghost g: Program, ghost facts0: set<Fact>)
    returns (st: Status)
    requires Ready(rules, g) && k < |rules| && delta.Valid() && next.Valid() && delta != next
    requires delta.Facts() <= facts0 && AllHeadRelations(g.rules, delta.Facts())
    requires Grew(g, facts0, store.facts, next.Facts(), next.total)
    modifies Scratch(rules), Flags(rules), store, next
    ensures next.Valid() && Grew(g, facts0, store.facts, next.Facts(), next.total) && old(store.facts) <= store.facts
    ensures store.scans == old(store.scans) && store.failed == old(store.failed) + Fault(st == Ok)
    ensures st == Ok ==> VariantsDone(g.rules, k, |g.rules[k].body|, delta.Facts(), facts0, store.facts)
  {
    ghost var d, start := delta.Facts(), store.facts;
    for pos := 0 to |rules[k].rule.body|
      modifies Scratch(rules), Flags(rules), store, next
      invariant next.Valid() && Grew(g, facts0, store.facts, next.Facts(), next.total) && start <= store.facts
      invariant store.scans == old(store.scans) && store.failed == old(store.failed)
      invariant VariantsDone(g.rules, k, pos, d, facts0, store.facts)
    {
      ghost var facts, d1, n1 := store.facts, next.Facts(), next.total;
      st := RunVariant(rules, store, k, pos, delta, next, g, facts0);
      SinkCompose({}, 0, d1, n1, next.Facts(), next.total, facts0, facts, store.facts);
      if st != Ok { return; }
      VariantsGrow(g.rules, k, pos, d, facts0, facts, store.facts);
    }
    return Ok;
  }

  /** run_round: every rule, every body position. */
  method RunRound(rules: seq<CompiledRule>, store: Store, delta: DeltaTable, next: DeltaTable, ghost g: Program)
    returns (st: Status)
    requires Ready(rules, g) && delta.Valid() && next.Valid() && delta != next
    requires SemiNaive(g, store.facts, delta.Facts()) && next.Facts() == {} && next.total == 0
    modifies Scratch(rules), Flags(rules), store, next
    ensures next.Valid() && Grew(g, old(store.facts), store.facts, next.Facts(), next.total) && store.scans == old(store.scans) && store.failed == old(store.failed) + Fault(st == Ok)
    ensures st == Ok ==> Settled(g.rules, old(store.facts), store.facts)
  {
    ghost var facts0, d := store.facts, delta.Facts();
    for k := 0 to |rules|
      modifies Scratch(rules), Flags(rules), store, next
      invariant next.Valid() && Grew(g, facts0, store.facts, next.Facts(), next.total) && store.scans == old(store.scans) && store.failed == old(store.failed)
      invariant RulesDone(g.rules, k, d, facts0, store.facts)
    {
      ghost var facts := store.facts;
      st := RunRule(rules, store, k, delta, next, g, facts0);
      if st != Ok { return; }
      RulesDoneStep(g.rules, k, d, facts0, facts, store.facts);
    }
    RoundSettles(g.rules, d, facts0, store.facts);
    return Ok;
  }

  /** fixpoint_step: one round, then the delta is replaced by what the round added. */
  method FixpointStep(rules: seq<CompiledRule>, store: Store, delta: DeltaTable, next: DeltaTable, ghost g: Program)
    returns (st: Status)
    requires Ready(rules, g) && delta.Valid() && next.Valid() && delta != next
    requires SemiNaive(g, store.facts, delta.Facts()) && next.Facts() == {} && next.total == 0
    modifies Scratch(rules), Flags(rules), store, delta, next
    ensures Sound(g, store.facts) && old(store.facts) <= store.facts && store.scans == old(store.scans) && store.failed == old(store.failed) + Fault(st == Ok)
    ensures st == Ok ==> delta.Valid() && next.Valid() && SemiNaive(g, store.facts, delta.Facts())
    ensures st == Ok ==> delta.Facts() == store.facts - old(store.facts) && delta.total == |delta.Facts()|
    ensures st == Ok ==> next.Facts() == {} && next.total == 0
  {
    ghost var facts0 := store.facts;
    st := RunRound(rules, store, delta, next, g);
    if st != Ok { return; }
    delta.Clear();
    delta.entries, next.entries := next.entries, delta.entries;
    delta.total, next.total := next.total, delta.total;
    assert store.facts - delta.Facts() == facts0;
    assert |store.facts - facts0| == |store.facts| - |facts0|;
  }

  /** The first pass: every rule over the full store. */
  method FirstPass(rules: seq<CompiledRule>, store: Store, delta: DeltaTable, ghost g: Program) returns (st: Status)
    requires Ready(rules, g) && RulesOk(g.rules) && g.base == store.facts
    requires delta.Valid() && delta.Facts() == {} && delta.total == 0
    modifies Scratch(rules), Flags(rules), store, delta
    ensures delta.Valid() && Sound(g, store.facts) && store.scans == old(store.scans) && store.failed == old(store.failed) + Fault(st == Ok)
    ensures st == Ok ==> SemiNaive(g, store.facts, delta.Facts()) && delta.total == |delta.Facts()|
  {
    ghost var facts0 := store.facts;
    for k := 0 to |rules|
      modifies Scratch(rules), Flags(rules), store, delta
      invariant delta.Valid() && Grew(g, facts0, store.facts, delta.Facts(), delta.total) && store.scans == old(store.scans) && store.failed == old(store.failed)
      invariant FirstSettled(g.rules, k, facts0, store.facts)
    {
      ghost var facts, d, n := store.facts, delta.Facts(), delta.total;
      st := JoinRule(rules[k], store, delta, None, 0, g, k);
      if st != Ok { return; }
      GrewByJoin(g, k, facts0, facts, store.facts, d, n, delta.Facts(), delta.total);
      SettleOne(g.rules, k, facts0, facts, store.facts);
    }
    FirstSemiNaive(g, store.facts, delta.Facts(), delta.total);
    return Ok;
  }

  lemma GrewByJoin(g: Program, k: int, facts0: set<Fact>, facts: set<Fact>, facts1: set<Fact>, d: set<Fact>, n: int, d1: set<Fact>, n1: int)
    requires Grew(g, facts0, facts, d, n) && Sound(g, facts1) && facts <= facts1 && 0 <= k < |g.rules|
    requires SinkGrew(d, n, d1, n1, facts, facts1) && Justified(g.rules[k], facts, facts1, None, 0)
    ensures Grew(g, facts0, facts1, d1, n1)
  {
    SinkCompose({}, 0, d, n, d1, n1, facts0, facts, facts1);
    NewFactsAreHeads(g.rules, k, facts, facts1, None, 0, d);
  }

  /** The first n rules are settled over facts0. */
  ghost predicate FirstSettled(rules: seq<Rule>, n: int, facts0: set<Fact>, facts: set<Fact>) {
    forall k, s {:trigger Fires(rules, k, s, facts0)} :: Fires(rules, k, s, facts0) && k < n ==> Apply(rules[k].head, s) in facts
  }

  lemma FirstSemiNaive(g: Program, facts: set<Fact>, d: set<Fact>, n: int)
    requires Grew(g, g.base, facts, d, n) && FirstSettled(g.rules, |g.rules|, g.base, facts)
    ensures SemiNaive(g, facts, d) && n == |d|
  {
    assert facts - d == g.base;
    assert |facts - g.base| == |facts| - |g.base|;
  }

  lemma SettleOne(rules: seq<Rule>, k: nat, facts0: set<Fact>, facts: set<Fact>, facts1: set<Fact>)
    requires k < |rules| && facts0 <= facts <= facts1 && FirstSettled(rules, k, facts0, facts)
    requires AllHeads(rules[k], None, 0, facts, facts1)
    ensures FirstSettled(rules, k + 1, facts0, facts1)
  {
    forall s | Fires(rules, k, s, facts0) ensures Apply(rules[k].head, s) in facts1 {
      assert RestSupplied(rules[k], 0, s, facts, None, 0);
    }
  }

  /** An empty delta means the store is closed. */
  lemma SettledIsLeast(g: Program, facts: set<Fact>)
    requires SemiNaive(g, facts, {})
    ensures LeastModel(g.rules, g.base, facts)
  {
    assert facts - {} == facts;
    assert Closed(g.rules, facts);
  }

  /** A round that adds something leaves less of the active domain unreached. */
  lemma RoundProgress(g: Program, facts0: set<Fact>, facts: set<Fact>, active: set<Fact>)
    requires Sound(g, facts) && facts0 <= facts && active == Active(g.rules, g.base)
    ensures facts == facts0 || active - facts < active - facts0
  {
    ActiveContains(g.rules, g.base);
    ActiveClosed(g.rules, g.base);
    if f :| f in facts && f !in facts0 { assert f in active - facts0; }
  }

  /** The rounds of dl89_fixpoint_run: until one adds nothing. */
  method RunRounds(rules: seq<CompiledRule>, store: Store, delta: DeltaTable, next: DeltaTable, ghost g: Program) returns (st: Status)
    requires Ready(rules, g) && delta.Valid() && next.Valid() && delta != next && next.Facts() == {} && next.total == 0
    requires SemiNaive(g, store.facts, delta.Facts()) && delta.total == |delta.Facts()|
    modifies Scratch(rules), Flags(rules), store, delta, next
    ensures st == Ok ==> LeastModel(g.rules, g.base, store.facts)
    ensures Sound(g, store.facts) && store.scans == old(store.scans) && store.failed == old(store.failed) + Fault(st == Ok)
  {
    ghost var active := Active(g.rules, g.base);
    while delta.total > 0
      modifies Scratch(rules), Flags(rules), store, delta, next
      invariant delta.Valid() && next.Valid() && next.Facts() == {} && next.total == 0 && store.scans == old(store.scans) && store.failed == old(store.failed)
      invariant SemiNaive(g, store.facts, delta.Facts()) && delta.total == |delta.Facts()|
      decreases active - store.facts, delta.total
    {
      ghost var facts := store.facts;
      st := FixpointStep(rules, store, delta, next, g);
      if st != Ok { return; }
      RoundProgress(g, facts, store.facts, active);
    }
    SettledIsLeast(g, store.facts);
    return Ok;
  }

  /** dl89_fixpoint_run: the store ends as the least model, or, exactly when a store call failed, below it. */
  method FixpointRun(rules: seq<CompiledRule>, store: Store) returns (st: Status)
    requires forall k :: 0 <= k < |rules| ==> rules[k].Valid()
    modifies Scratch(rules), Flags(rules), store
    ensures st == Ok ==> LeastModel(SourceRules(rules), old(store.facts), store.facts)
    ensures old(store.facts) <= store.facts && Below(SourceRules(rules), old(store.facts), store.facts)
    ensures store.scans == old(store.scans) && store.failed == old(store.failed) + Fault(st == Ok)
  {
    ghost var g := Program(SourceRules(rules), store.facts);
    var delta := new DeltaTable();
    var next := new DeltaTable();
    st := FirstPass(rules, store, delta, g);
    if st == Ok { st := RunRounds(rules, store, delta, next, g); }
  }
}
