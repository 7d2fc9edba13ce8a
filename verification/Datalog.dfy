/** Datalog programs over a set of facts and what evaluation must compute: the least
    set that contains the given facts and is closed under the rules (libdl89/README). */
module Datalog {

  datatype Term = Const(c: nat) | Slot(i: nat)
  datatype Atom = Atom(rel: nat, terms: seq<Term>)
  datatype Rule = Rule(head: Atom, body: seq<Atom>, vars: nat)
  datatype Fact = Fact(rel: nat, args: seq<nat>)

  /** A value for every variable slot. */
  type Subst = seq<nat>

  function Val(t: Term, s: Subst): nat {
    match t
    case Const(c) => c
    case Slot(i) => if i < |s| then s[i] else 0
  }

  ghost function Apply(a: Atom, s: Subst): (f: Fact)
    ensures f.rel == a.rel && |f.args| == |a.terms|
    ensures forall k :: 0 <= k < |a.terms| ==> f.args[k] == Val(a.terms[k], s)
  {
    Fact(a.rel, seq(|a.terms|, k requires 0 <= k < |a.terms| => Val(a.terms[k], s)))
  }

  ghost predicate AtomOk(a: Atom, vars: nat) {
    forall k :: 0 <= k < |a.terms| && a.terms[k].Slot? ==> a.terms[k].i < vars
  }

  ghost predicate Occurs(a: Atom, i: nat) {
    Slot(i) in a.terms
  }

  /** What the rule checker and compiler establish: slots in range, head variables bound by the body. */
  ghost predicate RuleOk(r: Rule) {
    && AtomOk(r.head, r.vars)
    && (forall b :: 0 <= b < |r.body| ==> AtomOk(r.body[b], r.vars))
    && (forall i {:trigger Occurs(r.head, i)} :: Occurs(r.head, i) ==> exists b :: 0 <= b < |r.body| && Occurs(r.body[b], i))
  }

  ghost predicate RulesOk(rules: seq<Rule>) {
    forall k :: 0 <= k < |rules| ==> RuleOk(rules[k])
  }

  // ---- meaning ----

  ghost predicate BodyIn(body: seq<Atom>, s: Subst, facts: set<Fact>) {
    forall b :: 0 <= b < |body| ==> Apply(body[b], s) in facts
  }

  /** The instance of rule k under s has its whole body in facts. */
  ghost predicate Fires(rules: seq<Rule>, k: int, s: Subst, facts: set<Fact>) {
    0 <= k < |rules| && |s| == rules[k].vars && BodyIn(rules[k].body, s, facts)
  }

  ghost predicate Closed(rules: seq<Rule>, facts: set<Fact>) {
    forall k, s {:trigger Fires(rules, k, s, facts)} :: Fires(rules, k, s, facts) ==> Apply(rules[k].head, s) in facts
  }

  /** s lies below every closed set that contains base. */
  ghost predicate Below(rules: seq<Rule>, base: set<Fact>, facts: set<Fact>) {
    forall t: set<Fact> {:trigger Closed(rules, t)} :: base <= t && Closed(rules, t) ==> facts <= t
  }

  ghost predicate LeastModel(rules: seq<Rule>, base: set<Fact>, facts: set<Fact>) {
    base <= facts && Closed(rules, facts) && Below(rules, base, facts)
  }

  lemma LeastModelUnique(rules: seq<Rule>, base: set<Fact>, a: set<Fact>, b: set<Fact>)
    requires LeastModel(rules, base, a) && LeastModel(rules, base, b)
    ensures a == b
  {
  }

  /** One more fired instance stays below every closed set. */
  lemma BelowStep(rules: seq<Rule>, base: set<Fact>, facts: set<Fact>, k: int, s: Subst)
    requires Below(rules, base, facts) && Fires(rules, k, s, facts)
    ensures Below(rules, base, facts + {Apply(rules[k].head, s)})
  {
    forall t: set<Fact> | base <= t && Closed(rules, t) ensures facts + {Apply(rules[k].head, s)} <= t {
      assert Fires(rules, k, s, t);
    }
  }

  // ---- derivations ----

  /** f has a derivation of height at most h. */
  ghost predicate Derivable(rules: seq<Rule>, base: set<Fact>, f: Fact, h: nat)
    decreases h
  {
    f in base || (h > 0 && exists k, s :: DerivedBy(rules, base, f, h, k, s))
  }

  ghost predicate DerivedBy(rules: seq<Rule>, base: set<Fact>, f: Fact, h: nat, k: int, s: Subst)
    requires h > 0
    decreases h, 0
  {
    && 0 <= k < |rules| && |s| == rules[k].vars && f == Apply(rules[k].head, s)
    && forall b :: 0 <= b < |rules[k].body| ==> Derivable(rules, base, Apply(rules[k].body[b], s), h - 1)
  }

  lemma {:induction false} DerivableInModel(rules: seq<Rule>, base: set<Fact>, facts: set<Fact>, f: Fact, h: nat)
    requires base <= facts && Closed(rules, facts) && Derivable(rules, base, f, h)
    ensures f in facts
    decreases h
  {
    if f !in base {
      var k, s :| DerivedBy(rules, base, f, h, k, s);
      forall b | 0 <= b < |rules[k].body| ensures Apply(rules[k].body[b], s) in facts {
        DerivableInModel(rules, base, facts, Apply(rules[k].body[b], s), h - 1);
      }
      assert Fires(rules, k, s, facts);
    }
  }

  lemma {:induction false} DerivableTaller(rules: seq<Rule>, base: set<Fact>, f: Fact, h: nat, h': nat)
    requires Derivable(rules, base, f, h) && h <= h'
    ensures Derivable(rules, base, f, h')
    decreases h
  {
    if f !in base {
      var k, s :| DerivedBy(rules, base, f, h, k, s);
      forall b | 0 <= b < |rules[k].body| ensures Derivable(rules, base, Apply(rules[k].body[b], s), h' - 1) {
        DerivableTaller(rules, base, Apply(rules[k].body[b], s), h - 1, h' - 1);
      }
      assert DerivedBy(rules, base, f, h', k, s);
    }
  }

  ghost predicate HasDerivation(rules: seq<Rule>, base: set<Fact>, f: Fact) {
    exists h: nat :: Derivable(rules, base, f, h)
  }

  /** A bound on the heights of the first n body atoms' derivations. */
  lemma {:induction false} BodyHeight(rules: seq<Rule>, base: set<Fact>, body: seq<Atom>, s: Subst, n: nat) returns (h: nat)
    requires n <= |body| && forall b :: 0 <= b < n ==> HasDerivation(rules, base, Apply(body[b], s))
    ensures forall b :: 0 <= b < n ==> Derivable(rules, base, Apply(body[b], s), h)
  {
    if n == 0 {
      h := 0;
    } else {
      var h0 := BodyHeight(rules, base, body, s, n - 1);
      assert HasDerivation(rules, base, Apply(body[n - 1], s));
      var h1: nat :| Derivable(rules, base, Apply(body[n - 1], s), h1);
      h := if h0 < h1 then h1 else h0;
      forall b | 0 <= b < n ensures Derivable(rules, base, Apply(body[b], s), h) {
        DerivableTaller(rules, base, Apply(body[b], s), if b == n - 1 then h1 else h0, h);
      }
    }
  }

  /** The least model holds exactly the facts that have a derivation. */
  lemma LeastModelIsDerivable(rules: seq<Rule>, base: set<Fact>, facts: set<Fact>, f: Fact)
    requires LeastModel(rules, base, facts)
    ensures f in facts <==> HasDerivation(rules, base, f)
  {
    if h: nat :| Derivable(rules, base, f, h) { DerivableInModel(rules, base, facts, f, h); }
    var t := set g | g in facts && HasDerivation(rules, base, g);
    forall g | g in base ensures g in t { assert Derivable(rules, base, g, 0); }
    forall k, s | Fires(rules, k, s, t) ensures Apply(rules[k].head, s) in t {
      assert Fires(rules, k, s, facts);
      var h := BodyHeight(rules, base, rules[k].body, s, |rules[k].body|);
      assert DerivedBy(rules, base, Apply(rules[k].head, s), h + 1, k, s);
      assert Derivable(rules, base, Apply(rules[k].head, s), h + 1);
    }
    assert Closed(rules, t);
  }

  // ---- the finite universe that bounds every run ----

  ghost function Tuples(dom: set<nat>, n: nat): (a: set<seq<nat>>)
    ensures forall t :: t in a <==> |t| == n && InDom(t, dom)
  {
    if n == 0 then {[]}
    else
      var a := set t, c | t in Tuples(dom, n - 1) && c in dom :: t + [c];
      assert forall t: seq<nat> :: |t| == n && InDom(t, dom) ==> t == t[..n - 1] + [t[n - 1]];
      assert forall t: seq<nat> :: |t| == n && InDom(t, dom) ==> t[..n - 1] in Tuples(dom, n - 1) && t[n - 1] in dom;
      a
  }

  ghost predicate InDom(t: seq<nat>, dom: set<nat>) {
    forall k :: 0 <= k < |t| ==> t[k] in dom
  }

  /** All facts over the given constants and relation signatures. */
  ghost function Universe(dom: set<nat>, schema: set<(nat, nat)>): (u: set<Fact>)
    ensures forall f :: f in u <==> (f.rel, |f.args|) in schema && InDom(f.args, dom)
  {
    var u := set p, t | p in schema && t in Tuples(dom, p.1) :: Fact(p.0, t);
    assert forall f: Fact :: (f.rel, |f.args|) in schema && InDom(f.args, dom) ==> f.args in Tuples(dom, |f.args|) && f == Fact((f.rel, |f.args|).0, f.args);
    u
  }

  ghost function AtomConsts(a: Atom): set<nat> {
    set k | 0 <= k < |a.terms| && a.terms[k].Const? :: a.terms[k].c
  }

  ghost function HeadConsts(rules: seq<Rule>): set<nat> {
    set k, c | 0 <= k < |rules| && c in AtomConsts(rules[k].head) :: c
  }

  ghost function HeadSchema(rules: seq<Rule>): set<(nat, nat)> {
    set k | 0 <= k < |rules| :: (rules[k].head.rel, |rules[k].head.terms|)
  }

  ghost function FactConsts(facts: set<Fact>): set<nat> {
    set f, k | f in facts && 0 <= k < |f.args| :: f.args[k]
  }

  ghost function FactSchema(facts: set<Fact>): set<(nat, nat)> {
    set f | f in facts :: (f.rel, |f.args|)
  }

  /** The active domain of a program and its database. */
  ghost function Active(rules: seq<Rule>, base: set<Fact>): set<Fact> {
    Universe(HeadConsts(rules) + FactConsts(base), HeadSchema(rules) + FactSchema(base))
  }

  lemma ActiveContains(rules: seq<Rule>, base: set<Fact>)
    ensures base <= Active(rules, base)
  {
  }

  lemma HeadInDom(r: Rule, s: Subst, dom: set<nat>, facts: set<Fact>)
    requires RuleOk(r) && |s| == r.vars && AtomConsts(r.head) <= dom
    requires BodyIn(r.body, s, facts) && forall f :: f in facts ==> InDom(f.args, dom)
    ensures InDom(Apply(r.head, s).args, dom)
  {
    forall k | 0 <= k < |r.head.terms| ensures Apply(r.head, s).args[k] in dom {
      var t := r.head.terms[k];
      if t.Slot? {
        assert Occurs(r.head, t.i);
        var b :| 0 <= b < |r.body| && Occurs(r.body[b], t.i);
        var j :| 0 <= j < |r.body[b].terms| && r.body[b].terms[j] == Slot(t.i);
        assert Apply(r.body[b], s).args[j] == s[t.i];
      }
    }
  }

  /** Range restriction keeps everything derivable inside the active domain. */
  lemma ActiveClosed(rules: seq<Rule>, base: set<Fact>)
    requires RulesOk(rules)
    ensures Closed(rules, Active(rules, base))
  {
    var u := Active(rules, base);
    forall k, s | Fires(rules, k, s, u) ensures Apply(rules[k].head, s) in u {
      HeadInDom(rules[k], s, HeadConsts(rules) + FactConsts(base), u);
    }
  }
}
