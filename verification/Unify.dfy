/** Partial substitutions and unification of an atom with a tuple (dl89_join.c:111-163). */
module Unify {
  import opened Datalog

  /** s agrees with the environment on every bound slot. */
  ghost predicate Extends(b: seq<bool>, e: seq<nat>, s: Subst) {
    |s| == |b| == |e| && forall i :: 0 <= i < |b| && b[i] ==> s[i] == e[i]
  }

  ghost predicate MatchAt(terms: seq<Term>, t: seq<nat>, s: Subst, k: int) {
    0 <= k < |terms| && k < |t| && Val(terms[k], s) == t[k]
  }

  /** The first p terms evaluate to the first p tuple entries. */
  ghost predicate MatchUpTo(terms: seq<Term>, t: seq<nat>, s: Subst, p: int) {
    forall k {:trigger MatchAt(terms, t, s, k)} :: 0 <= k < p ==> MatchAt(terms, t, s, k)
  }

  /** The environment (b, e) allows exactly the extensions of (b0, e0) that match up to p. */
  ghost predicate Narrowed(b0: seq<bool>, e0: seq<nat>, b: seq<bool>, e: seq<nat>, terms: seq<Term>, t: seq<nat>, p: int) {
    forall s {:trigger Extends(b, e, s)} {:trigger Extends(b0, e0, s)} ::
      Extends(b, e, s) <==> Extends(b0, e0, s) && MatchUpTo(terms, t, s, p)
  }

  lemma MatchStep(terms: seq<Term>, t: seq<nat>, s: Subst, p: nat)
    requires p < |terms| && p < |t|
    ensures MatchUpTo(terms, t, s, p + 1) <==> MatchUpTo(terms, t, s, p) && Val(terms[p], s) == t[p]
  {
    if MatchUpTo(terms, t, s, p + 1) { assert MatchAt(terms, t, s, p); }
  }

  /** The term is a constant or an already bound variable. */
  ghost predicate Known(t: Term, b: seq<bool>, e: seq<nat>) {
    t.Const? || (t.i < |b| == |e| && b[t.i])
  }

  /** A constant or an already bound variable that agrees: nothing to bind. */
  lemma NarrowedCheck(b0: seq<bool>, e0: seq<nat>, b: seq<bool>, e: seq<nat>, terms: seq<Term>, t: seq<nat>, p: nat)
    requires Narrowed(b0, e0, b, e, terms, t, p) && p < |terms| && p < |t|
    requires Known(terms[p], b, e) && Val(terms[p], e) == t[p]
    ensures Narrowed(b0, e0, b, e, terms, t, p + 1)
  {
    forall s ensures Extends(b, e, s) <==> Extends(b0, e0, s) && MatchUpTo(terms, t, s, p + 1) {
      MatchStep(terms, t, s, p);
    }
  }

  lemma BindExtends(b: seq<bool>, e: seq<nat>, s: Subst, i: nat, v: nat)
    requires i < |b| == |e| && !b[i]
    ensures Extends(b[i := true], e[i := v], s) <==> Extends(b, e, s) && s[i] == v
  {
    var b', e' := b[i := true], e[i := v];
    if Extends(b', e', s) {
      forall j | 0 <= j < |b| && b[j] ensures s[j] == e[j] { assert b'[j] && e'[j] == e[j]; }
      assert b'[i];
    }
  }

  /** A free variable: it is bound to the tuple entry. */
  lemma NarrowedBind(b0: seq<bool>, e0: seq<nat>, b: seq<bool>, e: seq<nat>, terms: seq<Term>, t: seq<nat>, p: nat)
    requires Narrowed(b0, e0, b, e, terms, t, p) && p < |terms| && p < |t|
    requires terms[p].Slot? && terms[p].i < |b| == |e| && !b[terms[p].i]
    ensures Narrowed(b0, e0, b[terms[p].i := true], e[terms[p].i := t[p]], terms, t, p + 1)
  {
    var i := terms[p].i;
    var b', e' := b[i := true], e[i := t[p]];
    forall s ensures Extends(b', e', s) <==> Extends(b0, e0, s) && MatchUpTo(terms, t, s, p + 1) {
      MatchStep(terms, t, s, p);
      BindExtends(b, e, s, i, t[p]);
    }
  }

  /** A clash: no extension matches the whole tuple. */
  lemma NarrowedClash(b0: seq<bool>, e0: seq<nat>, b: seq<bool>, e: seq<nat>, terms: seq<Term>, t: seq<nat>, p: nat)
    requires Narrowed(b0, e0, b, e, terms, t, p) && p < |terms| == |t|
    requires Known(terms[p], b, e) && Val(terms[p], e) != t[p]
    ensures forall s {:trigger Extends(b0, e0, s)} :: Extends(b0, e0, s) ==> !MatchUpTo(terms, t, s, |t|)
  {
    forall s | Extends(b0, e0, s) ensures !MatchUpTo(terms, t, s, |t|) {
      MatchShorter(terms, t, s, p, |t|);
      assert Extends(b, e, s) ==> !MatchAt(terms, t, s, p);
    }
  }

  lemma MatchShorter(terms: seq<Term>, t: seq<nat>, s: Subst, p: nat, q: nat)
    requires p <= q
    ensures MatchUpTo(terms, t, s, q) ==> MatchUpTo(terms, t, s, p)
  {
  }

  lemma MatchIsApply(a: Atom, t: seq<nat>, s: Subst)
    requires |a.terms| == |t|
    ensures MatchUpTo(a.terms, t, s, |t|) <==> Apply(a, s) == Fact(a.rel, t)
  {
    if MatchUpTo(a.terms, t, s, |t|) {
      forall k | 0 <= k < |t| ensures Apply(a, s).args[k] == t[k] { assert MatchAt(a.terms, t, s, k); }
    }
    if Apply(a, s) == Fact(a.rel, t) {
      forall k | 0 <= k < |t| ensures MatchAt(a.terms, t, s, k) { assert Apply(a, s).args[k] == t[k]; }
    }
  }

  /** All variables of a are bound. */
  ghost predicate Grounded(a: Atom, b: seq<bool>) {
    forall k :: 0 <= k < |a.terms| && a.terms[k].Slot? ==> a.terms[k].i < |b| && b[a.terms[k].i]
  }

  lemma GroundedApply(a: Atom, b: seq<bool>, e: seq<nat>, s: Subst)
    requires Grounded(a, b) && Extends(b, e, s)
    ensures Apply(a, s) == Apply(a, e)
  {
  }

  // ---- the trail ----

  /** b is b0 with exactly the slots of the log newly bound; earlier bindings are untouched. */
  ghost predicate Trail(b0: seq<bool>, e0: seq<nat>, b: seq<bool>, e: seq<nat>, log: seq<nat>) {
    && |b| == |b0| == |e| == |e0|
    && (forall j :: 0 <= j < |log| ==> log[j] < |b0| && !b0[log[j]])
    && (forall i :: 0 <= i < |b0| ==> (b[i] <==> b0[i] || i in log))
    && (forall i :: 0 <= i < |b0| && b0[i] ==> e[i] == e0[i])
  }

  lemma TrailPush(b0: seq<bool>, e0: seq<nat>, b: seq<bool>, e: seq<nat>, log: seq<nat>, i: nat, v: nat)
    requires Trail(b0, e0, b, e, log) && i < |b| && !b[i]
    ensures Trail(b0, e0, b[i := true], e[i := v], log + [i])
  {
    assert (log + [i])[|log|] == i;
    forall j | 0 <= j < |b0| ensures b[i := true][j] <==> b0[j] || j in log + [i] {}
  }
}
