/** The backtracking join (dl89_join.c): body atoms left to right over a caller's store,
    one position optionally over a delta, heads inserted as they are found. */
module Join {
  import opened Common
  import opened Datalog
  import opened DeltaTables
  import opened Unify

  datatype Status = Ok | StoreError

  // ---- the store interface ----

  /** What a scan asks for: relation, arity and the entries that must agree. */
  datatype Pattern = Pattern(rel: nat, values: seq<nat>, bound: seq<bool>)

  ghost predicate Matches(p: Pattern, f: Fact) {
    && f.rel == p.rel && |f.args| == |p.values| == |p.bound|
    && forall k :: 0 <= k < |p.values| && p.bound[k] ==> f.args[k] == p.values[k]
  }

  /** An open scan: what it asked for, what matched when it was opened, what it has returned. */
  datatype Cursor = Cursor(pattern: Pattern, initial: set<Fact>, seen: set<Fact>)

  /** What a store call adds to the count of failed calls. */
  function Fault(ok: bool): nat {
    if ok then 0 else 1
  }

  /** The caller-supplied store. It may fail at any call, and failed counts those calls; a scan returns
      every fact that matched at open, and may return any other fact of the relation present meanwhile. */
  class Store {
    var facts: set<Fact>
    var scans: nat
    ghost var failed: nat

    constructor (base: set<Fact>)
      ensures facts == base && scans == 0 && failed == 0
    {
      facts, scans, failed := base, 0, 0;
    }

    method Insert(f: Fact) returns (ok: bool, inserted: bool)
      modifies this`facts, this`failed
      ensures ok ==> facts == old(facts) + {f} && (inserted <==> f !in old(facts))
      ensures !ok ==> facts == old(facts)
      ensures failed == old(failed) + Fault(ok)
    {
      ok, inserted := *, false;
      failed := failed + Fault(ok);
      if ok {
        inserted := f !in facts;
        facts := facts + {f};
      }
    }

    method ScanOpen(p: Pattern) returns (ok: bool, c: Cursor)
      requires |p.values| == |p.bound|
      modifies this`scans, this`failed
      ensures scans == (if ok then old(scans) + 1 else old(scans)) && failed == old(failed) + Fault(ok)
      ensures ok ==> c.pattern == p && c.seen == {}
      ensures ok ==> forall f :: f in c.initial <==> f in facts && Matches(p, f)
    {
      ok := *;
      failed := failed + Fault(ok);
      if ok { scans := scans + 1; }
      c := Cursor(p, set f | f in facts && f.rel == p.rel && |f.args| == |p.values|
                             && forall k :: 0 <= k < |p.values| && p.bound[k] ==> f.args[k] == p.values[k], {});
    }

    method ScanClose()
      requires scans > 0
      modifies this`scans
      ensures scans == old(scans) - 1
    {
      scans := scans - 1;
    }

    method ScanNext(c: Cursor) returns (ok: bool, found: bool, f: Fact, c': Cursor)
      requires c.initial <= facts
      requires forall g :: g in c.initial ==> g.rel == c.pattern.rel && |g.args| == |c.pattern.values|
      modifies this`failed
      ensures failed == old(failed) + Fault(ok)
      ensures ok && found ==> f in facts && f !in c.seen && c' == c.(seen := c.seen + {f})
      ensures ok && found ==> f.rel == c.pattern.rel && |f.args| == |c.pattern.values|
      ensures ok && !found ==> c.initial <= c.seen && c' == c
    {
      ok, found, f, c' := *, false, Fact(0, []), c;
      failed := failed + Fault(ok);
      var rest := set g | g in facts && g !in c.seen && g.rel == c.pattern.rel && |g.args| == |c.pattern.values|;
      assert forall g :: g in c.initial && g !in c.seen ==> g in rest;
      var more: bool := *;
      if rest != {} && (more || !(c.initial <= c.seen)) {
        f :| f in rest;
        found := true;
        c' := c.(seen := c.seen + {f});
      }
    }
  }

  lemma SliceRoom(d: nat, n: nat, c: nat)
    requires d < n
    ensures 0 <= d * c && d * c + c <= n * c && (d + 1) * c == d * c + c
  {
    assert n * c == (d + 1) * c + (n - d - 1) * c;
  }

  lemma SlicePart(l: seq<nat>, m: nat, lo: nat, hi: nat)
    requires lo <= hi <= m <= |l|
    ensures l[..m][lo..hi] == l[lo..hi]
  {
  }

  ghost function Part(l: seq<nat>, base: nat, count: nat): seq<nat> {
    if base + count <= |l| then l[base..base + count] else []
  }

  // ---- the compiled rule with its scratch buffers ----

  class CompiledRule {
    const rule: Rule
    const cap: nat
    const env: array<nat>
    const bound: array<bool>
    const values: array<nat>
    const bvalues: array<bool>
    const tuple: array<nat>
    const boundLog: array<nat>

    ghost predicate Valid() {
      && RuleOk(rule)
      && env.Length == bound.Length == rule.vars
      && values.Length == bvalues.Length == tuple.Length == cap
      && boundLog.Length == |rule.body| * cap
      && |rule.head.terms| <= cap
      && (forall b :: 0 <= b < |rule.body| ==> |rule.body[b].terms| <= cap)
      && env != values && env != tuple && env != boundLog && values != tuple && values != boundLog && tuple != boundLog
      && bound != bvalues
    }

    constructor (r: Rule, maxArity: nat)
      requires RuleOk(r) && |r.head.terms| <= maxArity
      requires forall b :: 0 <= b < |r.body| ==> |r.body[b].terms| <= maxArity
      ensures Valid() && rule == r && cap == maxArity
      ensures fresh(env) && fresh(bound) && fresh(values) && fresh(bvalues) && fresh(tuple) && fresh(boundLog)
    {
      rule, cap := r, maxArity;
      env, bound := new nat[r.vars], new bool[r.vars];
      values, bvalues, tuple := new nat[maxArity], new bool[maxArity], new nat[maxArity];
      boundLog := new nat[|r.body| * maxArity];
    }

    lemma LogRoom(depth: nat)
      requires Valid() && depth < |rule.body|
      ensures 0 <= depth * cap && depth * cap + cap <= boundLog.Length && (depth + 1) * cap == depth * cap + cap
    {
      SliceRoom(depth, |rule.body|, cap);
    }

    /** The first count entries of the log of depth are part of the log below depth + 1. */
    lemma LogPart(depth: nat, count: nat)
      requires Valid() && depth < |rule.body| && count <= cap
      ensures depth * cap + count <= boundLog.Length
      ensures boundLog[depth * cap..depth * cap + count] == Part(LogBelow(depth + 1), depth * cap, count)
    {
      LogRoom(depth);
      var base := depth * cap;
      SlicePart(boundLog[..], base + cap, base, base + count);
      assert boundLog[..][..base + cap] == LogBelow(depth + 1);
    }

    /** The part of the log that belongs to the body atoms before depth. */
    ghost function LogBelow(depth: nat): seq<nat>
      reads boundLog
    {
      if depth * cap <= boundLog.Length then boundLog[..depth * cap] else boundLog[..]
    }

    /** clear_bound. */
    method ClearBound()
      requires Valid()
      modifies bound
      ensures forall i :: 0 <= i < bound.Length ==> !bound[i]
    {
      for i := 0 to bound.Length
        invariant forall k :: 0 <= k < i ==> !bound[k]
      {
        bound[i] := false;
      }
    }

    /** build_bindings: what is already known of the atom's arguments. */
    method BuildBindings(a: Atom) returns (p: Pattern)
      requires Valid() && AtomOk(a, rule.vars) && |a.terms| <= cap
      modifies values, bvalues
      ensures p.rel == a.rel && |p.values| == |p.bound| == |a.terms|
      ensures forall s {:trigger Extends(bound[..], env[..], s)} :: Extends(bound[..], env[..], s) ==> Matches(p, Apply(a, s))
    {
      for k := 0 to |a.terms|
        invariant forall j :: 0 <= j < k ==> bvalues[j] ==> Known(a.terms[j], bound[..], env[..]) && values[j] == Val(a.terms[j], env[..])
      {
        match a.terms[k]
        case Const(c) =>
          values[k], bvalues[k] := c, true;
        case Slot(i) =>
          if bound[i] {
            values[k], bvalues[k] := env[i], true;
          } else {
            values[k], bvalues[k] := 0, false;
          }
      }
      p := Pattern(a.rel, values[..|a.terms|], bvalues[..|a.terms|]);
      forall s | Extends(bound[..], env[..], s) ensures Matches(p, Apply(a, s)) {}
    }

    /** A scan delivers its tuple into the rule's buffer. */
    method FillTuple(args: seq<nat>)
      requires Valid() && |args| <= cap
      modifies tuple
      ensures tuple[..|args|] == args
    {
      for k := 0 to |args|
        invariant tuple[..k] == args[..k]
      {
        tuple[k] := args[k];
      }
    }

    /** unify_position: checks what is known, binds and logs what is not. */
    method UnifyPosition(term: Term, value: nat, at: nat) returns (ok: bool, bind: bool)
      requires Valid() && at < boundLog.Length && (term.Slot? ==> term.i < rule.vars)
      modifies env, bound, boundLog
      ensures bind <==> !Known(term, old(bound[..]), old(env[..]))
      ensures !bind ==> ok == (Val(term, old(env[..])) == value) && bound[..] == old(bound[..]) && env[..] == old(env[..]) && boundLog[..] == old(boundLog[..])
      ensures bind ==> ok && bound[..] == old(bound[..])[term.i := true] && env[..] == old(env[..])[term.i := value]
      ensures bind ==> boundLog[..] == old(boundLog[..])[at := term.i]
    {
      if term.Const? { return term.c == value, false; }
      if bound[term.i] { return env[term.i] == value, false; }
      env[term.i] := value;
      bound[term.i] := true;
      boundLog[at] := term.i;
      return true, true;
    }

    /** unify_tuple: binds free variables, logging them at base, until a clash or the end. */
    method UnifyTuple(a: Atom, t: seq<nat>, base: nat) returns (count: nat, matched: bool)
      requires Valid() && AtomOk(a, rule.vars) && |t| == |a.terms| <= cap && base + cap <= boundLog.Length
      modifies env, bound, boundLog
      ensures count <= |t| && Trail(old(bound[..]), old(env[..]), bound[..], env[..], boundLog[base..base + count])
      ensures boundLog[..base] == old(boundLog[..base])
      ensures matched ==> Narrowed(old(bound[..]), old(env[..]), bound[..], env[..], a.terms, t, |t|) && Grounded(a, bound[..])
      ensures !matched ==> forall s {:trigger Extends(old(bound[..]), old(env[..]), s)} ::
                             Extends(old(bound[..]), old(env[..]), s) ==> !MatchUpTo(a.terms, t, s, |t|)
    {
      ghost var b0, e0, log0 := bound[..], env[..], boundLog[..base];
      count := 0;
      for p := 0 to |t|
        invariant count <= p && boundLog[..base] == log0
        invariant Trail(b0, e0, bound[..], env[..], boundLog[base..base + count])
        invariant Narrowed(b0, e0, bound[..], env[..], a.terms, t, p) && GroundUpTo(a.terms, bound[..], p)
      {
        ghost var b, e, all := bound[..], env[..], boundLog[..];
        var ok, bind := UnifyPosition(a.terms[p], t[p], base + count);
        UnifyStep(b0, e0, b, e, all, base, count, a.terms, t, p);
        if !ok { return count, false; }
        if bind { count := count + 1; }
      }
      return count, true;
    }

    /** The first loop of emit_head: the head under the environment. */
    method BuildHead() returns (f: Fact)
      requires Valid()
      modifies tuple
      ensures f == Apply(rule.head, env[..])
    {
      var head := rule.head;
      for p := 0 to |head.terms|
        invariant forall j :: 0 <= j < p ==> tuple[j] == Val(head.terms[j], env[..])
      {
        tuple[p] := if head.terms[p].Const? then head.terms[p].c else env[head.terms[p].i];
      }
      f := Fact(head.rel, tuple[..|head.terms|]);
    }

    /** unbind: undoes exactly what a trail recorded. */
    method Unbind(base: nat, count: nat, ghost b0: seq<bool>, ghost e0: seq<nat>, ghost e1: seq<nat>)
      requires Valid() && base + count <= boundLog.Length
      requires Trail(b0, e0, bound[..], e1, boundLog[base..base + count])
      modifies bound
      ensures bound[..] == b0
    {
      ghost var log := boundLog[base..base + count];
      ghost var b1 := bound[..];
      for i := 0 to count
        invariant forall k :: 0 <= k < bound.Length ==> (bound[k] <==> b1[k] && k !in log[..i])
      {
        assert boundLog[base + i] == log[i];
        bound[boundLog[base + i]] := false;
        assert log[..i + 1] == log[..i] + [log[i]];
      }
      assert log[..count] == log;
    }
  }

  ghost predicate GroundUpTo(terms: seq<Term>, b: seq<bool>, p: int) {
    forall k :: 0 <= k < p <= |terms| && terms[k].Slot? ==> terms[k].i < |b| && b[terms[k].i]
  }

  /** What one position does to the trail, the remaining extensions and the ground prefix. */
  lemma UnifyStep(b0: seq<bool>, e0: seq<nat>, b: seq<bool>, e: seq<nat>, all: seq<nat>, base: nat, count: nat,
                  terms: seq<Term>, t: seq<nat>, p: nat)
    requires |b| == |e| && p < |terms| == |t| && base + count < |all| && (terms[p].Slot? ==> terms[p].i < |b|)
    requires Trail(b0, e0, b, e, all[base..base + count]) && Narrowed(b0, e0, b, e, terms, t, p) && GroundUpTo(terms, b, p)
    ensures Known(terms[p], b, e) && Val(terms[p], e) == t[p] ==> Narrowed(b0, e0, b, e, terms, t, p + 1) && GroundUpTo(terms, b, p + 1)
    ensures Known(terms[p], b, e) && Val(terms[p], e) != t[p] ==>
              forall s {:trigger Extends(b0, e0, s)} :: Extends(b0, e0, s) ==> !MatchUpTo(terms, t, s, |t|)
    ensures !Known(terms[p], b, e) ==>
              var i := terms[p].i; var b', e', all' := b[i := true], e[i := t[p]], all[base + count := i];
              && Trail(b0, e0, b', e', all'[base..base + count + 1]) && all'[..base] == all[..base]
              && Narrowed(b0, e0, b', e', terms, t, p + 1) && GroundUpTo(terms, b', p + 1)
  {
    if Known(terms[p], b, e) {
      if Val(terms[p], e) == t[p] { NarrowedCheck(b0, e0, b, e, terms, t, p); } else { NarrowedClash(b0, e0, b, e, terms, t, p); }
    } else {
      var i := terms[p].i;
      NarrowedBind(b0, e0, b, e, terms, t, p);
      TrailPush(b0, e0, b, e, all[base..base + count], i, t[p]);
      assert all[base + count := i][base..base + count + 1] == all[base..base + count] + [i];
    }
  }

  // ---- what a join promises ----

  /** Where body position i takes its facts from. */
  ghost predicate Supplied(i: int, delta: Option<Delta>, pos: int, facts: set<Fact>, f: Fact) {
    if delta.Some? && i == pos then f in DeltaFacts(delta.value) else f in facts
  }

  /** From depth on, s takes every body atom from its source. */
  ghost predicate RestSupplied(r: Rule, depth: int, s: Subst, facts: set<Fact>, delta: Option<Delta>, pos: int) {
    forall i {:trigger r.body[i]} :: 0 <= depth <= i < |r.body| ==> Supplied(i, delta, pos, facts, Apply(r.body[i], s))
  }

  /** Every extension of (b, e) supplied by facts0 has its head in facts1. */
  ghost predicate Complete(r: Rule, b: seq<bool>, e: seq<nat>, depth: int, delta: Option<Delta>, pos: int,
                           facts0: set<Fact>, facts1: set<Fact>) {
    forall s {:trigger Extends(b, e, s)} ::
      Extends(b, e, s) && RestSupplied(r, depth, s, facts0, delta, pos) ==> Apply(r.head, s) in facts1
  }

  /** f is the head of an instance whose body lies in facts, the delta position in the delta. */
  ghost predicate InstanceOf(r: Rule, facts: set<Fact>, delta: Option<Delta>, pos: int, f: Fact, s: Subst) {
    && |s| == r.vars && f == Apply(r.head, s)
    && BodyIn(r.body, s, facts)
    && (delta.Some? && 0 <= pos < |r.body| ==> Apply(r.body[pos], s) in DeltaFacts(delta.value))
  }

  /** Everything new is such a head. */
  ghost predicate Justified(r: Rule, facts0: set<Fact>, facts1: set<Fact>, delta: Option<Delta>, pos: int) {
    forall f :: f in facts1 && f !in facts0 ==> exists s :: InstanceOf(r, facts1, delta, pos, f, s)
  }

  /** The first depth body atoms are ground and present. */
  ghost predicate PrefixIn(r: Rule, b: seq<bool>, e: seq<nat>, depth: int, facts: set<Fact>, delta: Option<Delta>, pos: int) {
    forall i {:trigger r.body[i]} :: 0 <= i < depth <= |r.body| ==>
      && Grounded(r.body[i], b) && Apply(r.body[i], e) in facts
      && (delta.Some? && i == pos ==> Apply(r.body[i], e) in DeltaFacts(delta.value))
  }

  ghost predicate DeltaOk(r: Rule, delta: Option<Delta>, pos: int, facts: set<Fact>) {
    delta.Some? ==>
      && 0 <= pos < |r.body| && EntryOk(delta.value) && DeltaFacts(delta.value) <= facts
      && delta.value.rel == r.body[pos].rel && delta.value.arity == |r.body[pos].terms|
  }

  lemma JustifiedCompose(r: Rule, f0: set<Fact>, f1: set<Fact>, f2: set<Fact>, delta: Option<Delta>, pos: int)
    requires f0 <= f1 <= f2 && Justified(r, f0, f1, delta, pos) && Justified(r, f1, f2, delta, pos)
    ensures Justified(r, f0, f2, delta, pos)
  {
    forall f | f in f2 && f !in f0 ensures exists s :: InstanceOf(r, f2, delta, pos, f, s) {
      if f in f1 {
        var s :| InstanceOf(r, f1, delta, pos, f, s);
        assert InstanceOf(r, f2, delta, pos, f, s);
      }
    }
  }

  lemma CompleteGrow(r: Rule, b: seq<bool>, e: seq<nat>, depth: int, delta: Option<Delta>, pos: int,
                     f0: set<Fact>, f0': set<Fact>, f1: set<Fact>, f1': set<Fact>)
    requires Complete(r, b, e, depth, delta, pos, f0', f1) && f0 <= f0' && f1 <= f1'
    ensures Complete(r, b, e, depth, delta, pos, f0, f1')
  {
    forall s | Extends(b, e, s) && RestSupplied(r, depth, s, f0, delta, pos) ensures Apply(r.head, s) in f1' {
      assert RestSupplied(r, depth, s, f0', delta, pos);
    }
  }

  /** Every variable of the head is bound once the whole body is. */
  lemma HeadGrounded(r: Rule, b: seq<bool>, e: seq<nat>, facts: set<Fact>, delta: Option<Delta>, pos: int)
    requires RuleOk(r) && |b| == r.vars && PrefixIn(r, b, e, |r.body|, facts, delta, pos)
    ensures Grounded(r.head, b)
  {
    forall k | 0 <= k < |r.head.terms| && r.head.terms[k].Slot? ensures b[r.head.terms[k].i] {
      var i := r.head.terms[k].i;
      assert Occurs(r.head, i);
      var d :| 0 <= d < |r.body| && Occurs(r.body[d], i);
      assert Grounded(r.body[d], b);
      var j :| 0 <= j < |r.body[d].terms| && r.body[d].terms[j] == Slot(i);
    }
  }

  /** A trail keeps the ground prefix and what it denotes. */
  lemma PrefixTrail(r: Rule, b0: seq<bool>, e0: seq<nat>, b: seq<bool>, e: seq<nat>, log: seq<nat>, depth: int,
                    facts: set<Fact>, facts': set<Fact>, delta: Option<Delta>, pos: int)
    requires PrefixIn(r, b0, e0, depth, facts, delta, pos) && Trail(b0, e0, b, e, log) && facts <= facts'
    ensures PrefixIn(r, b, e, depth, facts', delta, pos)
  {
    forall i | 0 <= i < depth <= |r.body|
      ensures Grounded(r.body[i], b) && Apply(r.body[i], e) == Apply(r.body[i], e0)
    {
      assert Grounded(r.body[i], b0);
      assert Extends(b0, e0, e);
      GroundedApply(r.body[i], b0, e0, e);
    }
  }

  lemma PrefixExtend(r: Rule, b: seq<bool>, e: seq<nat>, depth: nat, facts: set<Fact>, delta: Option<Delta>, pos: int, t: seq<nat>)
    requires PrefixIn(r, b, e, depth, facts, delta, pos) && depth < |r.body| && Grounded(r.body[depth], b)
    requires Fact(r.body[depth].rel, t) in facts && |t| == |r.body[depth].terms|
    requires delta.Some? && depth == pos ==> Fact(r.body[depth].rel, t) in DeltaFacts(delta.value)
    requires MatchUpTo(r.body[depth].terms, t, e, |t|)
    ensures PrefixIn(r, b, e, depth + 1, facts, delta, pos)
  {
    MatchIsApply(r.body[depth], t, e);
  }

  /** The extensions that take body position depth from tuple t are handled below it. */
  ghost predicate Covered(r: Rule, b: seq<bool>, e: seq<nat>, depth: int, delta: Option<Delta>, pos: int,
                          facts0: set<Fact>, facts1: set<Fact>, f: Fact) {
    forall s {:trigger Extends(b, e, s)} ::
      (Extends(b, e, s) && 0 <= depth < |r.body| && Apply(r.body[depth], s) == f
       && RestSupplied(r, depth + 1, s, facts0, delta, pos)) ==> Apply(r.head, s) in facts1
  }

  lemma CoveredMatched(r: Rule, b0: seq<bool>, e0: seq<nat>, b: seq<bool>, e: seq<nat>, depth: nat, delta: Option<Delta>, pos: int,
                       facts0: set<Fact>, facts: set<Fact>, facts1: set<Fact>, t: seq<nat>)
    requires depth < |r.body| && |t| == |r.body[depth].terms|
    requires Narrowed(b0, e0, b, e, r.body[depth].terms, t, |t|)
    requires Complete(r, b, e, depth + 1, delta, pos, facts, facts1) && facts0 <= facts
    ensures Covered(r, b0, e0, depth, delta, pos, facts0, facts1, Fact(r.body[depth].rel, t))
  {
    forall s | Extends(b0, e0, s) && Apply(r.body[depth], s) == Fact(r.body[depth].rel, t)
               && RestSupplied(r, depth + 1, s, facts0, delta, pos)
      ensures Apply(r.head, s) in facts1
    {
      MatchIsApply(r.body[depth], t, s);
      assert Extends(b, e, s);
      assert RestSupplied(r, depth + 1, s, facts, delta, pos);
    }
  }

  lemma CoveredClash(r: Rule, b0: seq<bool>, e0: seq<nat>, depth: nat, delta: Option<Delta>, pos: int,
                     facts0: set<Fact>, facts1: set<Fact>, t: seq<nat>)
    requires depth < |r.body| && |t| == |r.body[depth].terms|
    requires forall s {:trigger Extends(b0, e0, s)} :: Extends(b0, e0, s) ==> !MatchUpTo(r.body[depth].terms, t, s, |t|)
    ensures Covered(r, b0, e0, depth, delta, pos, facts0, facts1, Fact(r.body[depth].rel, t))
  {
    forall s | Extends(b0, e0, s) ensures Apply(r.body[depth], s) != Fact(r.body[depth].rel, t) {
      MatchIsApply(r.body[depth], t, s);
    }
  }

  lemma AllCovered(r: Rule, b: seq<bool>, e: seq<nat>, depth: nat, delta: Option<Delta>, pos: int,
                   facts0: set<Fact>, facts1: set<Fact>, done: set<Fact>)
    requires depth < |r.body|
    requires forall f {:trigger Covered(r, b, e, depth, delta, pos, facts0, facts1, f)} :: f in done ==> Covered(r, b, e, depth, delta, pos, facts0, facts1, f)
    requires forall s {:trigger Extends(b, e, s)} :: Extends(b, e, s) && Supplied(depth, delta, pos, facts0, Apply(r.body[depth], s)) ==> Apply(r.body[depth], s) in done
    ensures Complete(r, b, e, depth, delta, pos, facts0, facts1)
  {
    forall s | Extends(b, e, s) && RestSupplied(r, depth, s, facts0, delta, pos) ensures Apply(r.head, s) in facts1 {
      var f := Apply(r.body[depth], s);
      assert Supplied(depth, delta, pos, facts0, f);
      assert Covered(r, b, e, depth, delta, pos, facts0, facts1, f);
      assert RestSupplied(r, depth + 1, s, facts0, delta, pos);
    }
  }

  // ---- evaluation ----

  /** The program being run and the database it started from. */
  datatype Program = Program(rules: seq<Rule>, base: set<Fact>)

  ghost predicate Running(g: Program, k: int, r: Rule, facts: set<Fact>) {
    && RulesOk(g.rules) && 0 <= k < |g.rules| && g.rules[k] == r
    && g.base <= facts && Below(g.rules, g.base, facts)
  }

  /** The store only grew, by heads of this rule; on success nothing supplied is missing. */
  ghost predicate Joined(st: Status, r: Rule, b: seq<bool>, e: seq<nat>, depth: int, delta: Option<Delta>, pos: int,
                         facts0: set<Fact>, facts1: set<Fact>) {
    && facts0 <= facts1
    && Justified(r, facts0, facts1, delta, pos)
    && (st == Ok ==> Complete(r, b, e, depth, delta, pos, facts0, facts1))
  }

  /** The sink gained exactly the new facts, each counted once. */
  ghost predicate SinkGrew(d0: set<Fact>, n0: int, d1: set<Fact>, n1: int, facts0: set<Fact>, facts1: set<Fact>) {
    d1 == d0 + (facts1 - facts0) && n1 == n0 + |facts1| - |facts0|
  }

  lemma SinkCompose(d0: set<Fact>, n0: int, d1: set<Fact>, n1: int, d2: set<Fact>, n2: int, f0: set<Fact>, f1: set<Fact>, f2: set<Fact>)
    requires f0 <= f1 <= f2 && SinkGrew(d0, n0, d1, n1, f0, f1) && SinkGrew(d1, n1, d2, n2, f1, f2)
    ensures SinkGrew(d0, n0, d2, n2, f0, f2)
  {
  }

  /** emit_head: inserts the instantiated head and records it when it is new. */
  method EmitHead(rule: CompiledRule, store: Store, sink: DeltaTable, delta: Option<Delta>, pos: nat, ghost g: Program, ghost k: int)
    returns (st: Status)
    requires rule.Valid() && sink.Valid() && Running(g, k, rule.rule, store.facts)
    requires PrefixIn(rule.rule, rule.bound[..], rule.env[..], |rule.rule.body|, store.facts, delta, pos)
    modifies rule.tuple, store, sink
    ensures sink.Valid() && SinkGrew(old(sink.Facts()), old(sink.total), sink.Facts(), sink.total, old(store.facts), store.facts)
    ensures Running(g, k, rule.rule, store.facts) && store.scans == old(store.scans) && store.failed == old(store.failed) + Fault(st == Ok)
    ensures Joined(st, rule.rule, rule.bound[..], rule.env[..], |rule.rule.body|, delta, pos, old(store.facts), store.facts)
  {
    ghost var r, b, e, facts0 := rule.rule, rule.bound[..], rule.env[..], store.facts;
    HeadGrounded(r, b, e, facts0, delta, pos);
    var f := rule.BuildHead();
    assert Fires(g.rules, k, e, facts0) by {
      forall i | 0 <= i < |r.body| ensures Apply(r.body[i], e) in facts0 {}
    }
    BelowStep(g.rules, g.base, facts0, k, e);
    var ok, inserted := store.Insert(f);
    if !ok {
      return StoreError;
    }
    EmitJoined(r, b, e, delta, pos, facts0, f);
    if f in facts0 { assert facts0 + {f} == facts0; } else { assert |facts0 + {f}| == |facts0| + 1; }
    if inserted {
      sink.Record(f);
    }
    return Ok;
  }

  lemma EmitJoined(r: Rule, b: seq<bool>, e: seq<nat>, delta: Option<Delta>, pos: nat, facts0: set<Fact>, f: Fact)
    requires |e| == |b| == r.vars && f == Apply(r.head, e) && Grounded(r.head, b)
    requires PrefixIn(r, b, e, |r.body|, facts0, delta, pos)
    ensures Joined(Ok, r, b, e, |r.body|, delta, pos, facts0, facts0 + {f})
  {
    var facts1 := facts0 + {f};
    forall s | Extends(b, e, s) ensures Apply(r.head, s) in facts1 { GroundedApply(r.head, b, e, s); }
    forall i | 0 <= i < |r.body| ensures Apply(r.body[i], e) in facts1 {}
    assert InstanceOf(r, facts1, delta, pos, f, e);
  }

  /** The common part of scan_one and delta_step: one tuple for the atom at depth, its bindings undone afterwards. */
  method TryTuple(rule: CompiledRule, store: Store, sink: DeltaTable, depth: nat, t: seq<nat>,
                  delta: Option<Delta>, pos: nat, ghost g: Program, ghost k: int) returns (st: Status)
    requires rule.Valid() && sink.Valid() && Running(g, k, rule.rule, store.facts) && depth < |rule.rule.body|
    requires PrefixIn(rule.rule, rule.bound[..], rule.env[..], depth, store.facts, delta, pos)
    requires DeltaOk(rule.rule, delta, pos, store.facts)
    requires |t| == |rule.rule.body[depth].terms| && Fact(rule.rule.body[depth].rel, t) in store.facts
    requires delta.Some? && depth == pos ==> Fact(rule.rule.body[depth].rel, t) in DeltaFacts(delta.value)
    modifies rule.env, rule.bound, rule.values, rule.bvalues, rule.tuple, rule.boundLog, store, sink
    ensures sink.Valid() && SinkGrew(old(sink.Facts()), old(sink.total), sink.Facts(), sink.total, old(store.facts), store.facts)
    ensures Running(g, k, rule.rule, store.facts) && store.scans == old(store.scans) && store.failed == old(store.failed) + Fault(st == Ok)
    ensures rule.bound[..] == old(rule.bound[..]) && Extends(rule.bound[..], old(rule.env[..]), rule.env[..])
    ensures rule.LogBelow(depth) == old(rule.LogBelow(depth))
    ensures old(store.facts) <= store.facts && Justified(rule.rule, old(store.facts), store.facts, delta, pos)
    ensures st == Ok ==> Covered(rule.rule, rule.bound[..], old(rule.env[..]), depth, delta, pos, old(store.facts), store.facts,
                                 Fact(rule.rule.body[depth].rel, t))
    decreases |rule.rule.body| - depth, 1
  {
    var a := rule.rule.body[depth];
    ghost var r, b0, e0, facts0 := rule.rule, rule.bound[..], rule.env[..], store.facts;
    rule.LogRoom(depth);
    var base := depth * rule.cap;
    var count, matched := rule.UnifyTuple(a, t, base);
    rule.LogPart(depth, count);
    ghost var b, e, log := rule.bound[..], rule.env[..], Part(rule.LogBelow(depth + 1), base, count);
    st := Ok;
    if matched {
      st := Descend(rule, store, sink, depth, t, delta, pos, g, k, b0, e0, log);
      TrailExtends(b0, e0, b, e, log, rule.env[..]);
    } else {
      CoveredClash(r, b0, e0, depth, delta, pos, facts0, facts0, t);
      TrailExtends(b0, e0, b, e, log, e);
    }
    rule.LogPart(depth, count);
    rule.Unbind(base, count, b0, e0, e);
  }

  lemma TrailExtends(b0: seq<bool>, e0: seq<nat>, b: seq<bool>, e: seq<nat>, log: seq<nat>, e': seq<nat>)
    requires Trail(b0, e0, b, e, log) && (e == e' || Extends(b, e, e'))
    ensures Extends(b0, e0, e')
  {
  }

  /** A matched tuple: the rest of the body under its bindings. */
  method Descend(rule: CompiledRule, store: Store, sink: DeltaTable, depth: nat, t: seq<nat>,
                 delta: Option<Delta>, pos: nat, ghost g: Program, ghost k: int, ghost b0: seq<bool>, ghost e0: seq<nat>, ghost log: seq<nat>)
    returns (st: Status)
    requires rule.Valid() && sink.Valid() && Running(g, k, rule.rule, store.facts) && depth < |rule.rule.body|
    requires PrefixIn(rule.rule, b0, e0, depth, store.facts, delta, pos) && DeltaOk(rule.rule, delta, pos, store.facts)
    requires |t| == |rule.rule.body[depth].terms| && Fact(rule.rule.body[depth].rel, t) in store.facts
    requires delta.Some? && depth == pos ==> Fact(rule.rule.body[depth].rel, t) in DeltaFacts(delta.value)
    requires Trail(b0, e0, rule.bound[..], rule.env[..], log) && Grounded(rule.rule.body[depth], rule.bound[..])
    requires Narrowed(b0, e0, rule.bound[..], rule.env[..], rule.rule.body[depth].terms, t, |t|)
    modifies rule.env, rule.bound, rule.values, rule.bvalues, rule.tuple, rule.boundLog, store, sink
    ensures sink.Valid() && SinkGrew(old(sink.Facts()), old(sink.total), sink.Facts(), sink.total, old(store.facts), store.facts)
    ensures Running(g, k, rule.rule, store.facts) && store.scans == old(store.scans) && store.failed == old(store.failed) + Fault(st == Ok)
    ensures rule.bound[..] == old(rule.bound[..]) && Extends(rule.bound[..], old(rule.env[..]), rule.env[..])
    ensures rule.LogBelow(depth + 1) == old(rule.LogBelow(depth + 1))
    ensures old(store.facts) <= store.facts && Justified(rule.rule, old(store.facts), store.facts, delta, pos)
    ensures st == Ok ==> Covered(rule.rule, b0, e0, depth, delta, pos, old(store.facts), store.facts, Fact(rule.rule.body[depth].rel, t))
    decreases |rule.rule.body| - depth, 0
  {
    ghost var r, b, e, facts0 := rule.rule, rule.bound[..], rule.env[..], store.facts;
    PrefixTrail(r, b0, e0, b, e, log, depth, facts0, facts0, delta, pos);
    assert Extends(b, e, e);
    PrefixExtend(r, b, e, depth, facts0, delta, pos, t);
    st := EvalBody(rule, store, sink, depth + 1, delta, pos, g, k);
    if st == Ok { CoveredMatched(r, b0, e0, b, e, depth, delta, pos, facts0, facts0, store.facts, t); }
  }

  /** Everything a running program can hold lies in its active domain. */
  lemma StoreActive(g: Program, k: int, r: Rule, facts: set<Fact>)
    requires Running(g, k, r, facts)
    ensures facts <= Active(g.rules, g.base)
  {
    ActiveContains(g.rules, g.base);
    ActiveClosed(g.rules, g.base);
  }

  /** The facts of a set are all covered at depth. */
  ghost predicate CoveredAll(r: Rule, b: seq<bool>, e: seq<nat>, depth: int, delta: Option<Delta>, pos: int,
                             facts0: set<Fact>, facts1: set<Fact>, done: set<Fact>) {
    forall f {:trigger Covered(r, b, e, depth, delta, pos, facts0, facts1, f)} :: f in done ==> Covered(r, b, e, depth, delta, pos, facts0, facts1, f)
  }

  /** Unbound slots do not matter: the extensions of e0 and e1 are the same. */
  lemma ExtendsSame(b: seq<bool>, e0: seq<nat>, e1: seq<nat>, s: Subst)
    requires Extends(b, e0, e1)
    ensures Extends(b, e1, s) <==> Extends(b, e0, s)
  {
    if Extends(b, e0, s) { forall i | 0 <= i < |b| && b[i] ensures s[i] == e1[i] {} }
    if Extends(b, e1, s) { forall i | 0 <= i < |b| && b[i] ensures s[i] == e0[i] {} }
  }

  lemma PrefixSame(r: Rule, b: seq<bool>, e0: seq<nat>, e1: seq<nat>, depth: int,
                   facts: set<Fact>, facts': set<Fact>, delta: Option<Delta>, pos: int)
    requires PrefixIn(r, b, e0, depth, facts, delta, pos) && Extends(b, e0, e1) && facts <= facts'
    ensures PrefixIn(r, b, e1, depth, facts', delta, pos)
  {
    PrefixTrail(r, b, e0, b, e1, [], depth, facts, facts', delta, pos);
  }

  /** One more fact is covered, at a later store and environment. */
  lemma CoveredGrow(r: Rule, b: seq<bool>, e0: seq<nat>, e1: seq<nat>, depth: int, delta: Option<Delta>, pos: int,
                    f0: set<Fact>, f1: set<Fact>, f2: set<Fact>, done: set<Fact>, f: Fact)
    requires Extends(b, e0, e1) && f0 <= f1 <= f2
    requires CoveredAll(r, b, e0, depth, delta, pos, f0, f1, done) && Covered(r, b, e1, depth, delta, pos, f1, f2, f)
    ensures CoveredAll(r, b, e0, depth, delta, pos, f0, f2, done + {f})
  {
    forall h | h in done + {f} ensures Covered(r, b, e0, depth, delta, pos, f0, f2, h) {
      if h in done { assert Covered(r, b, e0, depth, delta, pos, f0, f1, h); }
      forall s | Extends(b, e0, s) && 0 <= depth < |r.body| && Apply(r.body[depth], s) == h
                 && RestSupplied(r, depth + 1, s, f0, delta, pos)
        ensures Apply(r.head, s) in f2
      {
        if h !in done {
          ExtendsSame(b, e0, e1, s);
          assert RestSupplied(r, depth + 1, s, f1, delta, pos);
        }
      }
    }
  }

  /** Where an atom's loop stands: the tuples done are covered, everything else is as one call leaves it. */
  ghost predicate Progress(r: Rule, b: seq<bool>, e0: seq<nat>, e: seq<nat>, depth: int, delta: Option<Delta>, pos: int,
                           facts0: set<Fact>, facts: set<Fact>, done: set<Fact>) {
    && facts0 <= facts && Extends(b, e0, e)
    && Justified(r, facts0, facts, delta, pos)
    && PrefixIn(r, b, e, depth, facts, delta, pos)
    && CoveredAll(r, b, e0, depth, delta, pos, facts0, facts, done)
  }

  lemma ProgressStart(r: Rule, b: seq<bool>, e: seq<nat>, depth: int, delta: Option<Delta>, pos: int, facts: set<Fact>)
    requires |b| == |e| && PrefixIn(r, b, e, depth, facts, delta, pos)
    ensures Progress(r, b, e, e, depth, delta, pos, facts, facts, {})
  {
  }

  lemma ProgressStep(r: Rule, b: seq<bool>, e0: seq<nat>, e: seq<nat>, e': seq<nat>, depth: int, delta: Option<Delta>, pos: int,
                     facts0: set<Fact>, facts: set<Fact>, facts': set<Fact>, done: set<Fact>, f: Fact)
    requires Progress(r, b, e0, e, depth, delta, pos, facts0, facts, done)
    requires facts <= facts' && Extends(b, e, e') && Justified(r, facts, facts', delta, pos)
    ensures Extends(b, e0, e') && Justified(r, facts0, facts', delta, pos)
    ensures Covered(r, b, e, depth, delta, pos, facts, facts', f) ==> Progress(r, b, e0, e', depth, delta, pos, facts0, facts', done + {f})
  {
    ExtendsSame(b, e0, e, e');
    JustifiedCompose(r, facts0, facts, facts', delta, pos);
    if Covered(r, b, e, depth, delta, pos, facts, facts', f) {
      CoveredGrow(r, b, e0, e, depth, delta, pos, facts0, facts, facts', done, f);
      PrefixSame(r, b, e, e', depth, facts, facts', delta, pos);
    }
  }

  /** scan_one: the next tuple of a scan, or its end. */
  method ScanOne(rule: CompiledRule, store: Store, sink: DeltaTable, depth: nat, c: Cursor,
                 delta: Option<Delta>, pos: nat, ghost g: Program, ghost k: int) returns (st: Status, done: bool, f: Fact, c': Cursor)
    requires rule.Valid() && sink.Valid() && Running(g, k, rule.rule, store.facts) && depth < |rule.rule.body|
    requires PrefixIn(rule.rule, rule.bound[..], rule.env[..], depth, store.facts, delta, pos)
    requires DeltaOk(rule.rule, delta, pos, store.facts) && !(delta.Some? && depth == pos)
    requires c.initial <= store.facts && c.pattern.rel == rule.rule.body[depth].rel && |c.pattern.values| == |rule.rule.body[depth].terms|
    requires forall h :: h in c.initial ==> h.rel == c.pattern.rel && |h.args| == |c.pattern.values|
    modifies rule.env, rule.bound, rule.values, rule.bvalues, rule.tuple, rule.boundLog, store, sink
    ensures sink.Valid() && SinkGrew(old(sink.Facts()), old(sink.total), sink.Facts(), sink.total, old(store.facts), store.facts)
    ensures Running(g, k, rule.rule, store.facts) && store.scans == old(store.scans) && store.failed == old(store.failed) + Fault(st == Ok)
    ensures rule.bound[..] == old(rule.bound[..]) && Extends(rule.bound[..], old(rule.env[..]), rule.env[..])
    ensures rule.LogBelow(depth) == old(rule.LogBelow(depth))
    ensures old(store.facts) <= store.facts && Justified(rule.rule, old(store.facts), store.facts, delta, pos)
    ensures st == Ok && done ==> c.initial <= c.seen
    ensures st == Ok && !done ==> f in old(store.facts) && f !in c.seen && c' == c.(seen := c.seen + {f})
    ensures st == Ok && !done ==> Covered(rule.rule, rule.bound[..], old(rule.env[..]), depth, delta, pos, old(store.facts), store.facts, f)
    decreases |rule.rule.body| - depth, 2
  {
    var ok, found;
    ok, found, f, c' := store.ScanNext(c);
    if !ok { return StoreError, false, f, c'; }
    if !found { return Ok, true, f, c'; }
    rule.FillTuple(f.args);
    done := false;
    st := TryTuple(rule, store, sink, depth, rule.tuple[..|f.args|], delta, pos, g, k);
  }

  /** The loop of scan_atom. */
  method ScanLoop(rule: CompiledRule, store: Store, sink: DeltaTable, depth: nat, start: Cursor,
                  delta: Option<Delta>, pos: nat, ghost g: Program, ghost k: int) returns (st: Status)
    requires rule.Valid() && sink.Valid() && Running(g, k, rule.rule, store.facts) && depth < |rule.rule.body|
    requires PrefixIn(rule.rule, rule.bound[..], rule.env[..], depth, store.facts, delta, pos)
    requires DeltaOk(rule.rule, delta, pos, store.facts) && !(delta.Some? && depth == pos)
    requires start.seen == {} && start.pattern.rel == rule.rule.body[depth].rel
    requires |start.pattern.bound| == |start.pattern.values| == |rule.rule.body[depth].terms|
    requires forall f :: f in start.initial <==> f in store.facts && Matches(start.pattern, f)
    requires forall s {:trigger Extends(rule.bound[..], rule.env[..], s)} :: Extends(rule.bound[..], rule.env[..], s) ==> Matches(start.pattern, Apply(rule.rule.body[depth], s))
    modifies rule.env, rule.bound, rule.values, rule.bvalues, rule.tuple, rule.boundLog, store, sink
    ensures sink.Valid() && SinkGrew(old(sink.Facts()), old(sink.total), sink.Facts(), sink.total, old(store.facts), store.facts)
    ensures Running(g, k, rule.rule, store.facts) && store.scans == old(store.scans) && store.failed == old(store.failed) + Fault(st == Ok)
    ensures rule.bound[..] == old(rule.bound[..]) && Extends(rule.bound[..], old(rule.env[..]), rule.env[..])
    ensures rule.LogBelow(depth) == old(rule.LogBelow(depth))
    ensures Joined(st, rule.rule, rule.bound[..], old(rule.env[..]), depth, delta, pos, old(store.facts), store.facts)
    decreases |rule.rule.body| - depth, 3
  {
    ghost var r, b, e0, facts0, d0, n0, log0 := rule.rule, rule.bound[..], rule.env[..], store.facts, sink.Facts(), sink.total, rule.LogBelow(depth);
    var c := start;
    ghost var initial := c.initial;
    ProgressStart(r, b, e0, depth, delta, pos, facts0);
    while true
      modifies rule.env, rule.bound, rule.values, rule.bvalues, rule.tuple, rule.boundLog, store, sink
      invariant sink.Valid() && SinkGrew(d0, n0, sink.Facts(), sink.total, facts0, store.facts)
      invariant Running(g, k, r, store.facts) && DeltaOk(r, delta, pos, store.facts) && store.scans == old(store.scans) && store.failed == old(store.failed)
      invariant rule.bound[..] == b && rule.LogBelow(depth) == log0
      invariant Progress(r, b, e0, rule.env[..], depth, delta, pos, facts0, store.facts, c.seen)
      invariant c.pattern == start.pattern && c.initial == initial && c.seen <= store.facts
      decreases Active(g.rules, g.base) - c.seen
    {
      StoreActive(g, k, r, store.facts);
      ghost var e, facts, d, n := rule.env[..], store.facts, sink.Facts(), sink.total;
      var done, f, c';
      st, done, f, c' := ScanOne(rule, store, sink, depth, c, delta, pos, g, k);
      ProgressStep(r, b, e0, e, rule.env[..], depth, delta, pos, facts0, facts, store.facts, c.seen, f);
      SinkCompose(d0, n0, d, n, sink.Facts(), sink.total, facts0, facts, store.facts);
      if st != Ok { return st; }
      if done {
        ScanDone(r, b, e0, depth, delta, pos, facts0, facts, store.facts, start.pattern, c);
        return Ok;
      }
      c := c';
    }
  }

  /** scan_atom: the atom at depth over the store; the scan is closed on every path. */
  method ScanAtom(rule: CompiledRule, store: Store, sink: DeltaTable, depth: nat,
                  delta: Option<Delta>, pos: nat, ghost g: Program, ghost k: int) returns (st: Status)
    requires rule.Valid() && sink.Valid() && Running(g, k, rule.rule, store.facts) && depth < |rule.rule.body|
    requires PrefixIn(rule.rule, rule.bound[..], rule.env[..], depth, store.facts, delta, pos)
    requires DeltaOk(rule.rule, delta, pos, store.facts) && !(delta.Some? && depth == pos)
    modifies rule.env, rule.bound, rule.values, rule.bvalues, rule.tuple, rule.boundLog, store, sink
    ensures sink.Valid() && SinkGrew(old(sink.Facts()), old(sink.total), sink.Facts(), sink.total, old(store.facts), store.facts)
    ensures Running(g, k, rule.rule, store.facts) && store.scans == old(store.scans) && store.failed == old(store.failed) + Fault(st == Ok)
    ensures rule.bound[..] == old(rule.bound[..]) && Extends(rule.bound[..], old(rule.env[..]), rule.env[..])
    ensures rule.LogBelow(depth) == old(rule.LogBelow(depth))
    ensures Joined(st, rule.rule, rule.bound[..], old(rule.env[..]), depth, delta, pos, old(store.facts), store.facts)
    decreases |rule.rule.body| - depth, 4
  {
    var pattern := rule.BuildBindings(rule.rule.body[depth]);
    var ok, c := store.ScanOpen(pattern);
    if !ok { return StoreError; }
    st := ScanLoop(rule, store, sink, depth, c, delta, pos, g, k);
    store.ScanClose();
  }

  lemma ScanDone(r: Rule, b: seq<bool>, e: seq<nat>, depth: nat, delta: Option<Delta>, pos: nat,
                 facts0: set<Fact>, facts: set<Fact>, facts1: set<Fact>, p: Pattern, c: Cursor)
    requires depth < |r.body| && !(delta.Some? && depth == pos) && facts <= facts1
    requires CoveredAll(r, b, e, depth, delta, pos, facts0, facts, c.seen) && c.initial <= c.seen
    requires forall s {:trigger Extends(b, e, s)} :: Extends(b, e, s) ==> Matches(p, Apply(r.body[depth], s))
    requires forall f :: f in facts0 && Matches(p, f) ==> f in c.initial
    ensures Complete(r, b, e, depth, delta, pos, facts0, facts1)
  {
    ScanComplete(r, b, e, depth, delta, pos, facts0, facts, p, c);
    CompleteGrow(r, b, e, depth, delta, pos, facts0, facts0, facts, facts1);
  }

  /** A finished scan has gone through every fact that an extension can ask for. */
  lemma ScanComplete(r: Rule, b: seq<bool>, e: seq<nat>, depth: nat, delta: Option<Delta>, pos: nat,
                     facts0: set<Fact>, facts: set<Fact>, p: Pattern, c: Cursor)
    requires depth < |r.body| && !(delta.Some? && depth == pos)
    requires CoveredAll(r, b, e, depth, delta, pos, facts0, facts, c.seen) && c.initial <= c.seen
    requires forall s {:trigger Extends(b, e, s)} :: Extends(b, e, s) ==> Matches(p, Apply(r.body[depth], s))
    requires forall f :: f in facts0 && Matches(p, f) ==> f in c.initial
    ensures Complete(r, b, e, depth, delta, pos, facts0, facts)
  {
    AllCovered(r, b, e, depth, delta, pos, facts0, facts, c.seen);
  }

  /** delta_atom: the atom at depth over the recorded tuples. */
  method DeltaAtom(rule: CompiledRule, store: Store, sink: DeltaTable, depth: nat,
                   delta: Option<Delta>, pos: nat, ghost g: Program, ghost k: int) returns (st: Status)
    requires rule.Valid() && sink.Valid() && Running(g, k, rule.rule, store.facts) && depth < |rule.rule.body|
    requires PrefixIn(rule.rule, rule.bound[..], rule.env[..], depth, store.facts, delta, pos)
    requires DeltaOk(rule.rule, delta, pos, store.facts) && delta.Some? && depth == pos
    modifies rule.env, rule.bound, rule.values, rule.bvalues, rule.tuple, rule.boundLog, store, sink
    ensures sink.Valid() && SinkGrew(old(sink.Facts()), old(sink.total), sink.Facts(), sink.total, old(store.facts), store.facts)
    ensures Running(g, k, rule.rule, store.facts) && store.scans == old(store.scans) && store.failed == old(store.failed) + Fault(st == Ok)
    ensures rule.bound[..] == old(rule.bound[..]) && Extends(rule.bound[..], old(rule.env[..]), rule.env[..])
    ensures rule.LogBelow(depth) == old(rule.LogBelow(depth))
    ensures Joined(st, rule.rule, rule.bound[..], old(rule.env[..]), depth, delta, pos, old(store.facts), store.facts)
    decreases |rule.rule.body| - depth, 2
  {
    ghost var r, b, e0, facts0, d0, n0, log0 := rule.rule, rule.bound[..], rule.env[..], store.facts, sink.Facts(), sink.total, rule.LogBelow(depth);
    ghost var done: set<Fact> := {};
    var tuples := delta.value.tuples;
    ProgressStart(r, b, e0, depth, delta, pos, facts0);
    for i := 0 to |tuples|
      modifies rule.env, rule.bound, rule.values, rule.bvalues, rule.tuple, rule.boundLog, store, sink
      invariant sink.Valid() && SinkGrew(d0, n0, sink.Facts(), sink.total, facts0, store.facts)
      invariant Running(g, k, r, store.facts) && DeltaOk(r, delta, pos, store.facts) && store.scans == old(store.scans) && store.failed == old(store.failed)
      invariant rule.bound[..] == b && rule.LogBelow(depth) == log0
      invariant Progress(r, b, e0, rule.env[..], depth, delta, pos, facts0, store.facts, done)
      invariant forall j :: 0 <= j < i ==> Fact(delta.value.rel, tuples[j]) in done
    {
      ghost var e, facts, d, n := rule.env[..], store.facts, sink.Facts(), sink.total;
      ghost var f := Fact(delta.value.rel, tuples[i]);
      assert f in DeltaFacts(delta.value);
      st := TryTuple(rule, store, sink, depth, tuples[i], delta, pos, g, k);
      ProgressStep(r, b, e0, e, rule.env[..], depth, delta, pos, facts0, facts, store.facts, done, f);
      SinkCompose(d0, n0, d, n, sink.Facts(), sink.total, facts0, facts, store.facts);
      if st != Ok { return st; }
      done := done + {f};
    }
    AllCovered(r, b, e0, depth, delta, pos, facts0, store.facts, done);
    return Ok;
  }

  /** eval_body: the body from depth on, then the head. */
  method EvalBody(rule: CompiledRule, store: Store, sink: DeltaTable, depth: nat,
                  delta: Option<Delta>, pos: nat, ghost g: Program, ghost k: int) returns (st: Status)
    requires rule.Valid() && sink.Valid() && Running(g, k, rule.rule, store.facts) && depth <= |rule.rule.body|
    requires PrefixIn(rule.rule, rule.bound[..], rule.env[..], depth, store.facts, delta, pos)
    requires DeltaOk(rule.rule, delta, pos, store.facts)
    modifies rule.env, rule.bound, rule.values, rule.bvalues, rule.tuple, rule.boundLog, store, sink
    ensures sink.Valid() && SinkGrew(old(sink.Facts()), old(sink.total), sink.Facts(), sink.total, old(store.facts), store.facts)
    ensures Running(g, k, rule.rule, store.facts) && store.scans == old(store.scans) && store.failed == old(store.failed) + Fault(st == Ok)
    ensures rule.bound[..] == old(rule.bound[..]) && Extends(rule.bound[..], old(rule.env[..]), rule.env[..])
    ensures rule.LogBelow(depth) == old(rule.LogBelow(depth))
    ensures Joined(st, rule.rule, rule.bound[..], old(rule.env[..]), depth, delta, pos, old(store.facts), store.facts)
    decreases |rule.rule.body| - depth, 5
  {
    if depth == |rule.rule.body| {
      st := EmitHead(rule, store, sink, delta, pos, g, k);
    } else if delta.Some? && depth == pos {
      st := DeltaAtom(rule, store, sink, depth, delta, pos, g, k);
    } else {
      st := ScanAtom(rule, store, sink, depth, delta, pos, g, k);
    }
  }

  /** Every instance supplied by facts0 has its head in facts1. */
  ghost predicate AllHeads(r: Rule, delta: Option<Delta>, pos: int, facts0: set<Fact>, facts1: set<Fact>) {
    forall s: Subst {:trigger RestSupplied(r, 0, s, facts0, delta, pos)} ::
      |s| == r.vars && RestSupplied(r, 0, s, facts0, delta, pos) ==> Apply(r.head, s) in facts1
  }

  /** dl89_join_rule. */
  method JoinRule(rule: CompiledRule, store: Store, sink: DeltaTable, delta: Option<Delta>, pos: nat, ghost g: Program, ghost k: int)
    returns (st: Status)
    requires rule.Valid() && sink.Valid() && Running(g, k, rule.rule, store.facts)
    requires DeltaOk(rule.rule, delta, pos, store.facts)
    modifies rule.env, rule.bound, rule.values, rule.bvalues, rule.tuple, rule.boundLog, store, sink
    ensures sink.Valid() && SinkGrew(old(sink.Facts()), old(sink.total), sink.Facts(), sink.total, old(store.facts), store.facts)
    ensures Running(g, k, rule.rule, store.facts) && store.scans == old(store.scans) && store.failed == old(store.failed) + Fault(st == Ok)
    ensures forall i :: 0 <= i < rule.bound.Length ==> !rule.bound[i]
    ensures old(store.facts) <= store.facts && Justified(rule.rule, old(store.facts), store.facts, delta, pos)
    ensures st == Ok ==> AllHeads(rule.rule, delta, pos, old(store.facts), store.facts)
  {
    rule.ClearBound();
    ghost var b, e, facts0 := rule.bound[..], rule.env[..], store.facts;
    st := EvalBody(rule, store, sink, 0, delta, pos, g, k);
    assert forall i :: 0 <= i < rule.bound.Length ==> rule.bound[i] == b[i];
    if st == Ok {
      forall s: Subst | |s| == rule.rule.vars && RestSupplied(rule.rule, 0, s, facts0, delta, pos)
        ensures Apply(rule.rule.head, s) in store.facts
      {
        assert Extends(b, e, s);
      }
    }
  }
}
