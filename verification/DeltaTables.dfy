/** The delta tables of semi-naive evaluation (dl89_fixpoint.c:42-229). */
module DeltaTables {
  import opened Common
  import opened Datalog

  /** The recorded tuples of one relation signature. */
  datatype Delta = Delta(rel: nat, arity: nat, tuples: seq<seq<nat>>)

  ghost function DeltaFacts(d: Delta): set<Fact> {
    set k | 0 <= k < |d.tuples| :: Fact(d.rel, d.tuples[k])
  }

  ghost function EntryFacts(es: seq<Delta>): set<Fact> {
    if es == [] then {} else EntryFacts(es[..|es| - 1]) + DeltaFacts(es[|es| - 1])
  }

  ghost function TupleCount(es: seq<Delta>): nat {
    if es == [] then 0 else TupleCount(es[..|es| - 1]) + |es[|es| - 1].tuples|
  }

  ghost predicate EntryOk(d: Delta) {
    forall k :: 0 <= k < |d.tuples| ==> |d.tuples[k]| == d.arity
  }

  ghost predicate Entries(es: seq<Delta>) {
    && (forall i :: 0 <= i < |es| ==> EntryOk(es[i]))
    && (forall i, j :: 0 <= i < j < |es| ==> es[i].rel != es[j].rel || es[i].arity != es[j].arity)
  }

  lemma {:induction false} EntryFactsMember(es: seq<Delta>, f: Fact)
    ensures f in EntryFacts(es) <==> exists i :: 0 <= i < |es| && f in DeltaFacts(es[i])
  {
    if es != [] {
      EntryFactsMember(es[..|es| - 1], f);
      if i :| 0 <= i < |es| && f in DeltaFacts(es[i]) {
        if i < |es| - 1 { assert f in DeltaFacts(es[..|es| - 1][i]); }
      }
    }
  }

  /** Appending one tuple to entry i adds one fact and one to the count. */
  lemma {:induction false} AppendTuple(es: seq<Delta>, i: nat, t: seq<nat>)
    requires i < |es|
    ensures var d := es[i].(tuples := es[i].tuples + [t]);
            && EntryFacts(es[i := d]) == EntryFacts(es) + {Fact(d.rel, t)}
            && TupleCount(es[i := d]) == TupleCount(es) + 1
  {
    var d := es[i].(tuples := es[i].tuples + [t]);
    var n := |es| - 1;
    if i == n {
      assert es[i := d][..n] == es[..n];
      AppendFact(es[i], t);
    } else {
      AppendTuple(es[..n], i, t);
      assert es[i := d][..n] == es[..n][i := d];
    }
  }

  lemma AppendFact(d: Delta, t: seq<nat>)
    ensures DeltaFacts(d.(tuples := d.tuples + [t])) == DeltaFacts(d) + {Fact(d.rel, t)}
  {
    var d' := d.(tuples := d.tuples + [t]);
    assert d'.tuples[|d.tuples|] == t;
    forall f | f in DeltaFacts(d) ensures f in DeltaFacts(d') {
      var k :| 0 <= k < |d.tuples| && f == Fact(d.rel, d.tuples[k]);
      assert d'.tuples[k] == d.tuples[k];
    }
  }

  lemma NewEntry(es: seq<Delta>, rel: nat, arity: nat)
    ensures EntryFacts(es + [Delta(rel, arity, [])]) == EntryFacts(es)
    ensures TupleCount(es + [Delta(rel, arity, [])]) == TupleCount(es)
  {
    assert (es + [Delta(rel, arity, [])])[..|es|] == es;
  }

  lemma {:induction false} EmptiedHoldsNothing(es: seq<Delta>)
    requires forall i :: 0 <= i < |es| ==> es[i].tuples == []
    ensures EntryFacts(es) == {} && TupleCount(es) == 0
  {
    if es != [] { EmptiedHoldsNothing(es[..|es| - 1]); }
  }

  lemma EntryOwns(d: Delta, f: Fact)
    requires EntryOk(d)
    ensures f in DeltaFacts(d) ==> d.rel == f.rel && d.arity == |f.args|
  {
  }

  lemma AppendEntries(es: seq<Delta>, i: nat, t: seq<nat>)
    requires Entries(es) && i < |es| && |t| == es[i].arity
    ensures Entries(es[i := es[i].(tuples := es[i].tuples + [t])])
  {
    var d := es[i].(tuples := es[i].tuples + [t]);
    var es' := es[i := d];
    forall k | 0 <= k < |es'| ensures EntryOk(es'[k]) {
      if k != i { assert EntryOk(es[k]); } else { assert EntryOk(es[i]); }
    }
  }

  lemma NewEntries(es: seq<Delta>, rel: nat, arity: nat)
    requires Entries(es) && forall k :: 0 <= k < |es| ==> es[k].rel != rel || es[k].arity != arity
    ensures Entries(es + [Delta(rel, arity, [])])
  {
    var es' := es + [Delta(rel, arity, [])];
    forall k | 0 <= k < |es'| ensures EntryOk(es'[k]) { if k < |es| { assert EntryOk(es[k]); } }
  }

  class DeltaTable {
    var entries: seq<Delta>
    var total: nat

    ghost predicate Valid()
      reads this
    {
      Entries(entries) && total == TupleCount(entries)
    }

    ghost function Facts(): set<Fact>
      reads this
    {
      EntryFacts(entries)
    }

    constructor ()
      ensures Valid() && Facts() == {} && total == 0
    {
      entries := [];
      total := 0;
    }

    /** dl89_delta_find: the tuples of one signature, or nothing recorded for it. */
    method Find(rel: nat, arity: nat) returns (d: Option<Delta>)
      requires Valid()
      ensures d.Some? ==> d.value.rel == rel && d.value.arity == arity && EntryOk(d.value)
      ensures d.Some? ==> forall t :: |t| == arity ==> (Fact(rel, t) in Facts() <==> t in d.value.tuples)
      ensures d.Some? ==> DeltaFacts(d.value) <= Facts()
      ensures d.None? ==> forall t :: |t| == arity ==> Fact(rel, t) !in Facts()
    {
      var i := 0;
      while i < |entries|
        invariant 0 <= i <= |entries|
        invariant forall k :: 0 <= k < i ==> entries[k].rel != rel || entries[k].arity != arity
      {
        if entries[i].rel == rel && entries[i].arity == arity {
          FoundEntry(entries, i);
          return Some(entries[i]);
        }
        i := i + 1;
      }
      forall t | |t| == arity ensures Fact(rel, t) !in Facts() {
        EntryFactsMember(entries, Fact(rel, t));
        forall k | 0 <= k < |entries| ensures Fact(rel, t) !in DeltaFacts(entries[k]) { EntryOwns(entries[k], Fact(rel, t)); }
      }
      return None;
    }

    /** dl89_delta_record. */
    method Record(f: Fact)
      requires Valid()
      modifies this
      ensures Valid() && Facts() == old(Facts()) + {f} && total == old(total) + 1
    {
      var i := 0;
      while i < |entries| && !(entries[i].rel == f.rel && entries[i].arity == |f.args|)
        invariant 0 <= i <= |entries|
        invariant forall k :: 0 <= k < i ==> entries[k].rel != f.rel || entries[k].arity != |f.args|
      {
        i := i + 1;
      }
      if i == |entries| {
        NewEntry(entries, f.rel, |f.args|);
        NewEntries(entries, f.rel, |f.args|);
        entries := entries + [Delta(f.rel, |f.args|, [])];
      }
      AppendTuple(entries, i, f.args);
      AppendEntries(entries, i, f.args);
      entries := entries[i := entries[i].(tuples := entries[i].tuples + [f.args])];
      total := total + 1;
    }

    /** dl89_delta_table_clear: entries stay, their tuples go. */
    method Clear()
      requires Valid()
      modifies this
      ensures Valid() && Facts() == {} && total == 0
    {
      var i := 0;
      ghost var before := entries;
      while i < |entries|
        invariant 0 <= i <= |entries| == |before|
        invariant forall k :: 0 <= k < |entries| ==> entries[k] == if k < i then before[k].(tuples := []) else before[k]
      {
        entries := entries[i := entries[i].(tuples := [])];
        i := i + 1;
      }
      total := 0;
      EmptiedHoldsNothing(entries);
    }
  }

  lemma FoundEntry(es: seq<Delta>, i: nat)
    requires Entries(es) && i < |es|
    ensures forall t :: |t| == es[i].arity ==> (Fact(es[i].rel, t) in EntryFacts(es) <==> t in es[i].tuples)
    ensures DeltaFacts(es[i]) <= EntryFacts(es)
  {
    forall f | f in DeltaFacts(es[i]) ensures f in EntryFacts(es) { EntryFactsMember(es, f); }
    forall t | |t| == es[i].arity ensures Fact(es[i].rel, t) in EntryFacts(es) <==> t in es[i].tuples {
      var f := Fact(es[i].rel, t);
      EntryFactsMember(es, f);
      if k :| 0 <= k < |es| && f in DeltaFacts(es[k]) { assert EntryOk(es[k]); assert k == i; }
      if t in es[i].tuples { assert f in DeltaFacts(es[i]); }
    }
  }
}
