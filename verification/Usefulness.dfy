/** Usefulness of a pattern vector against a matrix (adt_match.c): the recursion, exactly what it
    answers on every matrix it can read, and when that is the right answer. */
module Usefulness {
  import opened Common
  import opened Patterns
  import opened Erasure

  lemma FieldsOk(env: seq<Family>, fam: nat, tag: nat, cs: seq<Column>)
    requires FamiliesOk(env) && HasCtor(env, fam, tag) && ColumnsOk(env, cs) && |cs| > 0
    ensures ColumnsOk(env, env[fam][tag] + cs[1..])
  {
    assert ColumnsOk(env, env[fam][tag]);
    forall i | 0 <= i < |cs| - 1 ensures ColumnOk(env, cs[1..][i]) { var j := i + 1; assert ColumnOk(env, cs[j]); }
  }

  // ---- the recursion ----

  ghost predicate Input(env: seq<Family>, rows: seq<Row>, q: Row, cs: seq<Column>) {
    FamiliesOk(env) && ColumnsOk(env, cs) && ShapedRows(env, rows, |cs|) && ShapedRow(env, q, |cs|)
  }

  ghost predicate AllWild(row: Row) {
    forall i :: 0 <= i < |row| ==> row[i].Wild?
  }

  /** adt_i_ctor_covered. */
  ghost predicate HasWildRow(rows: seq<Row>) {
    exists r :: 0 <= r < |rows| && AllWild(rows[r])
  }

  lemma InputCtor(env: seq<Family>, rows: seq<Row>, q: Row, cs: seq<Column>, fam: nat, tag: nat)
    requires Input(env, rows, q, cs) && |cs| > 0 && HasCtor(env, fam, tag)
    requires q[0].Ctor? ==> q[0].fam == fam && q[0].tag == tag
    ensures SpecRow(fam, tag, |env[fam][tag]|, q).Some?
    ensures Input(env, SpecRows(fam, tag, |env[fam][tag]|, rows), SpecRow(fam, tag, |env[fam][tag]|, q).value, env[fam][tag] + cs[1..])
  {
    SpecRowsShaped(env, fam, tag, rows, |cs|);
    SpecRowShaped(env, fam, tag, q, |cs|);
    FieldsOk(env, fam, tag, cs);
  }

  /** adt_i_useful with a stack of the given depth; no answer when the stack is too short. */
  ghost function Run(depth: nat, env: seq<Family>, rows: seq<Row>, q: Row, cs: seq<Column>): Option<bool>
    requires Input(env, rows, q, cs)
    decreases depth, 2, 0
  {
    if depth == 0 then None
    else if HasWildRow(rows) then Some(false)
    else if |cs| == 0 then Some(true)
    else if q[0].Ctor? then
      assert Shaped(env, q[0]);
      RunCtor(depth, env, rows, q, cs, q[0].fam, q[0].tag)
    else if cs[0].None? then
      DropShaped(env, rows, q, |cs|);
      assert ColumnsOk(env, cs[1..]) by { forall i | 0 <= i < |cs| - 1 ensures ColumnOk(env, cs[1..][i]) { var j := i + 1; assert ColumnOk(env, cs[j]); } }
      Run(depth - 1, env, DropRows(rows), q[1..], cs[1..])
    else
      assert ColumnOk(env, cs[0]);
      RunFrom(depth, env, rows, q, cs, cs[0].value, 0)
  }

  /** adt_i_useful_ctor. */
  ghost function RunCtor(depth: nat, env: seq<Family>, rows: seq<Row>, q: Row, cs: seq<Column>, fam: nat, tag: nat): Option<bool>
    requires depth > 0 && Input(env, rows, q, cs) && |cs| > 0 && HasCtor(env, fam, tag)
    requires q[0].Ctor? ==> q[0].fam == fam && q[0].tag == tag
    decreases depth, 0, 0
  {
    InputCtor(env, rows, q, cs, fam, tag);
    var n := |env[fam][tag]|;
    Run(depth - 1, env, SpecRows(fam, tag, n, rows), SpecRow(fam, tag, n, q).value, env[fam][tag] + cs[1..])
  }

  /** adt_i_useful_enumerate: the constructors from tag on, in order, until one is useful. */
  ghost function RunFrom(depth: nat, env: seq<Family>, rows: seq<Row>, q: Row, cs: seq<Column>, fam: nat, tag: nat): Option<bool>
    requires depth > 0 && Input(env, rows, q, cs) && |cs| > 0 && q[0].Wild? && fam < |env| && tag <= |env[fam]|
    decreases depth, 1, |env[fam]| - tag
  {
    if tag == |env[fam]| then Some(false)
    else
      var r := RunCtor(depth, env, rows, q, cs, fam, tag);
      if r == Some(false) then RunFrom(depth, env, rows, q, cs, fam, tag + 1) else r
  }

  // ---- the recursion commutes with erasure ----

  /** Values of the query in the first column can be built by the constructor. */
  ghost predicate Opens(q: Row, cs: seq<Column>, fam: nat, tag: nat) {
    |q| == |cs| > 0 && if q[0].Ctor? then q[0].fam == fam && q[0].tag == tag else cs[0] == Some(fam)
  }

  lemma EraseSpecRow(env: seq<Family>, row: Row, q: Row, cs: seq<Column>, fam: nat, tag: nat)
    requires ShapedRow(env, row, |cs|) && ShapedRow(env, q, |cs|) && HasCtor(env, fam, tag) && Opens(q, cs, fam, tag)
    ensures var n := |env[fam][tag]|;
            var s, e, q' := SpecRow(fam, tag, n, row), SpecRow(fam, tag, n, EraseRow(env, row, q, cs)), SpecRow(fam, tag, n, q);
            && q'.Some? && |q'.value| == n + |cs| - 1 && (s.Some? <==> e.Some?)
            && (s.Some? ==> ShapedRow(env, s.value, n + |cs| - 1) && e.value == EraseRow(env, s.value, q'.value, env[fam][tag] + cs[1..]))
  {
    var n := |env[fam][tag]|;
    SpecRowShaped(env, fam, tag, row, |cs|);
    SpecRowShaped(env, fam, tag, q, |cs|);
    assert Shaped(env, row[0]) && Shaped(env, q[0]);
    var s, e, q', cs' := SpecRow(fam, tag, n, row), SpecRow(fam, tag, n, EraseRow(env, row, q, cs)), SpecRow(fam, tag, n, q).value, env[fam][tag] + cs[1..];
    if s.Some? {
      var want := EraseRow(env, s.value, q', cs');
      forall i | 0 <= i < |want| ensures e.value[i] == want[i] {
        if i < n { assert q'[i] == Beside(q[0], i); } else { var j := i - n + 1; assert s.value[i] == row[j] && q'[i] == q[j] && cs'[i] == cs[j]; }
      }
    }
  }

  lemma {:induction false} EraseSpecRows(env: seq<Family>, rows: seq<Row>, q: Row, cs: seq<Column>, fam: nat, tag: nat)
    requires ShapedRows(env, rows, |cs|) && ShapedRow(env, q, |cs|) && HasCtor(env, fam, tag) && Opens(q, cs, fam, tag)
    ensures var n := |env[fam][tag]|; var q' := SpecRow(fam, tag, n, q);
            && q'.Some? && |q'.value| == n + |cs| - 1
            && ShapedRows(env, EraseRows(env, rows, q, cs), |cs|) && ShapedRows(env, SpecRows(fam, tag, n, rows), n + |cs| - 1)
            && SpecRows(fam, tag, n, EraseRows(env, rows, q, cs)) == EraseRows(env, SpecRows(fam, tag, n, rows), q'.value, env[fam][tag] + cs[1..])
  {
    var n := |env[fam][tag]|;
    EraseRowsShaped(env, rows, q, cs);
    SpecRowsShaped(env, fam, tag, rows, |cs|);
    SpecRowShaped(env, fam, tag, q, |cs|);
    if rows != [] {
      var m := |rows| - 1;
      EraseSpecRows(env, rows[..m], q, cs, fam, tag);
      assert ShapedRow(env, rows[m], |cs|);
      EraseSpecRow(env, rows[m], q, cs, fam, tag);
      assert EraseRows(env, rows, q, cs)[..m] == EraseRows(env, rows[..m], q, cs);
    }
  }

  lemma EraseDropRows(env: seq<Family>, rows: seq<Row>, q: Row, cs: seq<Column>)
    requires ShapedRows(env, rows, |cs|) && ShapedRow(env, q, |cs|) && |cs| > 0
    ensures ShapedRows(env, EraseRows(env, rows, q, cs), |cs|) && ShapedRows(env, DropRows(rows), |cs| - 1)
    ensures DropRows(EraseRows(env, rows, q, cs)) == EraseRows(env, DropRows(rows), q[1..], cs[1..])
  {
    EraseRowsShaped(env, rows, q, cs);
    DropShaped(env, rows, q, |cs|);
    var e, f := DropRows(EraseRows(env, rows, q, cs)), EraseRows(env, DropRows(rows), q[1..], cs[1..]);
    forall r | 0 <= r < |rows| ensures e[r] == f[r] {
      assert ShapedRow(env, rows[r], |cs|);
      forall i | 0 <= i < |cs| - 1 ensures e[r][i] == f[r][i] { var j := i + 1; assert e[r][i] == Erase(env, rows[r][j], q[j], cs[j]); }
    }
  }

  // ---- what usefulness reduces to ----

  lemma ForConcat(env: seq<Family>, a: seq<Value>, b: seq<Value>, qa: Row, qb: Row, ca: seq<Column>, cb: seq<Column>)
    requires |a| == |qa| == |ca|
    ensures ValuesFor(env, a + b, qa + qb, ca + cb) <==> ValuesFor(env, a, qa, ca) && ValuesFor(env, b, qb, cb)
  {
    var vs, q, cs := a + b, qa + qb, ca + cb;
    if ValuesFor(env, vs, q, cs) {
      forall i | 0 <= i < |a| ensures ValueFor(env, a[i], qa[i], ca[i]) { assert ValueFor(env, vs[i], q[i], cs[i]); }
      forall i | 0 <= i < |b| ensures ValueFor(env, b[i], qb[i], cb[i]) { var j := |a| + i; assert ValueFor(env, vs[j], q[j], cs[j]); }
    }
  }

  lemma ConFor(env: seq<Family>, fam: nat, tag: nat, args: seq<Value>, q: Pattern, c: Column)
    requires HasCtor(env, fam, tag) && |args| == |env[fam][tag]| && Shaped(env, q) && Opens([q], [c], fam, tag)
    ensures ValueFor(env, Con(fam, tag, args), q, c) <==> ValuesFor(env, args, if q.Ctor? then q.args else Wilds(|args|), env[fam][tag])
  {
    var fields, qs := env[fam][tag], if q.Ctor? then q.args else Wilds(|args|);
    if q.Wild? {
      forall i | 0 <= i < |args| ensures ValueFor(env, args[i], qs[i], fields[i]) <==> ValueOf(env, args[i], fields[i]) {}
    }
  }

  /** A vector headed by a constructor value is a witness exactly when its flattening is one. */
  lemma WitnessUnder(env: seq<Family>, rows: seq<Row>, q: Row, cs: seq<Column>, fam: nat, tag: nat, args: seq<Value>, rest: seq<Value>)
    requires ShapedRows(env, rows, |cs|) && ShapedRow(env, q, |cs|) && HasCtor(env, fam, tag) && Opens(q, cs, fam, tag)
    requires |args| == |env[fam][tag]|
    ensures WitnessFor(env, rows, q, cs, [Con(fam, tag, args)] + rest) <==>
            (var s := SpecRow(fam, tag, |args|, q);
             s.Some? && WitnessFor(env, SpecRows(fam, tag, |args|, rows), s.value, env[fam][tag] + cs[1..], args + rest))
  {
    assert Shaped(env, q[0]);
    SpecRowsMatch(env, fam, tag, rows, |cs|, args, rest);
    var v, qs := Con(fam, tag, args), if q[0].Ctor? then q[0].args else Wilds(|args|);
    assert q == [q[0]] + q[1..] && cs == [cs[0]] + cs[1..];
    ForConcat(env, [v], rest, [q[0]], q[1..], [cs[0]], cs[1..]);
    assert ValuesFor(env, [v], [q[0]], [cs[0]]) <==> ValueFor(env, v, q[0], cs[0]);
    ConFor(env, fam, tag, args, q[0], cs[0]);
    ForConcat(env, args, rest, qs, q[1..], env[fam][tag], cs[1..]);
  }

  /** The query is useful on values built by the given constructor. */
  ghost predicate UsefulUnder(env: seq<Family>, rows: seq<Row>, q: Row, cs: seq<Column>, fam: nat, tag: nat) {
    && ShapedRows(env, rows, |cs|) && ShapedRow(env, q, |cs|) && HasCtor(env, fam, tag) && Opens(q, cs, fam, tag)
    && SpecRow(fam, tag, |env[fam][tag]|, q).Some?
    && UsefulFor(env, SpecRows(fam, tag, |env[fam][tag]|, rows), SpecRow(fam, tag, |env[fam][tag]|, q).value, env[fam][tag] + cs[1..])
  }

  lemma WitnessToUnder(env: seq<Family>, rows: seq<Row>, q: Row, cs: seq<Column>, vs: seq<Value>)
    requires ShapedRows(env, rows, |cs|) && ShapedRow(env, q, |cs|) && |cs| > 0 && (q[0].Ctor? || cs[0].Some?)
    requires WitnessFor(env, rows, q, cs, vs)
    ensures vs[0].Con? && UsefulUnder(env, rows, q, cs, vs[0].fam, vs[0].tag)
  {
    assert ValueFor(env, vs[0], q[0], cs[0]) && Shaped(env, q[0]);
    var v := vs[0];
    assert vs == [Con(v.fam, v.tag, v.args)] + vs[1..];
    WitnessUnder(env, rows, q, cs, v.fam, v.tag, v.args, vs[1..]);
  }

  lemma UnderToWitness(env: seq<Family>, rows: seq<Row>, q: Row, cs: seq<Column>, fam: nat, tag: nat)
    requires UsefulUnder(env, rows, q, cs, fam, tag)
    ensures UsefulFor(env, rows, q, cs)
  {
    var n := |env[fam][tag]|;
    var ws :| WitnessFor(env, SpecRows(fam, tag, n, rows), SpecRow(fam, tag, n, q).value, env[fam][tag] + cs[1..], ws);
    assert ws == ws[..n] + ws[n..];
    FlatWitness(env, rows, q, cs, fam, tag, ws[..n], ws[n..]);
  }

  lemma FlatWitness(env: seq<Family>, rows: seq<Row>, q: Row, cs: seq<Column>, fam: nat, tag: nat, args: seq<Value>, rest: seq<Value>)
    requires UsefulUnder(env, rows, q, cs, fam, tag) && |args| == |env[fam][tag]|
    requires WitnessFor(env, SpecRows(fam, tag, |args|, rows), SpecRow(fam, tag, |args|, q).value, env[fam][tag] + cs[1..], args + rest)
    ensures UsefulFor(env, rows, q, cs)
  {
    WitnessUnder(env, rows, q, cs, fam, tag, args, rest);
    assert WitnessFor(env, rows, q, cs, [Con(fam, tag, args)] + rest);
  }

  /** A query in a column with a family, or with a constructor, is useful exactly when it is under some constructor. */
  lemma UsefulUnderSome(env: seq<Family>, rows: seq<Row>, q: Row, cs: seq<Column>)
    requires ShapedRows(env, rows, |cs|) && ShapedRow(env, q, |cs|) && |cs| > 0 && (q[0].Ctor? || cs[0].Some?)
    ensures UsefulFor(env, rows, q, cs) <==> exists fam: nat, tag: nat :: UsefulUnder(env, rows, q, cs, fam, tag)
  {
    if vs :| WitnessFor(env, rows, q, cs, vs) { WitnessToUnder(env, rows, q, cs, vs); }
    if fam: nat, tag: nat :| UsefulUnder(env, rows, q, cs, fam, tag) { UnderToWitness(env, rows, q, cs, fam, tag); }
  }

  /** A column of wildcards without a family plays no part. */
  lemma UsefulDropped(env: seq<Family>, rows: seq<Row>, q: Row, cs: seq<Column>)
    requires |q| == |cs| > 0 && cs[0].None? && q[0].Wild? && forall r :: 0 <= r < |rows| ==> |rows[r]| > 0 && rows[r][0].Wild?
    ensures UsefulFor(env, rows, q, cs) <==> UsefulFor(env, DropRows(rows), q[1..], cs[1..])
  {
    if vs :| WitnessFor(env, rows, q, cs, vs) {
      assert vs == [vs[0]] + vs[1..] && ValueFor(env, vs[0], q[0], cs[0]);
      WitnessDropped(env, rows, q, cs, vs[0], vs[1..]);
    }
    if ws :| WitnessFor(env, DropRows(rows), q[1..], cs[1..], ws) { WitnessDropped(env, rows, q, cs, Opaque(0), ws); }
  }

  lemma WitnessDropped(env: seq<Family>, rows: seq<Row>, q: Row, cs: seq<Column>, v: Value, rest: seq<Value>)
    requires |q| == |cs| > 0 && cs[0].None? && q[0].Wild? && ValueFor(env, v, q[0], cs[0])
    requires forall r :: 0 <= r < |rows| ==> |rows[r]| > 0 && rows[r][0].Wild?
    ensures WitnessFor(env, rows, q, cs, [v] + rest) <==> WitnessFor(env, DropRows(rows), q[1..], cs[1..], rest)
  {
    assert q == [q[0]] + q[1..] && cs == [cs[0]] + cs[1..];
    ForConcat(env, [v], rest, [q[0]], q[1..], [cs[0]], cs[1..]);
    assert ValuesFor(env, [v], [q[0]], [cs[0]]);
    DropRowsMatch(rows, v, rest);
  }

  /** A row of wildcards matches everything. */
  lemma WildRowCovers(env: seq<Family>, rows: seq<Row>, q: Row, cs: seq<Column>)
    requires ShapedRows(env, rows, |cs|) && HasWildRow(rows)
    ensures !UsefulFor(env, rows, q, cs)
  {
    var r :| 0 <= r < |rows| && AllWild(rows[r]);
    forall vs | ValuesFor(env, vs, q, cs) ensures RowMatches(rows[r], vs) { assert ShapedRow(env, rows[r], |cs|); }
  }

  lemma EraseWildRow(env: seq<Family>, rows: seq<Row>, q: Row, cs: seq<Column>)
    requires ShapedRows(env, rows, |cs|) && |q| == |cs| && HasWildRow(rows)
    ensures HasWildRow(EraseRows(env, rows, q, cs))
  {
    var r :| 0 <= r < |rows| && AllWild(rows[r]);
    assert ShapedRow(env, rows[r], |cs|);
    assert AllWild(EraseRows(env, rows, q, cs)[r]);
  }

  lemma NoColumns(env: seq<Family>, rows: seq<Row>)
    requires ShapedRows(env, rows, 0)
    ensures rows == [] || HasWildRow(rows)
  {
    if rows != [] { assert ShapedRow(env, rows[0], 0) && AllWild(rows[0]); }
  }

  /** With no columns left, no row means that the empty vector is unmatched. */
  lemma NothingLeft(env: seq<Family>, rows: seq<Row>, q: Row, cs: seq<Column>)
    requires ShapedRows(env, rows, |cs|) && |q| == |cs| == 0 && !HasWildRow(rows)
    ensures rows == [] && UsefulFor(env, EraseRows(env, rows, q, cs), q, cs)
  {
    NoColumns(env, rows);
    assert WitnessFor(env, EraseRows(env, rows, q, cs), q, cs, []);
  }

  // ---- what the recursion answers ----

  /** The question the recursion answers: usefulness against the rows as it reads them. */
  ghost predicate Asked(env: seq<Family>, rows: seq<Row>, q: Row, cs: seq<Column>)
    requires Input(env, rows, q, cs)
  {
    UsefulFor(env, EraseRows(env, rows, q, cs), q, cs)
  }

  ghost predicate AskedUnder(env: seq<Family>, rows: seq<Row>, q: Row, cs: seq<Column>, fam: nat, tag: nat)
    requires Input(env, rows, q, cs)
  {
    UsefulUnder(env, EraseRows(env, rows, q, cs), q, cs, fam, tag)
  }

  /** On every matrix it can read, whatever the families, an answer is the answer to that question. */
  lemma {:induction false} ExactErased(depth: nat, env: seq<Family>, rows: seq<Row>, q: Row, cs: seq<Column>)
    requires Input(env, rows, q, cs)
    ensures Run(depth, env, rows, q, cs).Some? ==> (Run(depth, env, rows, q, cs).value <==> Asked(env, rows, q, cs))
    decreases depth, 2, 0
  {
    EraseRowsShaped(env, rows, q, cs);
    if depth == 0 {
    } else if HasWildRow(rows) {
      EraseWildRow(env, rows, q, cs);
      WildRowCovers(env, EraseRows(env, rows, q, cs), q, cs);
    } else if |cs| == 0 {
      NothingLeft(env, rows, q, cs);
    } else if q[0].Ctor? {
      assert Shaped(env, q[0]);
      UsefulUnderSome(env, EraseRows(env, rows, q, cs), q, cs);
      ExactCtor(depth, env, rows, q, cs, q[0].fam, q[0].tag);
    } else if cs[0].None? {
      ExactDrop(depth, env, rows, q, cs);
    } else {
      assert ColumnOk(env, cs[0]);
      var e := EraseRows(env, rows, q, cs);
      UsefulUnderSome(env, e, q, cs);
      if fam: nat, tag: nat :| UsefulUnder(env, e, q, cs, fam, tag) { assert AskedUnder(env, rows, q, cs, cs[0].value, tag); }
      ExactFrom(depth, env, rows, q, cs, cs[0].value, 0);
    }
  }

  lemma InputDrop(env: seq<Family>, rows: seq<Row>, q: Row, cs: seq<Column>)
    requires Input(env, rows, q, cs) && |cs| > 0
    ensures forall r :: 0 <= r < |rows| ==> |rows[r]| > 0
    ensures Input(env, DropRows(rows), q[1..], cs[1..])
  {
    forall r | 0 <= r < |rows| ensures |rows[r]| > 0 { assert ShapedRow(env, rows[r], |cs|); }
    DropShaped(env, rows, q, |cs|);
    forall i | 0 <= i < |cs| - 1 ensures ColumnOk(env, cs[1..][i]) { var j := i + 1; assert ColumnOk(env, cs[j]); }
  }

  lemma ErasedHeads(env: seq<Family>, rows: seq<Row>, q: Row, cs: seq<Column>)
    requires ShapedRows(env, rows, |cs|) && |q| == |cs| > 0 && q[0].Wild? && cs[0].None?
    ensures forall r :: 0 <= r < |rows| ==> |EraseRows(env, rows, q, cs)[r]| > 0 && EraseRows(env, rows, q, cs)[r][0].Wild?
  {
    forall r | 0 <= r < |rows| ensures |EraseRows(env, rows, q, cs)[r]| > 0 && EraseRows(env, rows, q, cs)[r][0].Wild? {
      assert ShapedRow(env, rows[r], |cs|);
    }
  }

  lemma {:induction false} ExactDrop(depth: nat, env: seq<Family>, rows: seq<Row>, q: Row, cs: seq<Column>)
    requires depth > 0 && Input(env, rows, q, cs) && |cs| > 0 && q[0].Wild? && cs[0].None? && !HasWildRow(rows)
    ensures Run(depth, env, rows, q, cs).Some? ==> (Run(depth, env, rows, q, cs).value <==> Asked(env, rows, q, cs))
    decreases depth, 1, 0
  {
    InputDrop(env, rows, q, cs);
    ErasedHeads(env, rows, q, cs);
    UsefulDropped(env, EraseRows(env, rows, q, cs), q, cs);
    EraseDropRows(env, rows, q, cs);
    ExactErased(depth - 1, env, DropRows(rows), q[1..], cs[1..]);
  }

  lemma {:induction false} ExactCtor(depth: nat, env: seq<Family>, rows: seq<Row>, q: Row, cs: seq<Column>, fam: nat, tag: nat)
    requires depth > 0 && Input(env, rows, q, cs) && HasCtor(env, fam, tag) && Opens(q, cs, fam, tag)
    ensures RunCtor(depth, env, rows, q, cs, fam, tag).Some? ==>
              (RunCtor(depth, env, rows, q, cs, fam, tag).value <==> AskedUnder(env, rows, q, cs, fam, tag))
    decreases depth, 0, 0
  {
    InputCtor(env, rows, q, cs, fam, tag);
    EraseSpecRows(env, rows, q, cs, fam, tag);
    var n := |env[fam][tag]|;
    ExactErased(depth - 1, env, SpecRows(fam, tag, n, rows), SpecRow(fam, tag, n, q).value, env[fam][tag] + cs[1..]);
  }

  lemma {:induction false} ExactFrom(depth: nat, env: seq<Family>, rows: seq<Row>, q: Row, cs: seq<Column>, fam: nat, tag: nat)
    requires depth > 0 && Input(env, rows, q, cs) && |cs| > 0 && cs[0] == Some(fam) && q[0].Wild? && fam < |env| && tag <= |env[fam]|
    ensures RunFrom(depth, env, rows, q, cs, fam, tag).Some? ==>
              (RunFrom(depth, env, rows, q, cs, fam, tag).value <==> exists t: nat :: tag <= t && AskedUnder(env, rows, q, cs, fam, t))
    decreases depth, 1, |env[fam]| - tag
  {
    if tag < |env[fam]| {
      ExactCtor(depth, env, rows, q, cs, fam, tag);
      ExactFrom(depth, env, rows, q, cs, fam, tag + 1);
    }
  }

  // ---- when the answer is right ----

  /** Where nothing is erased the answer is right. */
  lemma ExactUnlessErased(depth: nat, env: seq<Family>, rows: seq<Row>, q: Row, cs: seq<Column>)
    requires Input(env, rows, q, cs) && NoneErased(env, rows, q, cs)
    ensures Run(depth, env, rows, q, cs).Some? ==> (Run(depth, env, rows, q, cs).value <==> UsefulFor(env, rows, q, cs))
  {
    ExactErased(depth, env, rows, q, cs);
    EraseRowsNothing(env, rows, q, cs);
  }

  /** The answer 1 is always right. */
  lemma UsefulIsRight(depth: nat, env: seq<Family>, rows: seq<Row>, q: Row, cs: seq<Column>)
    requires Input(env, rows, q, cs) && Run(depth, env, rows, q, cs) == Some(true)
    ensures UsefulFor(env, rows, q, cs)
  {
    ExactErased(depth, env, rows, q, cs);
    UsefulIfErased(env, rows, q, cs);
  }

  /** In general it is right exactly when dropping the rows in which something is erased and erasing
      in them come to the same; the recursion answers both of these questions rightly. */
  lemma RightIff(depth: nat, env: seq<Family>, rows: seq<Row>, q: Row, cs: seq<Column>)
    requires Input(env, rows, q, cs) && Run(depth, env, rows, q, cs).Some?
    ensures Input(env, Kept(env, rows, q, cs), q, cs) && NoneErased(env, Kept(env, rows, q, cs), q, cs)
    ensures Input(env, EraseRows(env, rows, q, cs), q, cs) && NoneErased(env, EraseRows(env, rows, q, cs), q, cs)
    ensures (Run(depth, env, rows, q, cs).value <==> UsefulFor(env, rows, q, cs)) <==>
            (UsefulFor(env, Kept(env, rows, q, cs), q, cs) <==> UsefulFor(env, EraseRows(env, rows, q, cs), q, cs))
  {
    KeptRows(env, rows, q, cs);
    EraseRowsDone(env, rows, q, cs);
    ExactErased(depth, env, rows, q, cs);
    UsefulWithoutErased(env, rows, q, cs);
  }

  /** A caller can tell by asking once more without those rows. */
  lemma RightIffConfirmed(depth: nat, env: seq<Family>, rows: seq<Row>, q: Row, cs: seq<Column>)
    requires Input(env, rows, q, cs) && Run(depth, env, rows, q, cs).Some?
    requires ShapedRows(env, Kept(env, rows, q, cs), |cs|) && Run(depth, env, Kept(env, rows, q, cs), q, cs).Some?
    ensures (Run(depth, env, rows, q, cs).value <==> UsefulFor(env, rows, q, cs)) <==>
            Run(depth, env, rows, q, cs) == Run(depth, env, Kept(env, rows, q, cs), q, cs)
  {
    RightIff(depth, env, rows, q, cs);
    ExactErased(depth, env, rows, q, cs);
    ExactUnlessErased(depth, env, Kept(env, rows, q, cs), q, cs);
  }

  // ---- well-typed matrices ----

  ghost predicate Typed(env: seq<Family>, rows: seq<Row>, q: Row, cs: seq<Column>) {
    FamiliesOk(env) && ColumnsOk(env, cs) && RowsOf(env, rows, cs) && RowOf(env, q, cs)
  }

  lemma {:induction false} TypedIsLoose(env: seq<Family>, p: Pattern, c: Column)
    requires PatternOf(env, p, c)
    ensures LooseOf(env, p, c)
    decreases p
  {
    if p.Ctor? {
      forall i | 0 <= i < |p.args| ensures LooseOf(env, p.args[i], env[p.fam][p.tag][i]) { TypedIsLoose(env, p.args[i], env[p.fam][p.tag][i]); }
    }
  }

  lemma TypedInput(env: seq<Family>, rows: seq<Row>, q: Row, cs: seq<Column>)
    requires Typed(env, rows, q, cs)
    ensures Input(env, rows, q, cs) && NoneErased(env, rows, q, cs) && LooseRow(env, q, cs)
  {
    TypedRowsAreShaped(env, rows, cs);
    TypedRowIsShaped(env, q, cs);
    forall i | 0 <= i < |q| ensures LooseOf(env, q[i], cs[i]) { TypedIsLoose(env, q[i], cs[i]); }
    forall r | 0 <= r < |rows| ensures !RowErased(env, rows[r], q, cs) {
      assert RowOf(env, rows[r], cs) && ShapedRow(env, rows[r], |cs|);
      forall i | 0 <= i < |cs| ensures !Erased(env, rows[r][i], q[i], cs[i]) { TypedNotErased(env, rows[r][i], q[i], cs[i]); }
    }
  }

  /** On well-typed matrices 1 means that some value vector matches the query and no row. */
  lemma Exact(depth: nat, env: seq<Family>, rows: seq<Row>, q: Row, cs: seq<Column>)
    requires Typed(env, rows, q, cs)
    ensures Input(env, rows, q, cs)
    ensures Run(depth, env, rows, q, cs).Some? ==> (Run(depth, env, rows, q, cs).value <==> IsUseful(env, rows, q, cs))
  {
    TypedInput(env, rows, q, cs);
    ExactUnlessErased(depth, env, rows, q, cs);
    UsefulForMeans(env, rows, q, cs);
  }
}
