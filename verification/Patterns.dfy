/** Algebraic datatype families, their values and patterns, and what a pattern vector
    matches (libadt89). */
module Patterns {
  import opened Common

  /** A family lists its constructors; a constructor lists the family of each field.
      A field whose declared type is no family (a type parameter, say) has none. */
  type Column = Option<nat>
  type Family = seq<seq<Column>>

  datatype Pattern = Wild | Ctor(fam: nat, tag: nat, args: seq<Pattern>)
  datatype Value = Opaque(id: nat) | Con(fam: nat, tag: nat, args: seq<Value>)

  type Row = seq<Pattern>

  ghost predicate ColumnOk(env: seq<Family>, c: Column) {
    c.Some? ==> c.value < |env|
  }

  ghost predicate ColumnsOk(env: seq<Family>, cs: seq<Column>) {
    forall i :: 0 <= i < |cs| ==> ColumnOk(env, cs[i])
  }

  /** Fields refer to declared families. */
  ghost predicate FamiliesOk(env: seq<Family>) {
    forall f, c :: 0 <= f < |env| && 0 <= c < |env[f]| ==> ColumnsOk(env, env[f][c])
  }

  ghost predicate HasCtor(env: seq<Family>, fam: nat, tag: nat) {
    fam < |env| && tag < |env[fam]|
  }

  /** v is a value of the column: built by constructors of declared families from values of their
      fields, or opaque; a column without a family takes any value. */
  ghost predicate ValueOf(env: seq<Family>, v: Value, c: Column)
    decreases v
  {
    && (c.Some? ==> v.Con? && v.fam == c.value)
    && (v.Con? ==>
          && HasCtor(env, v.fam, v.tag) && |v.args| == |env[v.fam][v.tag]|
          && forall i :: 0 <= i < |v.args| ==> ValueOf(env, v.args[i], env[v.fam][v.tag][i]))
  }

  /** A well-typed pattern of the column: a column without a family holds only wildcards. */
  ghost predicate PatternOf(env: seq<Family>, p: Pattern, c: Column)
    decreases p
  {
    p.Ctor? ==>
      && c == Some(p.fam) && HasCtor(env, p.fam, p.tag)
      && |p.args| == |env[p.fam][p.tag]|
      && forall i :: 0 <= i < |p.args| ==> PatternOf(env, p.args[i], env[p.fam][p.tag][i])
  }

  ghost predicate Matches(p: Pattern, v: Value)
    decreases p
  {
    p.Ctor? ==>
      && v.Con? && v.fam == p.fam && v.tag == p.tag && |v.args| == |p.args|
      && forall i :: 0 <= i < |p.args| ==> Matches(p.args[i], v.args[i])
  }

  // ---- vectors ----

  ghost predicate ValuesOf(env: seq<Family>, vs: seq<Value>, cs: seq<Column>) {
    |vs| == |cs| && forall i :: 0 <= i < |vs| ==> ValueOf(env, vs[i], cs[i])
  }

  ghost predicate RowOf(env: seq<Family>, row: Row, cs: seq<Column>) {
    |row| == |cs| && forall i :: 0 <= i < |row| ==> PatternOf(env, row[i], cs[i])
  }

  ghost predicate RowsOf(env: seq<Family>, rows: seq<Row>, cs: seq<Column>) {
    forall r :: 0 <= r < |rows| ==> RowOf(env, rows[r], cs)
  }

  ghost predicate RowMatches(row: Row, vs: seq<Value>) {
    |row| == |vs| && forall i :: 0 <= i < |row| ==> Matches(row[i], vs[i])
  }

  ghost predicate SomeRowMatches(rows: seq<Row>, vs: seq<Value>) {
    exists r :: 0 <= r < |rows| && RowMatches(rows[r], vs)
  }

  /** vs matches the query and none of the rows. */
  ghost predicate Witness(env: seq<Family>, rows: seq<Row>, q: Row, cs: seq<Column>, vs: seq<Value>) {
    ValuesOf(env, vs, cs) && RowMatches(q, vs) && !SomeRowMatches(rows, vs)
  }

  /** The query matches something that the rows do not. */
  ghost predicate IsUseful(env: seq<Family>, rows: seq<Row>, q: Row, cs: seq<Column>) {
    exists vs :: Witness(env, rows, q, cs, vs)
  }

  lemma MatchesConcat(a: Row, b: Row, va: seq<Value>, vb: seq<Value>)
    requires |a| == |va|
    ensures RowMatches(a + b, va + vb) <==> RowMatches(a, va) && RowMatches(b, vb)
  {
    var row, vs := a + b, va + vb;
    if RowMatches(row, vs) {
      forall i | 0 <= i < |a| ensures Matches(a[i], va[i]) { assert Matches(row[i], vs[i]); }
      forall i | 0 <= i < |b| ensures Matches(b[i], vb[i]) { var j := |a| + i; assert Matches(row[j], vs[j]); }
    }
  }

  // ---- shape: what the recursion needs to read its rows safely ----

  /** Constructor patterns name a constructor and have one argument per field. */
  ghost predicate Shaped(env: seq<Family>, p: Pattern)
    decreases p
  {
    p.Ctor? ==>
      && HasCtor(env, p.fam, p.tag) && |p.args| == |env[p.fam][p.tag]|
      && forall i :: 0 <= i < |p.args| ==> Shaped(env, p.args[i])
  }

  ghost predicate ShapedRow(env: seq<Family>, row: Row, n: nat) {
    |row| == n && forall i :: 0 <= i < n ==> Shaped(env, row[i])
  }

  ghost predicate ShapedRows(env: seq<Family>, rows: seq<Row>, n: nat) {
    forall r :: 0 <= r < |rows| ==> ShapedRow(env, rows[r], n)
  }

  lemma {:induction false} TypedIsShaped(env: seq<Family>, p: Pattern, c: Column)
    requires PatternOf(env, p, c)
    ensures Shaped(env, p)
    decreases p
  {
    if p.Ctor? {
      forall i | 0 <= i < |p.args| ensures Shaped(env, p.args[i]) { TypedIsShaped(env, p.args[i], env[p.fam][p.tag][i]); }
    }
  }

  lemma TypedRowIsShaped(env: seq<Family>, row: Row, cs: seq<Column>)
    requires RowOf(env, row, cs)
    ensures ShapedRow(env, row, |cs|)
  {
    forall i | 0 <= i < |row| ensures Shaped(env, row[i]) { TypedIsShaped(env, row[i], cs[i]); }
  }

  lemma TypedRowsAreShaped(env: seq<Family>, rows: seq<Row>, cs: seq<Column>)
    requires RowsOf(env, rows, cs)
    ensures ShapedRows(env, rows, |cs|)
  {
    forall r | 0 <= r < |rows| ensures ShapedRow(env, rows[r], |cs|) { TypedRowIsShaped(env, rows[r], cs); }
  }

  // ---- specialization ----

  function Wilds(n: nat): (r: Row)
    ensures |r| == n && forall i :: 0 <= i < n ==> r[i] == Wild
  {
    seq(n, i => Wild)
  }

  /** adt_i_spec_row: the row under constructor (fam, tag) with n fields, if it can match at all. */
  function SpecRow(fam: nat, tag: nat, n: nat, row: Row): Option<Row>
    requires |row| > 0
  {
    match row[0]
    case Wild => Some(Wilds(n) + row[1..])
    case Ctor(f, t, args) => if f == fam && t == tag then Some(args + row[1..]) else None
  }

  /** adt_i_specialize: the rows that can match, specialized, in order. */
  function SpecRows(fam: nat, tag: nat, n: nat, rows: seq<Row>): seq<Row>
    requires forall r :: 0 <= r < |rows| ==> |rows[r]| > 0
  {
    if rows == [] then []
    else
      var init := SpecRows(fam, tag, n, rows[..|rows| - 1]);
      var s := SpecRow(fam, tag, n, rows[|rows| - 1]);
      if s.Some? then init + [s.value] else init
  }

  /** A row matches a constructor value exactly when its specialization matches the fields. */
  lemma SpecRowMatches(fam: nat, tag: nat, row: Row, args: seq<Value>, rest: seq<Value>)
    requires |row| > 0
    ensures RowMatches(row, [Con(fam, tag, args)] + rest) <==>
            (var s := SpecRow(fam, tag, |args|, row); s.Some? && (row[0].Wild? || |row[0].args| == |args|) && RowMatches(s.value, args + rest))
  {
    var vs := [Con(fam, tag, args)] + rest;
    assert row == [row[0]] + row[1..];
    MatchesConcat([row[0]], row[1..], [vs[0]], rest);
    assert RowMatches([row[0]], [vs[0]]) <==> Matches(row[0], vs[0]);
    if row[0].Wild? {
      MatchesConcat(Wilds(|args|), row[1..], args, rest);
    } else if |row[0].args| == |args| {
      MatchesConcat(row[0].args, row[1..], args, rest);
    }
  }

  lemma SpecRowShaped(env: seq<Family>, fam: nat, tag: nat, row: Row, n: nat)
    requires HasCtor(env, fam, tag) && n > 0 && ShapedRow(env, row, n)
    ensures var s := SpecRow(fam, tag, |env[fam][tag]|, row); s.Some? ==> ShapedRow(env, s.value, |env[fam][tag]| + n - 1)
  {
    assert Shaped(env, row[0]);
    var rest := row[1..];
    forall i | 0 <= i < n - 1 ensures Shaped(env, rest[i]) { var j := i + 1; assert Shaped(env, row[j]); }
  }

  lemma {:induction false} SpecRowsShaped(env: seq<Family>, fam: nat, tag: nat, rows: seq<Row>, n: nat)
    requires HasCtor(env, fam, tag) && n > 0 && ShapedRows(env, rows, n)
    ensures ShapedRows(env, SpecRows(fam, tag, |env[fam][tag]|, rows), |env[fam][tag]| + n - 1)
  {
    if rows != [] {
      SpecRowsShaped(env, fam, tag, rows[..|rows| - 1], n);
      SpecRowShaped(env, fam, tag, rows[|rows| - 1], n);
    }
  }

  /** Some row matches a constructor value exactly when some specialized row matches its fields. */
  lemma {:induction false} SpecRowsMatch(env: seq<Family>, fam: nat, tag: nat, rows: seq<Row>, n: nat, args: seq<Value>, rest: seq<Value>)
    requires HasCtor(env, fam, tag) && n > 0 && ShapedRows(env, rows, n) && |args| == |env[fam][tag]|
    ensures SomeRowMatches(rows, [Con(fam, tag, args)] + rest) <==> SomeRowMatches(SpecRows(fam, tag, |args|, rows), args + rest)
  {
    if rows != [] {
      var m := |rows| - 1;
      var vs, ws := [Con(fam, tag, args)] + rest, args + rest;
      var init, last := rows[..m], rows[m];
      SpecRowsMatch(env, fam, tag, init, n, args, rest);
      assert ShapedRow(env, last, n) && Shaped(env, last[0]);
      SpecRowMatches(fam, tag, last, args, rest);
      var s := SpecRow(fam, tag, |args|, last);
      assert rows == init + [last];
      SnocMatches(init, last, vs);
      if s.Some? { SnocMatches(SpecRows(fam, tag, |args|, init), s.value, ws); }
    }
  }

  lemma SnocMatches(rows: seq<Row>, row: Row, vs: seq<Value>)
    ensures SomeRowMatches(rows + [row], vs) <==> SomeRowMatches(rows, vs) || RowMatches(row, vs)
  {
    var all := rows + [row];
    if SomeRowMatches(rows, vs) { var r :| 0 <= r < |rows| && RowMatches(rows[r], vs); assert RowMatches(all[r], vs); }
    if RowMatches(row, vs) { assert RowMatches(all[|rows|], vs); }
  }

  /** Dropping the first column of every row. */
  function DropRows(rows: seq<Row>): (d: seq<Row>)
    requires forall r :: 0 <= r < |rows| ==> |rows[r]| > 0
    ensures |d| == |rows| && forall r :: 0 <= r < |rows| ==> d[r] == rows[r][1..]
  {
    seq(|rows|, r requires 0 <= r < |rows| => rows[r][1..])
  }

  lemma DropShaped(env: seq<Family>, rows: seq<Row>, q: Row, n: nat)
    requires n > 0 && ShapedRows(env, rows, n) && ShapedRow(env, q, n)
    ensures ShapedRows(env, DropRows(rows), n - 1) && ShapedRow(env, q[1..], n - 1)
  {
    forall r | 0 <= r < |rows| ensures ShapedRow(env, DropRows(rows)[r], n - 1) {
      assert ShapedRow(env, rows[r], n);
      forall i | 0 <= i < n - 1 ensures Shaped(env, rows[r][1..][i]) { var j := i + 1; assert Shaped(env, rows[r][j]); }
    }
    forall i | 0 <= i < n - 1 ensures Shaped(env, q[1..][i]) { var j := i + 1; assert Shaped(env, q[j]); }
  }

  lemma DropRowMatches(row: Row, v: Value, rest: seq<Value>)
    requires |row| > 0 && row[0].Wild?
    ensures RowMatches(row, [v] + rest) <==> RowMatches(row[1..], rest)
  {
    assert row == [row[0]] + row[1..];
    MatchesConcat([row[0]], row[1..], [v], rest);
  }

  /** Under a column of wildcards the head value does not matter. */
  lemma DropRowsMatch(rows: seq<Row>, v: Value, rest: seq<Value>)
    requires forall r :: 0 <= r < |rows| ==> |rows[r]| > 0 && rows[r][0].Wild?
    ensures SomeRowMatches(rows, [v] + rest) <==> SomeRowMatches(DropRows(rows), rest)
  {
    forall r | 0 <= r < |rows| ensures RowMatches(rows[r], [v] + rest) <==> RowMatches(DropRows(rows)[r], rest) {
      DropRowMatches(rows[r], v, rest);
    }
  }
}
