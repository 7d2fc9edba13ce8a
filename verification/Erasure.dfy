/** What the recursion of adt_match.c makes of constructor patterns in columns that have no family
    (fields of a type-parameter type): under a wildcard query it reads them as wildcards. */
module Erasure {
  import opened Common
  import opened Patterns

  // ---- the values a query ranges over ----

  /** v is a value of the column that the query matches; a constructor of the query fixes its own fields' columns. */
  ghost predicate ValueFor(env: seq<Family>, v: Value, q: Pattern, c: Column)
    decreases q
  {
    if q.Wild? then ValueOf(env, v, c)
    else
      && v.Con? && v.fam == q.fam && v.tag == q.tag && HasCtor(env, q.fam, q.tag)
      && |v.args| == |q.args| == |env[q.fam][q.tag]|
      && forall i :: 0 <= i < |q.args| ==> ValueFor(env, v.args[i], q.args[i], env[q.fam][q.tag][i])
  }

  ghost predicate ValuesFor(env: seq<Family>, vs: seq<Value>, q: Row, cs: seq<Column>) {
    |vs| == |q| == |cs| && forall i :: 0 <= i < |q| ==> ValueFor(env, vs[i], q[i], cs[i])
  }

  ghost predicate WitnessFor(env: seq<Family>, rows: seq<Row>, q: Row, cs: seq<Column>, vs: seq<Value>) {
    ValuesFor(env, vs, q, cs) && !SomeRowMatches(rows, vs)
  }

  /** The query matches something that the rows do not. */
  ghost predicate UsefulFor(env: seq<Family>, rows: seq<Row>, q: Row, cs: seq<Column>) {
    exists vs :: WitnessFor(env, rows, q, cs, vs)
  }

  /** Well typed except that a column without a family may hold constructor patterns of any family. */
  ghost predicate LooseOf(env: seq<Family>, p: Pattern, c: Column)
    decreases p
  {
    p.Ctor? ==>
      && (c.None? || c == Some(p.fam)) && HasCtor(env, p.fam, p.tag) && |p.args| == |env[p.fam][p.tag]|
      && forall i :: 0 <= i < |p.args| ==> LooseOf(env, p.args[i], env[p.fam][p.tag][i])
  }

  ghost predicate LooseRow(env: seq<Family>, row: Row, cs: seq<Column>) {
    |row| == |cs| && forall i :: 0 <= i < |row| ==> LooseOf(env, row[i], cs[i])
  }

  lemma {:induction false} ForIsMatching(env: seq<Family>, v: Value, q: Pattern, c: Column)
    requires LooseOf(env, q, c)
    ensures ValueFor(env, v, q, c) <==> ValueOf(env, v, c) && Matches(q, v)
    decreases q
  {
    if q.Ctor? && v.Con? && v.fam == q.fam && v.tag == q.tag && |v.args| == |q.args| {
      forall i | 0 <= i < |q.args|
        ensures ValueFor(env, v.args[i], q.args[i], env[q.fam][q.tag][i]) <==>
                ValueOf(env, v.args[i], env[q.fam][q.tag][i]) && Matches(q.args[i], v.args[i])
      {
        ForIsMatching(env, v.args[i], q.args[i], env[q.fam][q.tag][i]);
      }
    }
  }

  lemma ForAreMatching(env: seq<Family>, vs: seq<Value>, q: Row, cs: seq<Column>)
    requires LooseRow(env, q, cs)
    ensures ValuesFor(env, vs, q, cs) <==> ValuesOf(env, vs, cs) && RowMatches(q, vs)
  {
    if |vs| == |q| {
      forall i | 0 <= i < |q| ensures ValueFor(env, vs[i], q[i], cs[i]) <==> ValueOf(env, vs[i], cs[i]) && Matches(q[i], vs[i]) {
        ForIsMatching(env, vs[i], q[i], cs[i]);
      }
    }
  }

  /** For a loosely typed query this is the usefulness of the query among the values of its columns. */
  lemma UsefulForMeans(env: seq<Family>, rows: seq<Row>, q: Row, cs: seq<Column>)
    requires LooseRow(env, q, cs)
    ensures UsefulFor(env, rows, q, cs) <==> IsUseful(env, rows, q, cs)
  {
    if vs :| WitnessFor(env, rows, q, cs, vs) { ForAreMatching(env, vs, q, cs); assert Witness(env, rows, q, cs, vs); }
    if vs :| Witness(env, rows, q, cs, vs) { ForAreMatching(env, vs, q, cs); assert WitnessFor(env, rows, q, cs, vs); }
  }

  // ---- erasure ----

  /** r has a constructor that values of the query in this column can have. */
  predicate Fits(r: Pattern, q: Pattern, c: Column) {
    r.Ctor? && if q.Ctor? then q.fam == r.fam && q.tag == r.tag else c == Some(r.fam)
  }

  /** The argument of the query beside argument i of a fitting pattern. */
  function Beside(q: Pattern, i: nat): Pattern {
    if q.Ctor? && i < |q.args| then q.args[i] else Wild
  }

  /** How the recursion reads r: as a wildcard wherever the column has no family and the query is a wildcard. */
  ghost function Erase(env: seq<Family>, r: Pattern, q: Pattern, c: Column): Pattern
    requires Shaped(env, r)
    decreases r
  {
    if q.Wild? && c.None? then Wild
    else if !Fits(r, q, c) then r
    else Ctor(r.fam, r.tag, seq(|r.args|, i requires 0 <= i < |r.args| => Erase(env, r.args[i], Beside(q, i), env[r.fam][r.tag][i])))
  }

  ghost function EraseRow(env: seq<Family>, row: Row, q: Row, cs: seq<Column>): (e: Row)
    requires |q| == |cs| && ShapedRow(env, row, |cs|)
    ensures |e| == |row| && forall i :: 0 <= i < |row| ==> e[i] == Erase(env, row[i], q[i], cs[i])
  {
    seq(|row|, i requires 0 <= i < |row| => Erase(env, row[i], q[i], cs[i]))
  }

  ghost function EraseRows(env: seq<Family>, rows: seq<Row>, q: Row, cs: seq<Column>): (e: seq<Row>)
    requires |q| == |cs| && ShapedRows(env, rows, |cs|)
    ensures |e| == |rows| && forall r :: 0 <= r < |rows| ==> e[r] == EraseRow(env, rows[r], q, cs)
  {
    seq(|rows|, r requires 0 <= r < |rows| => EraseRow(env, rows[r], q, cs))
  }

  lemma {:induction false} EraseShaped(env: seq<Family>, r: Pattern, q: Pattern, c: Column)
    requires Shaped(env, r)
    ensures Shaped(env, Erase(env, r, q, c))
    decreases r
  {
    if !(q.Wild? && c.None?) && Fits(r, q, c) {
      forall i | 0 <= i < |r.args| ensures Shaped(env, Erase(env, r.args[i], Beside(q, i), env[r.fam][r.tag][i])) {
        EraseShaped(env, r.args[i], Beside(q, i), env[r.fam][r.tag][i]);
      }
    }
  }

  lemma EraseRowsShaped(env: seq<Family>, rows: seq<Row>, q: Row, cs: seq<Column>)
    requires |q| == |cs| && ShapedRows(env, rows, |cs|)
    ensures ShapedRows(env, EraseRows(env, rows, q, cs), |cs|)
  {
    var e := EraseRows(env, rows, q, cs);
    forall r | 0 <= r < |e| ensures ShapedRow(env, e[r], |cs|) {
      assert ShapedRow(env, rows[r], |cs|);
      forall i | 0 <= i < |cs| ensures Shaped(env, e[r][i]) { EraseShaped(env, rows[r][i], q[i], cs[i]); }
    }
  }

  /** Erasure only makes a pattern match more. */
  lemma {:induction false} EraseMatches(env: seq<Family>, r: Pattern, q: Pattern, c: Column, v: Value)
    requires Shaped(env, r) && Matches(r, v)
    ensures Matches(Erase(env, r, q, c), v)
    decreases r
  {
    if !(q.Wild? && c.None?) && Fits(r, q, c) {
      forall i | 0 <= i < |r.args| ensures Matches(Erase(env, r.args[i], Beside(q, i), env[r.fam][r.tag][i]), v.args[i]) {
        EraseMatches(env, r.args[i], Beside(q, i), env[r.fam][r.tag][i], v.args[i]);
      }
    }
  }

  /** So what the erased rows leave out, the rows leave out. */
  lemma UsefulIfErased(env: seq<Family>, rows: seq<Row>, q: Row, cs: seq<Column>)
    requires |q| == |cs| && ShapedRows(env, rows, |cs|)
    ensures UsefulFor(env, EraseRows(env, rows, q, cs), q, cs) ==> UsefulFor(env, rows, q, cs)
  {
    var e := EraseRows(env, rows, q, cs);
    if vs :| WitnessFor(env, e, q, cs, vs) {
      forall r | 0 <= r < |rows| ensures RowMatches(rows[r], vs) ==> RowMatches(e[r], vs) {
        assert ShapedRow(env, rows[r], |cs|);
        if RowMatches(rows[r], vs) { forall i | 0 <= i < |cs| ensures Matches(e[r][i], vs[i]) { EraseMatches(env, rows[r][i], q[i], cs[i], vs[i]); } }
      }
      assert WitnessFor(env, rows, q, cs, vs);
    }
  }

  // ---- what would have to be erased ----

  /** r has a constructor pattern where erasure would put a wildcard. */
  ghost predicate Erased(env: seq<Family>, r: Pattern, q: Pattern, c: Column)
    requires Shaped(env, r)
    decreases r
  {
    && r.Ctor?
    && ((q.Wild? && c.None?)
        || (Fits(r, q, c) && exists i :: 0 <= i < |r.args| && Erased(env, r.args[i], Beside(q, i), env[r.fam][r.tag][i])))
  }

  ghost predicate RowErased(env: seq<Family>, row: Row, q: Row, cs: seq<Column>)
    requires |q| == |cs| && ShapedRow(env, row, |cs|)
  {
    exists i :: 0 <= i < |row| && Erased(env, row[i], q[i], cs[i])
  }

  ghost predicate NoneErased(env: seq<Family>, rows: seq<Row>, q: Row, cs: seq<Column>)
    requires |q| == |cs| && ShapedRows(env, rows, |cs|)
  {
    forall r :: 0 <= r < |rows| ==> !RowErased(env, rows[r], q, cs)
  }

  /** The rows in which nothing is erased. */
  ghost function Kept(env: seq<Family>, rows: seq<Row>, q: Row, cs: seq<Column>): seq<Row>
    requires |q| == |cs| && ShapedRows(env, rows, |cs|)
  {
    if rows == [] then []
    else
      var init := Kept(env, rows[..|rows| - 1], q, cs);
      if RowErased(env, rows[|rows| - 1], q, cs) then init else init + [rows[|rows| - 1]]
  }

  lemma {:induction false} KeptRows(env: seq<Family>, rows: seq<Row>, q: Row, cs: seq<Column>)
    requires |q| == |cs| && ShapedRows(env, rows, |cs|)
    ensures ShapedRows(env, Kept(env, rows, q, cs), |cs|) && NoneErased(env, Kept(env, rows, q, cs), q, cs)
    ensures forall r :: r in Kept(env, rows, q, cs) ==> r in rows
    ensures forall r :: 0 <= r < |rows| && !RowErased(env, rows[r], q, cs) ==> rows[r] in Kept(env, rows, q, cs)
  {
    if rows != [] { KeptRows(env, rows[..|rows| - 1], q, cs); }
  }

  /** Erasure changes nothing where nothing is erased. */
  lemma {:induction false} EraseNothing(env: seq<Family>, r: Pattern, q: Pattern, c: Column)
    requires Shaped(env, r) && !Erased(env, r, q, c)
    ensures Erase(env, r, q, c) == r
    decreases r
  {
    if !(q.Wild? && c.None?) && Fits(r, q, c) {
      forall i | 0 <= i < |r.args| ensures Erase(env, r.args[i], Beside(q, i), env[r.fam][r.tag][i]) == r.args[i] {
        EraseNothing(env, r.args[i], Beside(q, i), env[r.fam][r.tag][i]);
      }
      assert Erase(env, r, q, c).args == r.args;
    }
  }

  lemma EraseRowsNothing(env: seq<Family>, rows: seq<Row>, q: Row, cs: seq<Column>)
    requires |q| == |cs| && ShapedRows(env, rows, |cs|) && NoneErased(env, rows, q, cs)
    ensures EraseRows(env, rows, q, cs) == rows
  {
    forall r | 0 <= r < |rows| ensures EraseRow(env, rows[r], q, cs) == rows[r] {
      assert ShapedRow(env, rows[r], |cs|) && !RowErased(env, rows[r], q, cs);
      forall i | 0 <= i < |cs| ensures Erase(env, rows[r][i], q[i], cs[i]) == rows[r][i] { EraseNothing(env, rows[r][i], q[i], cs[i]); }
    }
  }

  /** After erasure nothing is left to erase. */
  lemma {:induction false} EraseDone(env: seq<Family>, r: Pattern, q: Pattern, c: Column)
    requires Shaped(env, r)
    ensures Shaped(env, Erase(env, r, q, c)) && !Erased(env, Erase(env, r, q, c), q, c)
    decreases r
  {
    EraseShaped(env, r, q, c);
    if !(q.Wild? && c.None?) && Fits(r, q, c) {
      var e := Erase(env, r, q, c);
      forall i | 0 <= i < |e.args| ensures !Erased(env, e.args[i], Beside(q, i), env[r.fam][r.tag][i]) {
        EraseDone(env, r.args[i], Beside(q, i), env[r.fam][r.tag][i]);
      }
    }
  }

  lemma EraseRowsDone(env: seq<Family>, rows: seq<Row>, q: Row, cs: seq<Column>)
    requires |q| == |cs| && ShapedRows(env, rows, |cs|)
    ensures ShapedRows(env, EraseRows(env, rows, q, cs), |cs|) && NoneErased(env, EraseRows(env, rows, q, cs), q, cs)
  {
    EraseRowsShaped(env, rows, q, cs);
    var e := EraseRows(env, rows, q, cs);
    forall r | 0 <= r < |e| ensures !RowErased(env, e[r], q, cs) {
      assert ShapedRow(env, rows[r], |cs|);
      forall i | 0 <= i < |cs| ensures !Erased(env, e[r][i], q[i], cs[i]) { EraseDone(env, rows[r][i], q[i], cs[i]); }
    }
  }

  /** Well-typed patterns beside a well-typed query have nothing to erase. */
  lemma {:induction false} TypedNotErased(env: seq<Family>, r: Pattern, q: Pattern, c: Column)
    requires PatternOf(env, r, c) && PatternOf(env, q, c)
    ensures Shaped(env, r) && !Erased(env, r, q, c)
    decreases r
  {
    TypedIsShaped(env, r, c);
    if r.Ctor? && Fits(r, q, c) {
      forall i | 0 <= i < |r.args| ensures !Erased(env, r.args[i], Beside(q, i), env[r.fam][r.tag][i]) {
        TypedNotErased(env, r.args[i], Beside(q, i), env[r.fam][r.tag][i]);
      }
    }
  }

  // ---- an opaque value defeats whatever would be erased ----

  /** The value with every part opaque where erasure puts wildcards. */
  ghost function Blank(env: seq<Family>, v: Value, q: Pattern, c: Column): Value
    requires ValueFor(env, v, q, c)
    decreases v
  {
    if q.Wild? && c.None? then Opaque(0)
    else
      var fields := env[v.fam][v.tag];
      Con(v.fam, v.tag, seq(|v.args|, i requires 0 <= i < |v.args| => Blank(env, v.args[i], Beside(q, i), fields[i])))
  }

  lemma {:induction false} BlankFor(env: seq<Family>, v: Value, q: Pattern, c: Column)
    requires ValueFor(env, v, q, c)
    ensures ValueFor(env, Blank(env, v, q, c), q, c)
    decreases v
  {
    if !(q.Wild? && c.None?) {
      var fields, b := env[v.fam][v.tag], Blank(env, v, q, c);
      forall i | 0 <= i < |v.args| ensures ValueFor(env, b.args[i], Beside(q, i), fields[i]) {
        BlankFor(env, v.args[i], Beside(q, i), fields[i]);
      }
      if q.Wild? { forall i | 0 <= i < |v.args| ensures ValueOf(env, b.args[i], fields[i]) { assert ValueFor(env, b.args[i], Wild, fields[i]); } }
    }
  }

  /** Only patterns without anything to erase match a blanked value, and those match the value as well. */
  lemma {:induction false} BlankMatches(env: seq<Family>, r: Pattern, v: Value, q: Pattern, c: Column)
    requires Shaped(env, r) && ValueFor(env, v, q, c) && Matches(r, Blank(env, v, q, c))
    ensures !Erased(env, r, q, c) && Matches(r, v)
    decreases r
  {
    if r.Ctor? {
      var b := Blank(env, v, q, c);
      forall i | 0 <= i < |r.args|
        ensures !Erased(env, r.args[i], Beside(q, i), env[r.fam][r.tag][i]) && Matches(r.args[i], v.args[i])
      {
        assert Matches(r.args[i], b.args[i]);
        BlankMatches(env, r.args[i], v.args[i], Beside(q, i), env[r.fam][r.tag][i]);
      }
    }
  }

  lemma {:induction false} KeptMatch(env: seq<Family>, rows: seq<Row>, q: Row, cs: seq<Column>, vs: seq<Value>)
    requires |q| == |cs| && ShapedRows(env, rows, |cs|)
    ensures SomeRowMatches(Kept(env, rows, q, cs), vs) <==>
            exists r :: 0 <= r < |rows| && !RowErased(env, rows[r], q, cs) && RowMatches(rows[r], vs)
  {
    if rows != [] {
      var n := |rows| - 1;
      var init := rows[..n];
      KeptMatch(env, init, q, cs, vs);
      assert ShapedRow(env, rows[n], |cs|);
      SnocMatches(Kept(env, init, q, cs), rows[n], vs);
      if r :| 0 <= r < |rows| && !RowErased(env, rows[r], q, cs) && RowMatches(rows[r], vs) {
        if r < n { assert init[r] == rows[r]; }
      }
    }
  }

  lemma BlankRow(env: seq<Family>, row: Row, q: Row, cs: seq<Column>, vs: seq<Value>, ws: seq<Value>)
    requires |q| == |cs| && ShapedRow(env, row, |cs|) && ValuesFor(env, vs, q, cs)
    requires |ws| == |q| && forall i :: 0 <= i < |q| ==> ws[i] == Blank(env, vs[i], q[i], cs[i])
    ensures RowMatches(row, ws) ==> !RowErased(env, row, q, cs) && RowMatches(row, vs)
  {
    if RowMatches(row, ws) {
      forall i | 0 <= i < |q| ensures !Erased(env, row[i], q[i], cs[i]) && Matches(row[i], vs[i]) {
        assert Matches(row[i], ws[i]);
        BlankMatches(env, row[i], vs[i], q[i], cs[i]);
      }
    }
  }

  lemma BlankWitness(env: seq<Family>, rows: seq<Row>, q: Row, cs: seq<Column>, vs: seq<Value>) returns (ws: seq<Value>)
    requires |q| == |cs| && ShapedRows(env, rows, |cs|) && WitnessFor(env, Kept(env, rows, q, cs), q, cs, vs)
    ensures WitnessFor(env, rows, q, cs, ws)
  {
    ws := seq(|q|, i requires 0 <= i < |q| => Blank(env, vs[i], q[i], cs[i]));
    forall i | 0 <= i < |q| ensures ValueFor(env, ws[i], q[i], cs[i]) { BlankFor(env, vs[i], q[i], cs[i]); }
    KeptMatch(env, rows, q, cs, vs);
    forall r | 0 <= r < |rows| ensures !RowMatches(rows[r], ws) {
      assert ShapedRow(env, rows[r], |cs|);
      BlankRow(env, rows[r], q, cs, vs, ws);
    }
  }

  /** Rows with something to erase play no part in the true answer. */
  lemma UsefulWithoutErased(env: seq<Family>, rows: seq<Row>, q: Row, cs: seq<Column>)
    requires |q| == |cs| && ShapedRows(env, rows, |cs|)
    ensures UsefulFor(env, rows, q, cs) <==> UsefulFor(env, Kept(env, rows, q, cs), q, cs)
  {
    if vs :| WitnessFor(env, rows, q, cs, vs) {
      KeptMatch(env, rows, q, cs, vs);
      assert WitnessFor(env, Kept(env, rows, q, cs), q, cs, vs);
    }
    if vs :| WitnessFor(env, Kept(env, rows, q, cs), q, cs, vs) { var ws := BlankWitness(env, rows, q, cs, vs); }
  }
}
