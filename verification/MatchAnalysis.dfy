/** The match analysis of adt_match.c as it runs: rows built and shrunk in place, a bounded
    stack, and the two questions callers ask. */
module MatchAnalysis {
  import opened Common
  import opened Patterns
  import opened Erasure
  import opened Usefulness
  import opened MatchTermination

  /** adt_i_row_all_wild. */
  method RowAllWild(row: Row) returns (w: bool)
    ensures w <==> AllWild(row)
  {
    for i := 0 to |row|
      invariant forall j :: 0 <= j < i ==> row[j].Wild?
    {
      if !row[i].Wild? { return false; }
    }
    return true;
  }

  /** adt_i_ctor_covered. */
  method CtorCovered(rows: array<Row>, n: nat) returns (c: bool)
    requires n <= rows.Length
    ensures c <==> HasWildRow(rows[..n])
  {
    for i := 0 to n
      invariant forall j :: 0 <= j < i ==> !AllWild(rows[j])
    {
      var w := RowAllWild(rows[i]);
      if w {
        assert AllWild(rows[..n][i]);
        return true;
      }
    }
    return false;
  }

  /** adt_i_fill_row: the constructor's columns, then the rest of the row. */
  method FillRow(row: Row, n: nat) returns (out: Row)
    requires |row| > 0 && (row[0].Ctor? ==> |row[0].args| == n)
    ensures out == (if row[0].Wild? then Wilds(n) else row[0].args) + row[1..]
  {
    var width := n + |row| - 1;
    var cols := new Pattern[width](i => Wild);
    ghost var want := (if row[0].Wild? then Wilds(n) else row[0].args) + row[1..];
    for k := 0 to width
      invariant forall j :: 0 <= j < k ==> cols[j] == want[j]
    {
      if k < n {
        cols[k] := if row[0].Wild? then Wild else row[0].args[k];
      } else {
        cols[k] := row[k - n + 1];
      }
    }
    out := cols[..];
  }

  /** adt_i_spec_row. */
  method BuildSpecRow(fam: nat, tag: nat, n: nat, row: Row) returns (out: Option<Row>)
    requires |row| > 0 && (row[0].Ctor? && row[0].fam == fam && row[0].tag == tag ==> |row[0].args| == n)
    ensures out == SpecRow(fam, tag, n, row)
  {
    if row[0].Ctor? && !(row[0].fam == fam && row[0].tag == tag) {
      return None;
    }
    var filled := FillRow(row, n);
    return Some(filled);
  }

  /** adt_i_specialize: a new matrix; the old one is left as it was. */
  method Specialize(env: seq<Family>, fam: nat, tag: nat, rows: array<Row>, n: nat, ghost width: nat) returns (dst: array<Row>, count: nat)
    requires HasCtor(env, fam, tag) && n <= rows.Length && width > 0 && ShapedRows(env, rows[..n], width)
    ensures fresh(dst) && count <= dst.Length && dst[..count] == SpecRows(fam, tag, |env[fam][tag]|, rows[..n])
  {
    var fields := |env[fam][tag]|;
    dst := new Row[n](i => []);
    count := 0;
    for i := 0 to n
      invariant count <= i && dst[..count] == SpecRows(fam, tag, fields, rows[..i])
    {
      assert rows[..i + 1][..i] == rows[..i];
      assert ShapedRow(env, rows[..n][i], width) && Shaped(env, rows[i][0]);
      var r := BuildSpecRow(fam, tag, fields, rows[i]);
      if r.Some? {
        dst[count] := r.value;
        count := count + 1;
      }
    }
  }

  /** adt_i_rows_drop_col: in place. */
  method DropColumn(rows: array<Row>, n: nat)
    requires n <= rows.Length && forall r :: 0 <= r < n ==> |rows[r]| > 0
    modifies rows
    ensures rows[..n] == DropRows(old(rows[..n]))
  {
    for i := 0 to n
      invariant forall r :: 0 <= r < n ==> rows[r] == if r < i then old(rows[r])[1..] else old(rows[r])
    {
      rows[i] := rows[i][1..];
    }
  }

  /** adt_i_useful. */
  method Useful(depth: nat, env: seq<Family>, rows: array<Row>, n: nat, q: Row, cs: seq<Column>) returns (r: Option<bool>)
    requires n <= rows.Length && Input(env, rows[..n], q, cs)
    modifies rows
    ensures r == Run(depth, env, old(rows[..n]), q, cs)
    decreases depth, 2
  {
    if depth == 0 { return None; }
    ghost var matrix := rows[..n];
    var covered := CtorCovered(rows, n);
    if covered { return Some(false); }
    if |cs| == 0 { return Some(true); }
    if q[0].Ctor? {
      assert Shaped(env, q[0]);
      r := UsefulCtor(depth, env, rows, n, q, cs, q[0].fam, q[0].tag);
    } else if cs[0].None? {
      InputDrop(env, matrix, q, cs);
      assert forall x :: 0 <= x < n ==> |matrix[x]| > 0;
      DropColumn(rows, n);
      r := Useful(depth - 1, env, rows, n, q[1..], cs[1..]);
    } else {
      assert ColumnOk(env, cs[0]);
      r := Enumerate(depth, env, rows, n, q, cs, cs[0].value);
    }
  }

  /** adt_i_useful_ctor: works on its own copy of the rows. */
  method UsefulCtor(depth: nat, env: seq<Family>, rows: array<Row>, n: nat, q: Row, cs: seq<Column>, fam: nat, tag: nat) returns (r: Option<bool>)
    requires depth > 0 && n <= rows.Length && Input(env, rows[..n], q, cs) && |cs| > 0 && HasCtor(env, fam, tag)
    requires q[0].Ctor? ==> q[0].fam == fam && q[0].tag == tag
    ensures r == RunCtor(depth, env, rows[..n], q, cs, fam, tag)
    decreases depth, 0
  {
    ghost var matrix := rows[..n];
    InputCtor(env, matrix, q, cs, fam, tag);
    var spec, count := Specialize(env, fam, tag, rows, n, |cs|);
    assert Shaped(env, q[0]);
    var q' := FillRow(q, |env[fam][tag]|);
    r := Useful(depth - 1, env, spec, count, q', env[fam][tag] + cs[1..]);
  }

  /** adt_i_useful_enumerate. */
  method Enumerate(depth: nat, env: seq<Family>, rows: array<Row>, n: nat, q: Row, cs: seq<Column>, fam: nat) returns (r: Option<bool>)
    requires depth > 0 && n <= rows.Length && Input(env, rows[..n], q, cs) && |cs| > 0 && q[0].Wild? && fam < |env|
    ensures r == RunFrom(depth, env, rows[..n], q, cs, fam, 0)
    decreases depth, 1
  {
    for tag := 0 to |env[fam]|
      invariant RunFrom(depth, env, rows[..n], q, cs, fam, 0) == RunFrom(depth, env, rows[..n], q, cs, fam, tag)
    {
      r := UsefulCtor(depth, env, rows, n, q, cs, fam, tag);
      if r != Some(false) { return; }
    }
    return Some(false);
  }

  // ---- the two questions ----

  /** One pattern per row. */
  ghost function Singles(patterns: seq<Pattern>, n: nat): (rows: seq<Row>)
    requires n <= |patterns|
    ensures |rows| == n && forall i :: 0 <= i < n ==> rows[i] == [patterns[i]]
  {
    seq(n, i requires 0 <= i < n => [patterns[i]])
  }

  ghost predicate AllShaped(env: seq<Family>, patterns: seq<Pattern>) {
    forall i :: 0 <= i < |patterns| ==> Shaped(env, patterns[i])
  }

  lemma SinglesInput(env: seq<Family>, patterns: seq<Pattern>, n: nat, p: Pattern, c: Column)
    requires FamiliesOk(env) && ColumnOk(env, c) && n <= |patterns| && Shaped(env, p) && AllShaped(env, patterns)
    ensures Input(env, Singles(patterns, n), [p], [c])
  {
    var rows := Singles(patterns, n);
    forall r | 0 <= r < n ensures ShapedRow(env, rows[r], 1) { assert Shaped(env, patterns[r]); }
  }

  /** Asks adt_i_useful about p after the first n patterns. */
  method UsefulPrefix(depth: nat, env: seq<Family>, patterns: seq<Pattern>, n: nat, p: Pattern, c: Column, ghost w: seq<nat>) returns (r: Option<bool>)
    requires FamiliesOk(env) && ColumnOk(env, c) && n <= |patterns| && Shaped(env, p) && AllShaped(env, patterns)
    ensures Input(env, Singles(patterns, n), [p], [c])
    ensures r == Run(depth, env, Singles(patterns, n), [p], [c])
    ensures Weighs(env, w) && depth > QueryWeight(env, w, p, c) ==> r.Some?
  {
    var rows := new Row[n](i => []);
    for i := 0 to n
      invariant forall j :: 0 <= j < i ==> rows[j] == [patterns[j]]
    {
      rows[i] := [patterns[i]];
    }
    ghost var matrix := Singles(patterns, n);
    assert rows[..n] == matrix;
    SinglesInput(env, patterns, n, p, c);
    if Weighs(env, w) && depth > QueryWeight(env, w, p, c) {
      assert QueryTotal(env, w, [p][1..], [c][1..]) == 0;
      Ends(depth, env, matrix, [p], [c], w);
    }
    r := Useful(depth, env, rows, n, [p], [c]);
  }

  datatype Verdict = Exhaustive | NonExhaustive | Invalid | Unanswered

  ghost predicate Foreign(p: Pattern, fam: nat) {
    p.Ctor? && p.fam != fam
  }

  /** Every value of the type matches a clause. */
  ghost predicate ExhaustiveFor(env: seq<Family>, clauses: seq<Row>, fam: nat) {
    forall v {:trigger SomeRowMatches(clauses, [v])} :: ValueOf(env, v, Some(fam)) ==> SomeRowMatches(clauses, [v])
  }

  /** The clauses without those that have a constructor pattern where the type has a type parameter. */
  ghost function Dropped(env: seq<Family>, patterns: seq<Pattern>, n: nat, p: Pattern, c: Column): seq<Row>
    requires n <= |patterns| && ShapedRows(env, Singles(patterns, n), 1)
  {
    Kept(env, Singles(patterns, n), [p], [c])
  }

  /** The clauses with wildcards in place of those patterns. */
  ghost function Blanked(env: seq<Family>, patterns: seq<Pattern>, n: nat, p: Pattern, c: Column): seq<Row>
    requires n <= |patterns| && ShapedRows(env, Singles(patterns, n), 1)
  {
    EraseRows(env, Singles(patterns, n), [p], [c])
  }

  lemma ExhaustiveMeans(env: seq<Family>, clauses: seq<Row>, fam: nat)
    ensures ExhaustiveFor(env, clauses, fam) <==> !UsefulFor(env, clauses, [Wild], [Some(fam)])
  {
    if vs :| WitnessFor(env, clauses, [Wild], [Some(fam)], vs) {
      assert ValueFor(env, vs[0], [Wild][0], [Some(fam)][0]);
      assert vs == [vs[0]];
    }
    if v :| ValueOf(env, v, Some(fam)) && !SomeRowMatches(clauses, [v]) {
      assert ValueFor(env, v, Wild, Some(fam));
      assert WitnessFor(env, clauses, [Wild], [Some(fam)], [v]);
    }
  }

  /** adt_match_exhaustive, for any clauses whose constructor patterns have the right number of arguments. */
  method MatchExhaustive(depth: nat, env: seq<Family>, fam: nat, patterns: seq<Pattern>, ghost w: seq<nat>) returns (r: Verdict)
    requires FamiliesOk(env) && fam < |env| && AllShaped(env, patterns)
    ensures ShapedRows(env, Singles(patterns, |patterns|), 1)
    ensures r == Invalid <==> exists i :: 0 <= i < |patterns| && Foreign(patterns[i], fam)
    ensures r == NonExhaustive ==> !ExhaustiveFor(env, Singles(patterns, |patterns|), fam)
    ensures r == Exhaustive || r == NonExhaustive ==>
              (r == Exhaustive <==> ExhaustiveFor(env, Blanked(env, patterns, |patterns|, Wild, Some(fam)), fam))
    ensures r == Exhaustive || r == NonExhaustive ==>
              ((r == Exhaustive <==> ExhaustiveFor(env, Singles(patterns, |patterns|), fam)) <==>
               (ExhaustiveFor(env, Dropped(env, patterns, |patterns|, Wild, Some(fam)), fam) <==>
                ExhaustiveFor(env, Blanked(env, patterns, |patterns|, Wild, Some(fam)), fam)))
    ensures (r == Exhaustive || r == NonExhaustive) && (forall i :: 0 <= i < |patterns| ==> PatternOf(env, patterns[i], Some(fam))) ==>
              (r == Exhaustive <==> ExhaustiveFor(env, Singles(patterns, |patterns|), fam))
    ensures Weighs(env, w) && depth > Weight(w, Some(fam)) ==> r != Unanswered
  {
    SinglesInput(env, patterns, |patterns|, Wild, Some(fam));
    for i := 0 to |patterns|
      invariant forall j :: 0 <= j < i ==> !Foreign(patterns[j], fam)
    {
      if patterns[i].Ctor? && patterns[i].fam != fam {
        assert Foreign(patterns[i], fam);
        return Invalid;
      }
    }
    var useful := UsefulPrefix(depth, env, patterns, |patterns|, Wild, Some(fam), w);
    if useful.None? { return Unanswered; }
    ExhaustiveRight(depth, env, patterns, fam);
    if forall i :: 0 <= i < |patterns| ==> PatternOf(env, patterns[i], Some(fam)) { TypedClauses(env, patterns, |patterns|, Wild, Some(fam)); }
    return if useful.value then NonExhaustive else Exhaustive;
  }

  lemma ExhaustiveRight(depth: nat, env: seq<Family>, patterns: seq<Pattern>, fam: nat)
    requires Input(env, Singles(patterns, |patterns|), [Wild], [Some(fam)])
    requires Run(depth, env, Singles(patterns, |patterns|), [Wild], [Some(fam)]).Some?
    ensures var all, blanked, dropped := Singles(patterns, |patterns|), Blanked(env, patterns, |patterns|, Wild, Some(fam)), Dropped(env, patterns, |patterns|, Wild, Some(fam));
            var answer := !Run(depth, env, all, [Wild], [Some(fam)]).value;
            && (answer <==> ExhaustiveFor(env, blanked, fam))
            && (!answer ==> !ExhaustiveFor(env, all, fam))
            && ((answer <==> ExhaustiveFor(env, all, fam)) <==> (ExhaustiveFor(env, dropped, fam) <==> ExhaustiveFor(env, blanked, fam)))
  {
    var all := Singles(patterns, |patterns|);
    ExactErased(depth, env, all, [Wild], [Some(fam)]);
    RightIff(depth, env, all, [Wild], [Some(fam)]);
    UsefulIfErased(env, all, [Wild], [Some(fam)]);
    ExhaustiveMeans(env, all, fam);
    ExhaustiveMeans(env, Blanked(env, patterns, |patterns|, Wild, Some(fam)), fam);
    ExhaustiveMeans(env, Dropped(env, patterns, |patterns|, Wild, Some(fam)), fam);
  }

  /** Clauses without constructor patterns under type parameters are blanked and dropped to themselves. */
  lemma TypedClauses(env: seq<Family>, patterns: seq<Pattern>, n: nat, p: Pattern, c: Column)
    requires FamiliesOk(env) && ColumnOk(env, c) && n <= |patterns| && PatternOf(env, p, c)
    requires forall i :: 0 <= i < |patterns| ==> PatternOf(env, patterns[i], c)
    ensures ShapedRows(env, Singles(patterns, n), 1)
    ensures Blanked(env, patterns, n, p, c) == Singles(patterns, n) && Dropped(env, patterns, n, p, c) == Singles(patterns, n)
  {
    var rows := Singles(patterns, n);
    forall r | 0 <= r < n ensures RowOf(env, rows[r], [c]) { assert PatternOf(env, patterns[r], c); }
    TypedInput(env, rows, [p], [c]);
    EraseRowsNothing(env, rows, [p], [c]);
    KeptAll(env, rows, [p], [c]);
  }

  lemma {:induction false} KeptAll(env: seq<Family>, rows: seq<Row>, q: Row, cs: seq<Column>)
    requires |q| == |cs| && ShapedRows(env, rows, |cs|) && NoneErased(env, rows, q, cs)
    ensures Kept(env, rows, q, cs) == rows
  {
    if rows != [] {
      KeptAll(env, rows[..|rows| - 1], q, cs);
      assert rows == rows[..|rows| - 1] + [rows[|rows| - 1]];
    }
  }

  /** The earlier clauses cover everything clause i matches. */
  ghost predicate Redundant(env: seq<Family>, patterns: seq<Pattern>, i: int, c: Column) {
    0 <= i < |patterns| && !UsefulFor(env, Singles(patterns, i), [patterns[i]], [c])
  }

  /** The column the clauses are analysed in: the family of the first constructor pattern, if there is one. */
  ghost function FirstColumn(patterns: seq<Pattern>): Column {
    if patterns == [] then None
    else if patterns[0].Ctor? then Some(patterns[0].fam)
    else FirstColumn(patterns[1..])
  }

  lemma {:induction false} FirstColumnOk(env: seq<Family>, patterns: seq<Pattern>)
    requires AllShaped(env, patterns)
    ensures ColumnOk(env, FirstColumn(patterns))
    ensures FirstColumn(patterns).None? <==> forall i :: 0 <= i < |patterns| ==> patterns[i].Wild?
    decreases |patterns|
  {
    if patterns != [] {
      assert Shaped(env, patterns[0]);
      var rest := patterns[1..];
      forall i | 0 <= i < |rest| ensures Shaped(env, rest[i]) { var j := i + 1; assert Shaped(env, patterns[j]); }
      FirstColumnOk(env, rest);
      if forall i :: 0 <= i < |rest| ==> rest[i].Wild? {
        forall i | 1 <= i < |patterns| ensures patterns[i].Wild? { var j := i - 1; assert rest[j] == patterns[i]; }
      }
    }
  }

  /** adt_i_take_ctor_family. */
  method FirstFamily(patterns: seq<Pattern>) returns (c: Column)
    ensures c == FirstColumn(patterns)
  {
    for i := 0 to |patterns|
      invariant FirstColumn(patterns) == FirstColumn(patterns[i..])
    {
      if patterns[i].Ctor? { return Some(patterns[i].fam); }
      assert patterns[i..][1..] == patterns[i + 1..];
    }
    return None;
  }

  /** What a flag says: whether the clause is redundant after the earlier ones as they are read, and when that is right. */
  ghost predicate FlagRight(env: seq<Family>, patterns: seq<Pattern>, i: int, c: Column, flag: bool)
    requires AllShaped(env, patterns)
  {
    && 0 <= i < |patterns| && ShapedRows(env, Singles(patterns, i), 1)
    && (flag <==> !UsefulFor(env, Blanked(env, patterns, i, patterns[i], c), [patterns[i]], [c]))
    && (!flag ==> !Redundant(env, patterns, i, c))
    && ((flag <==> Redundant(env, patterns, i, c)) <==>
        (UsefulFor(env, Dropped(env, patterns, i, patterns[i], c), [patterns[i]], [c]) <==>
         UsefulFor(env, Blanked(env, patterns, i, patterns[i], c), [patterns[i]], [c])))
  }

  lemma FlagOfRun(depth: nat, env: seq<Family>, patterns: seq<Pattern>, i: nat, c: Column)
    requires AllShaped(env, patterns) && i < |patterns| && Input(env, Singles(patterns, i), [patterns[i]], [c])
    requires Run(depth, env, Singles(patterns, i), [patterns[i]], [c]).Some?
    ensures FlagRight(env, patterns, i, c, !Run(depth, env, Singles(patterns, i), [patterns[i]], [c]).value)
  {
    var rows, q := Singles(patterns, i), [patterns[i]];
    ExactErased(depth, env, rows, q, [c]);
    RightIff(depth, env, rows, q, [c]);
    UsefulIfErased(env, rows, q, [c]);
  }

  /** When no clause has a constructor the first is not redundant and the others are. */
  lemma WildFlags(env: seq<Family>, patterns: seq<Pattern>, i: nat)
    requires FamiliesOk(env) && AllShaped(env, patterns) && i < |patterns| && forall j :: 0 <= j < |patterns| ==> patterns[j].Wild?
    ensures FlagRight(env, patterns, i, None, i > 0)
  {
    TypedClauses(env, patterns, i, patterns[i], None);
    var rows, q := Singles(patterns, i), [patterns[i]];
    if i > 0 {
      forall vs | |vs| == 1 ensures SomeRowMatches(rows, vs) { assert RowMatches(rows[0], vs); }
    } else {
      assert ValueFor(env, Opaque(0), q[0], None);
      assert WitnessFor(env, rows, q, [None], [Opaque(0)]);
    }
  }

  /** adt_match_redundant, for any clauses whose constructor patterns have the right number of arguments;
      with no clauses it still clears the first flag. */
  method MatchRedundant(depth: nat, env: seq<Family>, patterns: seq<Pattern>, out: array<bool>, ghost w: seq<nat>) returns (answered: bool)
    requires FamiliesOk(env) && AllShaped(env, patterns) && 1 <= out.Length && |patterns| <= out.Length
    modifies out
    ensures answered ==> forall i :: 0 <= i < |patterns| ==> FlagRight(env, patterns, i, FirstColumn(patterns), out[i])
    ensures |patterns| == 0 ==> answered && !out[0]
    ensures forall i :: |patterns| <= i < out.Length && i > 0 ==> out[i] == old(out[i])
    ensures Weighs(env, w) && (forall i :: 0 <= i < |patterns| ==> depth > QueryWeight(env, w, patterns[i], FirstColumn(patterns))) ==> answered
  {
    var col := FirstFamily(patterns);
    FirstColumnOk(env, patterns);
    if col.None? {
      out[0] := false;
      var i := 1;
      while i < |patterns|
        invariant 1 <= i && forall j :: 1 <= j < i && j < |patterns| ==> out[j]
        invariant !out[0] && forall j :: |patterns| <= j < out.Length && j > 0 ==> out[j] == old(out[j])
      {
        out[i] := true;
        i := i + 1;
      }
      forall k | 0 <= k < |patterns| ensures FlagRight(env, patterns, k, None, out[k]) { WildFlags(env, patterns, k); assert out[k] == (k > 0); }
      return true;
    }
    for i := 0 to |patterns|
      invariant forall j :: 0 <= j < i ==> FlagRight(env, patterns, j, col, out[j])
      invariant forall j :: |patterns| <= j < out.Length ==> out[j] == old(out[j])
    {
      var useful := UsefulPrefix(depth, env, patterns, i, patterns[i], col, w);
      if useful.None? { return false; }
      FlagOfRun(depth, env, patterns, i, col);
      out[i] := !useful.value;
    }
    return true;
  }
}
