/** When the usefulness recursion ends: over a set of families it always does exactly when
    no family can be unfolded forever. */
module MatchTermination {
  import opened Common
  import opened Patterns
  import opened Erasure
  import opened Usefulness

  // ---- live fields ----

  ghost predicate Inhabited(env: seq<Family>, c: Column) {
    exists v :: ValueOf(env, v, c)
  }

  /** The recursion reaches field i of a constructor only if the fields before it have values. */
  ghost predicate LiveField(env: seq<Family>, f: int, c: int, i: int) {
    && 0 <= f < |env| && 0 <= c < |env[f]| && 0 <= i < |env[f][c]| && env[f][c][i].Some?
    && forall j :: 0 <= j < i ==> Inhabited(env, env[f][c][j])
  }

  ghost predicate Unfolds(env: seq<Family>, f: int, g: nat) {
    exists c, i :: LiveField(env, f, c, i) && env[f][c][i] == Some(g)
  }

  ghost predicate UnfoldsWithin(env: seq<Family>, s: set<nat>, f: nat) {
    exists g :: g in s && Unfolds(env, f, g)
  }

  /** Families that can be unfolded into one another forever. */
  ghost predicate Trap(env: seq<Family>, s: set<nat>) {
    s != {} && (forall f :: f in s ==> f < |env|) && forall f {:trigger UnfoldsWithin(env, s, f)} :: f in s ==> UnfoldsWithin(env, s, f)
  }

  ghost predicate NoTrap(env: seq<Family>) {
    forall s :: !Trap(env, s)
  }

  /** Live fields belong to families of lower rank. */
  ghost predicate Ranked(env: seq<Family>, rank: seq<nat>) {
    |rank| == |env| && forall f, c, i {:trigger LiveField(env, f, c, i)} :: LiveField(env, f, c, i) ==> LowerField(env, rank, f, c, i)
  }

  ghost predicate LowerField(env: seq<Family>, rank: seq<nat>, f: int, c: int, i: int)
    requires LiveField(env, f, c, i)
  {
    |rank| == |env| && env[f][c][i].value < |env| && rank[env[f][c][i].value] < rank[f]
  }

  /** The families outside todo are ranked among themselves, below k. */
  ghost predicate PartlyRanked(env: seq<Family>, rank: seq<nat>, todo: set<nat>, k: nat) {
    && |rank| == |env| && (forall f :: 0 <= f < |env| && f !in todo ==> rank[f] < k)
    && forall f, c, i {:trigger LiveField(env, f, c, i)} :: LiveField(env, f, c, i) && f !in todo ==>
         LowerField(env, rank, f, c, i) && env[f][c][i].value !in todo
  }

  /** Without a trap, some family unfolds only into ranked ones. */
  lemma {:induction false} FindRank(env: seq<Family>, rank: seq<nat>, todo: set<nat>, k: nat) returns (r: seq<nat>)
    requires FamiliesOk(env) && NoTrap(env) && PartlyRanked(env, rank, todo, k) && forall f :: f in todo ==> f < |env|
    ensures Ranked(env, r)
    decreases |todo|
  {
    if todo == {} {
      r := rank;
    } else {
      assert !Trap(env, todo);
      var f :| f in todo && !UnfoldsWithin(env, todo, f);
      var next := rank[f := k];
      forall f', c, i | LiveField(env, f', c, i) && f' !in todo - {f} ensures LowerField(env, next, f', c, i) && env[f'][c][i].value !in todo - {f} {
        assert ColumnsOk(env, env[f'][c]);
        assert ColumnOk(env, env[f'][c][i]);
        var g := env[f'][c][i].value;
        if f' == f { assert Unfolds(env, f, g); } else { assert LowerField(env, rank, f', c, i); }
      }
      r := FindRank(env, next, todo - {f}, k + 1);
    }
  }

  /** Ranked families (acyclic ones, in particular) have no trap. */
  lemma RankedHasNoTrap(env: seq<Family>, rank: seq<nat>)
    requires Ranked(env, rank)
    ensures NoTrap(env)
  {
    forall s ensures !Trap(env, s) {
      if Trap(env, s) {
        var f :| f in s;
        TrapAbove(env, rank, s, rank[f] + 1, f);
      }
    }
  }

  lemma UnfoldsLower(env: seq<Family>, rank: seq<nat>, f: nat, g: nat)
    requires Ranked(env, rank) && f < |env| && Unfolds(env, f, g)
    ensures g < |env| && rank[g] < rank[f]
  {
    var c, i :| LiveField(env, f, c, i) && env[f][c][i] == Some(g);
    assert LowerField(env, rank, f, c, i);
  }

  lemma {:induction false} TrapAbove(env: seq<Family>, rank: seq<nat>, s: set<nat>, n: nat, f: nat)
    requires Ranked(env, rank) && Trap(env, s) && f in s
    ensures rank[f] >= n
    decreases n
  {
    if n > 0 {
      assert UnfoldsWithin(env, s, f);
      var g :| g in s && Unfolds(env, f, g);
      UnfoldsLower(env, rank, f, g);
      TrapAbove(env, rank, s, n - 1, g);
    }
  }

  ghost function UpTo(n: nat): (s: set<nat>)
    ensures forall i :: i in s <==> 0 <= i < n
  {
    if n == 0 then {} else UpTo(n - 1) + {n - 1}
  }

  // ---- weights ----

  ghost function Weight(w: seq<nat>, c: Column): nat {
    if c.Some? && c.value < |w| then w[c.value] else 1
  }

  /** The weight of the columns the recursion can reach: up to the first without values. */
  ghost function LiveTotal(env: seq<Family>, w: seq<nat>, cs: seq<Column>): nat {
    if cs == [] then 0
    else Weight(w, cs[0]) + (if Inhabited(env, cs[0]) then LiveTotal(env, w, cs[1..]) else 0)
  }

  /** Every family outweighs the live fields of each of its constructors. */
  ghost predicate Weighs(env: seq<Family>, w: seq<nat>) {
    |w| == |env| && forall f, c :: 0 <= f < |env| && 0 <= c < |env[f]| ==> LiveTotal(env, w, env[f][c]) < w[f]
  }

  ghost predicate LiveUpTo(env: seq<Family>, cs: seq<Column>, i: int) {
    forall j :: 0 <= j < i <= |cs| ==> Inhabited(env, cs[j])
  }

  ghost function FamilyWeight(env: seq<Family>, rank: seq<nat>, f: nat): nat
    requires Ranked(env, rank) && f < |env|
    decreases rank[f], |env[f]| + 1, 0
  {
    1 + CtorsWeight(env, rank, f, |env[f]|)
  }

  ghost function CtorsWeight(env: seq<Family>, rank: seq<nat>, f: nat, n: nat): nat
    requires Ranked(env, rank) && f < |env| && n <= |env[f]|
    decreases rank[f], n, 0
  {
    if n == 0 then 0 else CtorsWeight(env, rank, f, n - 1) + FieldsWeight(env, rank, f, n - 1, 0)
  }

  ghost function FieldsWeight(env: seq<Family>, rank: seq<nat>, f: nat, c: nat, i: nat): nat
    requires Ranked(env, rank) && f < |env| && c < |env[f]| && i <= |env[f][c]| && LiveUpTo(env, env[f][c], i)
    decreases rank[f], c, |env[f][c]| - i
  {
    if i == |env[f][c]| then 0
    else
      var column := env[f][c][i];
      var own := if column.Some? then (assert LiveField(env, f, c, i); assert LowerField(env, rank, f, c, i); FamilyWeight(env, rank, column.value)) else 1;
      own + (if Inhabited(env, column) then FieldsWeight(env, rank, f, c, i + 1) else 0)
  }

  lemma {:induction false} FieldsTotal(env: seq<Family>, rank: seq<nat>, w: seq<nat>, f: nat, c: nat, i: nat)
    requires Ranked(env, rank) && f < |env| && c < |env[f]| && i <= |env[f][c]| && LiveUpTo(env, env[f][c], i)
    requires |w| == |env| && forall g :: 0 <= g < |env| ==> w[g] == FamilyWeight(env, rank, g)
    ensures LiveTotal(env, w, env[f][c][i..]) == FieldsWeight(env, rank, f, c, i)
    decreases |env[f][c]| - i
  {
    if i < |env[f][c]| {
      var column := env[f][c][i];
      if column.Some? { assert LiveField(env, f, c, i); assert LowerField(env, rank, f, c, i); }
      if Inhabited(env, column) { FieldsTotal(env, rank, w, f, c, i + 1); }
      assert env[f][c][i..][1..] == env[f][c][i + 1..];
    }
  }

  lemma {:induction false} CtorsOutweigh(env: seq<Family>, rank: seq<nat>, f: nat, n: nat, c: nat)
    requires Ranked(env, rank) && f < |env| && c < n <= |env[f]|
    ensures FieldsWeight(env, rank, f, c, 0) <= CtorsWeight(env, rank, f, n)
    decreases n
  {
    if c < n - 1 { CtorsOutweigh(env, rank, f, n - 1, c); }
  }

  /** Without a trap there is a weight measure. */
  lemma FindWeights(env: seq<Family>) returns (w: seq<nat>)
    requires FamiliesOk(env) && NoTrap(env)
    ensures Weighs(env, w)
  {
    var zero: seq<nat> := seq(|env|, i => 0);
    var rank := FindRank(env, zero, UpTo(|env|), 0);
    w := seq(|env|, f requires 0 <= f < |env| => FamilyWeight(env, rank, f));
    forall f, c | 0 <= f < |env| && 0 <= c < |env[f]| ensures LiveTotal(env, w, env[f][c]) < w[f] {
      FieldsTotal(env, rank, w, f, c, 0);
      assert env[f][c][0..] == env[f][c];
      CtorsOutweigh(env, rank, f, |env[f]|, c);
    }
  }

  ghost function SomeValue(env: seq<Family>, c: Column): (v: Value)
    requires Inhabited(env, c)
    ensures ValueOf(env, v, c)
  {
    var v :| ValueOf(env, v, c);
    v
  }

  /** An inhabited family has a constructor whose fields all have values. */
  lemma CtorOfInhabited(env: seq<Family>, f: nat) returns (c: nat)
    requires Inhabited(env, Some(f))
    ensures HasCtor(env, f, c) && LiveUpTo(env, env[f][c], |env[f][c]|)
  {
    var v := SomeValue(env, Some(f));
    c := v.tag;
    forall j | 0 <= j < |env[f][c]| ensures Inhabited(env, env[f][c][j]) { assert ValueOf(env, v.args[j], env[f][c][j]); }
  }

  // ---- weights of queries ----

  ghost predicate InhabitedFor(env: seq<Family>, q: Pattern, c: Column) {
    exists v :: ValueFor(env, v, q, c)
  }

  /** What a query pattern can cost: its constructors, and the weights of the columns where it is a wildcard. */
  ghost function QueryWeight(env: seq<Family>, w: seq<nat>, q: Pattern, c: Column): nat
    requires Shaped(env, q)
    decreases q, if q.Ctor? then |q.args| + 1 else 0
  {
    if q.Wild? then Weight(w, c) else 1 + ArgsWeight(env, w, q, 0)
  }

  ghost function ArgsWeight(env: seq<Family>, w: seq<nat>, q: Pattern, i: nat): nat
    requires Shaped(env, q) && q.Ctor? && i <= |q.args|
    decreases q, |q.args| - i
  {
    if i == |q.args| then 0
    else
      var c := env[q.fam][q.tag][i];
      QueryWeight(env, w, q.args[i], c) + (if InhabitedFor(env, q.args[i], c) then ArgsWeight(env, w, q, i + 1) else 0)
  }

  /** The weight of the columns of the query that the recursion can reach. */
  ghost function QueryTotal(env: seq<Family>, w: seq<nat>, q: Row, cs: seq<Column>): nat
    requires ShapedRow(env, q, |cs|)
    decreases |cs|
  {
    if |cs| == 0 then 0
    else
      TailShaped(env, q, |cs|);
      QueryWeight(env, w, q[0], cs[0]) + (if InhabitedFor(env, q[0], cs[0]) then QueryTotal(env, w, q[1..], cs[1..]) else 0)
  }

  lemma TailShaped(env: seq<Family>, q: Row, n: nat)
    requires n > 0 && ShapedRow(env, q, n)
    ensures Shaped(env, q[0]) && ShapedRow(env, q[1..], n - 1)
  {
    forall i | 0 <= i < n - 1 ensures Shaped(env, q[1..][i]) { var j := i + 1; assert Shaped(env, q[j]); }
  }

  lemma {:induction false} ArgsTotal(env: seq<Family>, w: seq<nat>, q: Pattern, i: nat)
    requires Shaped(env, q) && q.Ctor? && i <= |q.args|
    ensures ShapedRow(env, q.args[i..], |env[q.fam][q.tag][i..]|)
    ensures QueryTotal(env, w, q.args[i..], env[q.fam][q.tag][i..]) == ArgsWeight(env, w, q, i)
    decreases |q.args| - i
  {
    var args, fields := q.args[i..], env[q.fam][q.tag][i..];
    forall k | 0 <= k < |args| ensures Shaped(env, args[k]) { var j := i + k; assert Shaped(env, q.args[j]); }
    if i < |q.args| {
      ArgsTotal(env, w, q, i + 1);
      assert args[1..] == q.args[i + 1..] && fields[1..] == env[q.fam][q.tag][i + 1..];
    }
  }

  lemma {:induction false} WildsTotal(env: seq<Family>, w: seq<nat>, cs: seq<Column>)
    ensures ShapedRow(env, Wilds(|cs|), |cs|) && QueryTotal(env, w, Wilds(|cs|), cs) == LiveTotal(env, w, cs)
    decreases |cs|
  {
    if |cs| > 0 {
      WildsTotal(env, w, cs[1..]);
      assert Wilds(|cs|)[1..] == Wilds(|cs| - 1);
      assert InhabitedFor(env, Wild, cs[0]) <==> Inhabited(env, cs[0]) by {
        if v :| ValueOf(env, v, cs[0]) { assert ValueFor(env, v, Wild, cs[0]); }
        if v :| ValueFor(env, v, Wild, cs[0]) { assert ValueOf(env, v, cs[0]); }
      }
    }
  }

  lemma ShapedConcat(env: seq<Family>, a: Row, b: Row, n: nat, m: nat)
    requires ShapedRow(env, a, n) && ShapedRow(env, b, m)
    ensures ShapedRow(env, a + b, n + m)
  {
  }

  ghost predicate SomeEmpty(env: seq<Family>, q: Row, cs: seq<Column>) {
    |q| == |cs| && exists i :: 0 <= i < |q| && !InhabitedFor(env, q[i], cs[i])
  }

  lemma {:induction false} QueryConcat(env: seq<Family>, w: seq<nat>, qa: Row, qb: Row, ca: seq<Column>, cb: seq<Column>)
    requires ShapedRow(env, qa, |ca|) && ShapedRow(env, qb, |cb|)
    ensures ShapedRow(env, qa + qb, |ca + cb|)
    ensures QueryTotal(env, w, qa + qb, ca + cb) <= QueryTotal(env, w, qa, ca) + QueryTotal(env, w, qb, cb)
    ensures SomeEmpty(env, qa, ca) ==> QueryTotal(env, w, qa + qb, ca + cb) == QueryTotal(env, w, qa, ca)
    decreases |ca|
  {
    ShapedConcat(env, qa, qb, |ca|, |cb|);
    if |ca| == 0 {
      assert qa + qb == qb && ca + cb == cb;
    } else {
      TailShaped(env, qa, |ca|);
      assert (qa + qb)[1..] == qa[1..] + qb && (ca + cb)[1..] == ca[1..] + cb;
      QueryConcat(env, w, qa[1..], qb, ca[1..], cb);
      if SomeEmpty(env, qa, ca) && InhabitedFor(env, qa[0], ca[0]) {
        var i :| 0 <= i < |qa| && !InhabitedFor(env, qa[i], ca[i]);
        var j := i - 1;
        assert qa[1..][j] == qa[i] && ca[1..][j] == ca[i];
        assert SomeEmpty(env, qa[1..], ca[1..]);
      }
    }
  }

  ghost function SomeFor(env: seq<Family>, q: Pattern, c: Column): (v: Value)
    requires InhabitedFor(env, q, c)
    ensures ValueFor(env, v, q, c)
  {
    var v :| ValueFor(env, v, q, c);
    v
  }

  /** If every argument of a constructor has values, so has the constructor. */
  lemma ArgsInhabit(env: seq<Family>, q: Pattern, c: Column, fam: nat, tag: nat, qs: Row)
    requires Shaped(env, q) && HasCtor(env, fam, tag) && Opens([q], [c], fam, tag)
    requires qs == (if q.Ctor? then q.args else Wilds(|env[fam][tag]|)) && |qs| == |env[fam][tag]|
    ensures InhabitedFor(env, q, c) || SomeEmpty(env, qs, env[fam][tag])
  {
    var fields := env[fam][tag];
    if !SomeEmpty(env, qs, fields) {
      var args := seq(|qs|, i requires 0 <= i < |qs| => SomeFor(env, qs[i], fields[i]));
      assert ValuesFor(env, args, qs, fields);
      ConFor(env, fam, tag, args, q, c);
      assert ValueFor(env, Con(fam, tag, args), q, c);
    }
  }

  /** Opening the first column makes the reachable part of the query lighter. */
  lemma OpeningLighter(env: seq<Family>, w: seq<nat>, q: Row, cs: seq<Column>, fam: nat, tag: nat)
    requires Weighs(env, w) && ShapedRow(env, q, |cs|) && HasCtor(env, fam, tag) && Opens(q, cs, fam, tag)
    ensures var s, cs' := SpecRow(fam, tag, |env[fam][tag]|, q), env[fam][tag] + cs[1..];
            s.Some? && ShapedRow(env, s.value, |cs'|) && QueryTotal(env, w, s.value, cs') < QueryTotal(env, w, q, cs)
  {
    var fields, n := env[fam][tag], |env[fam][tag]|;
    TailShaped(env, q, |cs|);
    var qs := if q[0].Ctor? then q[0].args else Wilds(n);
    if q[0].Ctor? {
      ArgsTotal(env, w, q[0], 0);
      assert q[0].args[0..] == q[0].args && fields[0..] == fields;
    } else {
      WildsTotal(env, w, fields);
    }
    QueryConcat(env, w, qs, q[1..], fields, cs[1..]);
    ArgsInhabit(env, q[0], cs[0], fam, tag, qs);
  }

  // ---- no trap: the recursion ends ----

  /** A stack deeper than the weight of the query suffices, on every matrix the recursion can read. */
  lemma {:induction false} Ends(depth: nat, env: seq<Family>, rows: seq<Row>, q: Row, cs: seq<Column>, w: seq<nat>)
    requires Input(env, rows, q, cs) && Weighs(env, w) && depth > QueryTotal(env, w, q, cs)
    ensures Run(depth, env, rows, q, cs).Some?
    decreases depth, 2, 0
  {
    if HasWildRow(rows) || |cs| == 0 {
    } else if q[0].Ctor? {
      assert Shaped(env, q[0]);
      EndsCtor(depth, env, rows, q, cs, w, q[0].fam, q[0].tag);
    } else if cs[0].None? {
      InputDrop(env, rows, q, cs);
      assert ValueFor(env, Opaque(0), q[0], cs[0]);
      Ends(depth - 1, env, DropRows(rows), q[1..], cs[1..], w);
    } else {
      assert ColumnOk(env, cs[0]);
      EndsFrom(depth, env, rows, q, cs, w, cs[0].value, 0);
    }
  }

  lemma {:induction false} EndsCtor(depth: nat, env: seq<Family>, rows: seq<Row>, q: Row, cs: seq<Column>, w: seq<nat>, fam: nat, tag: nat)
    requires Input(env, rows, q, cs) && Weighs(env, w) && depth > QueryTotal(env, w, q, cs) && HasCtor(env, fam, tag) && Opens(q, cs, fam, tag)
    ensures depth > 0 && RunCtor(depth, env, rows, q, cs, fam, tag).Some?
    decreases depth, 0, 0
  {
    InputCtor(env, rows, q, cs, fam, tag);
    var n := |env[fam][tag]|;
    OpeningLighter(env, w, q, cs, fam, tag);
    Ends(depth - 1, env, SpecRows(fam, tag, n, rows), SpecRow(fam, tag, n, q).value, env[fam][tag] + cs[1..], w);
  }

  lemma {:induction false} EndsFrom(depth: nat, env: seq<Family>, rows: seq<Row>, q: Row, cs: seq<Column>, w: seq<nat>, fam: nat, tag: nat)
    requires Input(env, rows, q, cs) && Weighs(env, w) && depth > QueryTotal(env, w, q, cs)
    requires |cs| > 0 && cs[0] == Some(fam) && fam < |env| && tag <= |env[fam]| && q[0].Wild?
    ensures RunFrom(depth, env, rows, q, cs, fam, tag).Some?
    decreases depth, 1, |env[fam]| - tag
  {
    if tag < |env[fam]| {
      EndsCtor(depth, env, rows, q, cs, w, fam, tag);
      EndsFrom(depth, env, rows, q, cs, w, fam, tag + 1);
    }
  }

  /** One stack depth answers the question for every matrix beside the same query. */
  lemma NoTrapDecides(env: seq<Family>, q: Row, cs: seq<Column>) returns (depth: nat)
    requires FamiliesOk(env) && ColumnsOk(env, cs) && ShapedRow(env, q, |cs|) && NoTrap(env)
    ensures forall rows {:trigger Input(env, rows, q, cs)} :: Input(env, rows, q, cs) ==>
      Run(depth, env, rows, q, cs) == Some(Asked(env, rows, q, cs))
  {
    var w := FindWeights(env);
    depth := QueryTotal(env, w, q, cs) + 1;
    forall rows | Input(env, rows, q, cs) ensures Run(depth, env, rows, q, cs) == Some(Asked(env, rows, q, cs)) {
      Ends(depth, env, rows, q, cs, w);
      ExactErased(depth, env, rows, q, cs);
    }
  }

  // ---- a trap: some matrix on which it does not end ----

  /** Wildcards in the first k columns, then one row per constructor of fam: together they match everything. */
  ghost function LastColumn(env: seq<Family>, fam: nat, k: nat): (rows: seq<Row>)
    requires fam < |env|
    ensures |rows| == |env[fam]| && forall t :: 0 <= t < |rows| ==> rows[t] == Wilds(k) + [Ctor(fam, t, Wilds(|env[fam][t]|))]
  {
    seq(|env[fam]|, t requires 0 <= t < |env[fam]| => Wilds(k) + [Ctor(fam, t, Wilds(|env[fam][t]|))])
  }

  lemma LastColumnTyped(env: seq<Family>, fam: nat, cs: seq<Column>)
    requires FamiliesOk(env) && fam < |env| && ColumnsOk(env, cs)
    ensures Typed(env, LastColumn(env, fam, |cs|), Wilds(|cs| + 1), cs + [Some(fam)])
  {
    var rows, all := LastColumn(env, fam, |cs|), cs + [Some(fam)];
    forall r | 0 <= r < |rows| ensures RowOf(env, rows[r], all) {
      assert PatternOf(env, Ctor(fam, r, Wilds(|env[fam][r]|)), Some(fam));
    }
  }

  lemma LastColumnCovers(env: seq<Family>, fam: nat, cs: seq<Column>)
    requires fam < |env|
    ensures !IsUseful(env, LastColumn(env, fam, |cs|), Wilds(|cs| + 1), cs + [Some(fam)])
  {
    var rows, all := LastColumn(env, fam, |cs|), cs + [Some(fam)];
    forall vs | ValuesOf(env, vs, all) ensures SomeRowMatches(rows, vs) {
      var v := vs[|cs|];
      assert ValueOf(env, v, all[|cs|]);
      assert Matches(Ctor(fam, v.tag, Wilds(|env[fam][v.tag]|)), v);
      assert RowMatches(rows[v.tag], vs);
    }
  }

  lemma LastColumnNotWild(env: seq<Family>, fam: nat, k: nat)
    requires fam < |env|
    ensures !HasWildRow(LastColumn(env, fam, k))
  {
    var rows := LastColumn(env, fam, k);
    forall r | 0 <= r < |rows| ensures !AllWild(rows[r]) { assert rows[r][k].Ctor?; }
  }

  lemma {:induction false} SpecLastColumn(env: seq<Family>, fam: nat, k: nat, f: nat, t: nat, n: nat, m: nat)
    requires fam < |env| && m <= |env[fam]|
    ensures SpecRows(f, t, n, LastColumn(env, fam, k + 1)[..m]) == LastColumn(env, fam, n + k)[..m]
    decreases m
  {
    if m > 0 {
      var rows, spec := LastColumn(env, fam, k + 1), LastColumn(env, fam, n + k);
      SpecLastColumn(env, fam, k, f, t, n, m - 1);
      assert rows[..m][..m - 1] == rows[..m - 1];
      assert spec[..m] == spec[..m - 1] + [spec[m - 1]];
      assert rows[m - 1][1..] == Wilds(k) + [Ctor(fam, m - 1, Wilds(|env[fam][m - 1]|))];
      assert Wilds(n) + Wilds(k) == Wilds(n + k);
      assert SpecRow(f, t, n, rows[m - 1]).value == spec[m - 1];
    }
  }

  lemma SpecLast(env: seq<Family>, fam: nat, k: nat, f: nat, t: nat, n: nat)
    requires fam < |env|
    ensures SpecRows(f, t, n, LastColumn(env, fam, k + 1)) == LastColumn(env, fam, n + k)
    ensures SpecRow(f, t, n, Wilds(k + 2)) == Some(Wilds(n + k + 1))
  {
    SpecLastColumn(env, fam, k, f, t, n, |env[fam]|);
    var rows, spec := LastColumn(env, fam, k + 1), LastColumn(env, fam, n + k);
    assert rows[..|env[fam]|] == rows && spec[..|env[fam]|] == spec;
    assert Wilds(n) + Wilds(k + 2)[1..] == Wilds(n + k + 1);
  }

  lemma DropLast(env: seq<Family>, fam: nat, k: nat)
    requires fam < |env|
    ensures DropRows(LastColumn(env, fam, k + 1)) == LastColumn(env, fam, k)
  {
    var rows, spec := LastColumn(env, fam, k + 1), LastColumn(env, fam, k);
    forall r | 0 <= r < |rows| ensures rows[r][1..] == spec[r] { assert Wilds(k + 1)[1..] == Wilds(k); }
  }

  /** Behind columns that have values stands a family of the trap. */
  ghost predicate Caught(env: seq<Family>, s: set<nat>, cs: seq<Column>, i: int) {
    0 <= i < |cs| && cs[i].Some? && cs[i].value in s && LiveUpTo(env, cs, i)
  }

  /** Some constructor of the first column leaves the recursion caught. */
  lemma StaysCaught(env: seq<Family>, s: set<nat>, cs: seq<Column>, i: int) returns (t: nat, j: int)
    requires FamiliesOk(env) && Trap(env, s) && Caught(env, s, cs, i) && cs[0].Some?
    ensures HasCtor(env, cs[0].value, t) && Caught(env, s, env[cs[0].value][t] + cs[1..], j)
  {
    var f := cs[0].value;
    if i == 0 {
      assert UnfoldsWithin(env, s, f);
      var g :| g in s && Unfolds(env, f, g);
      var c, k :| LiveField(env, f, c, k) && env[f][c][k] == Some(g);
      t, j := c, k;
    } else {
      assert Inhabited(env, cs[0]);
      t := CtorOfInhabited(env, f);
      j := |env[f][t]| + i - 1;
      var cs' := env[f][t] + cs[1..];
      forall x | 0 <= x < j ensures Inhabited(env, cs'[x]) {
        if x >= |env[f][t]| { var y := x - |env[f][t]| + 1; assert cs'[x] == cs[y]; }
      }
    }
  }

  /** Once caught, no depth suffices. */
  lemma {:induction false} CaughtDiverges(depth: nat, env: seq<Family>, s: set<nat>, fam: nat, cs: seq<Column>, i: int)
    requires FamiliesOk(env) && ColumnsOk(env, cs) && Trap(env, s) && fam < |env| && Caught(env, s, cs, i)
    ensures var rows, q, all := LastColumn(env, fam, |cs|), Wilds(|cs| + 1), cs + [Some(fam)];
            Input(env, rows, q, all) && Run(depth, env, rows, q, all) == None
    decreases depth
  {
    var rows, q, all := LastColumn(env, fam, |cs|), Wilds(|cs| + 1), cs + [Some(fam)];
    LastColumnTyped(env, fam, cs);
    TypedInput(env, rows, q, all);
    if depth > 0 {
      LastColumnNotWild(env, fam, |cs|);
      if cs[0].None? {
        DropLast(env, fam, |cs| - 1);
        assert q[1..] == Wilds(|cs|) && all[1..] == cs[1..] + [Some(fam)];
        DropCaught(env, s, cs, i);
        CaughtDiverges(depth - 1, env, s, fam, cs[1..], i - 1);
      } else {
        assert ColumnOk(env, cs[0]);
        var t, j := StaysCaught(env, s, cs, i);
        FieldsOk(env, cs[0].value, t, cs);
        CaughtDiverges(depth - 1, env, s, fam, env[cs[0].value][t] + cs[1..], j);
        CaughtStep(depth, env, fam, cs, t);
        NoneBefore(depth, env, fam, cs, t, 0);
      }
    }
  }

  /** The recursion under constructor t is over a matrix of the same kind. */
  lemma CaughtStep(depth: nat, env: seq<Family>, fam: nat, cs: seq<Column>, t: nat)
    requires FamiliesOk(env) && ColumnsOk(env, cs) && fam < |env| && depth > 0 && |cs| > 0 && cs[0].Some? && HasCtor(env, cs[0].value, t)
    requires var cs' := env[cs[0].value][t] + cs[1..];
             && Input(env, LastColumn(env, fam, |cs'|), Wilds(|cs'| + 1), cs' + [Some(fam)])
             && Run(depth - 1, env, LastColumn(env, fam, |cs'|), Wilds(|cs'| + 1), cs' + [Some(fam)]) == None
    requires Input(env, LastColumn(env, fam, |cs|), Wilds(|cs| + 1), cs + [Some(fam)])
    ensures RunCtor(depth, env, LastColumn(env, fam, |cs|), Wilds(|cs| + 1), cs + [Some(fam)], cs[0].value, t) == None
  {
    var f := cs[0].value;
    var fields, all := env[f][t], cs + [Some(fam)];
    SpecLast(env, fam, |cs| - 1, f, t, |fields|);
    assert fields + all[1..] == (fields + cs[1..]) + [Some(fam)];
  }

  lemma DropCaught(env: seq<Family>, s: set<nat>, cs: seq<Column>, i: int)
    requires ColumnsOk(env, cs) && Caught(env, s, cs, i) && cs[0].None?
    ensures ColumnsOk(env, cs[1..]) && Caught(env, s, cs[1..], i - 1)
  {
    forall x | 0 <= x < i - 1 ensures Inhabited(env, cs[1..][x]) { var y := x + 1; assert Inhabited(env, cs[y]); }
    forall x | 0 <= x < |cs| - 1 ensures ColumnOk(env, cs[1..][x]) { var y := x + 1; assert ColumnOk(env, cs[y]); }
  }

  lemma NotUsefulUnder(env: seq<Family>, fam: nat, cs: seq<Column>, tag: nat)
    requires FamiliesOk(env) && ColumnsOk(env, cs) && fam < |env| && |cs| > 0 && cs[0].Some?
    ensures var rows, q, all := LastColumn(env, fam, |cs|), Wilds(|cs| + 1), cs + [Some(fam)];
            Input(env, rows, q, all) && !AskedUnder(env, rows, q, all, cs[0].value, tag)
  {
    var rows, q, all := LastColumn(env, fam, |cs|), Wilds(|cs| + 1), cs + [Some(fam)];
    LastColumnTyped(env, fam, cs);
    LastColumnCovers(env, fam, cs);
    TypedInput(env, rows, q, all);
    EraseRowsNothing(env, rows, q, all);
    UsefulForMeans(env, rows, q, all);
    if AskedUnder(env, rows, q, all, cs[0].value, tag) { UnderToWitness(env, rows, q, all, cs[0].value, tag); }
  }

  /** The constructors tried before t cannot end the search. */
  lemma {:induction false} NoneBefore(depth: nat, env: seq<Family>, fam: nat, cs: seq<Column>, t: nat, from: nat)
    requires FamiliesOk(env) && ColumnsOk(env, cs) && fam < |env| && depth > 0 && |cs| > 0 && cs[0].Some?
    requires HasCtor(env, cs[0].value, t) && from <= t
    requires var rows, q, all := LastColumn(env, fam, |cs|), Wilds(|cs| + 1), cs + [Some(fam)];
             Input(env, rows, q, all) && RunCtor(depth, env, rows, q, all, cs[0].value, t) == None
    ensures RunFrom(depth, env, LastColumn(env, fam, |cs|), Wilds(|cs| + 1), cs + [Some(fam)], cs[0].value, from) == None
    decreases t - from
  {
    var rows, q, all := LastColumn(env, fam, |cs|), Wilds(|cs| + 1), cs + [Some(fam)];
    if from < t {
      NoneBefore(depth, env, fam, cs, t, from + 1);
      NotUsefulUnder(env, fam, cs, from);
      ExactCtor(depth, env, rows, q, all, cs[0].value, from);
      var r := RunCtor(depth, env, rows, q, all, cs[0].value, from);
      assert r == None || r == Some(false);
    }
  }

  ghost predicate Answers(depth: nat, env: seq<Family>, rows: seq<Row>, q: Row, cs: seq<Column>) {
    Input(env, rows, q, cs) && Run(depth, env, rows, q, cs).Some?
  }

  /** The recursion ends on every matrix over the families that it can read. */
  ghost predicate AlwaysEnds(env: seq<Family>) {
    forall rows, q, cs {:trigger Input(env, rows, q, cs)} :: Input(env, rows, q, cs) ==> exists depth: nat :: Answers(depth, env, rows, q, cs)
  }

  /** The recursion ends on every well-typed matrix over the families. */
  ghost predicate EndsOnTyped(env: seq<Family>) {
    forall rows, q, cs {:trigger Typed(env, rows, q, cs)} :: Typed(env, rows, q, cs) ==> exists depth: nat :: Answers(depth, env, rows, q, cs)
  }

  /** Both hold exactly when no family can be unfolded forever. */
  lemma EndsIffNoTrap(env: seq<Family>)
    requires FamiliesOk(env)
    ensures AlwaysEnds(env) <==> NoTrap(env)
    ensures EndsOnTyped(env) <==> NoTrap(env)
  {
    if NoTrap(env) {
      forall rows, q, cs | Input(env, rows, q, cs) ensures exists depth: nat :: Answers(depth, env, rows, q, cs) {
        var depth := NoTrapDecides(env, q, cs);
        assert Answers(depth, env, rows, q, cs);
      }
      forall rows, q, cs | Typed(env, rows, q, cs) ensures exists depth: nat :: Answers(depth, env, rows, q, cs) { TypedInput(env, rows, q, cs); }
    }
    if s :| Trap(env, s) { TrapDiverges(env, s); }
  }

  lemma TrapDiverges(env: seq<Family>, s: set<nat>)
    requires FamiliesOk(env) && Trap(env, s)
    ensures !AlwaysEnds(env) && !EndsOnTyped(env)
  {
    var f :| f in s;
    var cs := [Some(f)];
    LastColumnTyped(env, f, cs);
    TypedInput(env, LastColumn(env, f, 1), Wilds(2), cs + [Some(f)]);
    forall depth: nat ensures !Answers(depth, env, LastColumn(env, f, 1), Wilds(2), cs + [Some(f)]) {
      CaughtDiverges(depth, env, s, f, cs, 0);
    }
  }

  // ---- the same for whole matches ----

  /** The families with a type of pairs over f declared beside them. */
  ghost function WithPair(env: seq<Family>, f: nat): seq<Family> {
    env + [[[Some(f), Some(f)]]]
  }

  /** The clauses Pair(_, c(_, ..)) for every constructor c of f. */
  ghost function PairRows(env: seq<Family>, f: nat): (rows: seq<Row>)
    requires f < |env|
    ensures |rows| == |env[f]| && forall t :: 0 <= t < |rows| ==> rows[t] == [Ctor(|env|, 0, [Wild, Ctor(f, t, Wilds(|env[f][t]|))])]
  {
    seq(|env[f]|, t requires 0 <= t < |env[f]| => [Ctor(|env|, 0, [Wild, Ctor(f, t, Wilds(|env[f][t]|))])])
  }

  lemma WithPairOk(env: seq<Family>, f: nat)
    requires FamiliesOk(env) && f < |env|
    ensures FamiliesOk(WithPair(env, f)) && forall g :: 0 <= g < |env| ==> WithPair(env, f)[g] == env[g]
  {
    var env' := WithPair(env, f);
    forall g, c | 0 <= g < |env'| && 0 <= c < |env'[g]| ensures ColumnsOk(env', env'[g][c]) {
      if g < |env| {
        assert ColumnsOk(env, env[g][c]);
        forall i | 0 <= i < |env[g][c]| ensures ColumnOk(env', env'[g][c][i]) { assert ColumnOk(env, env[g][c][i]); }
      }
    }
  }

  lemma {:induction false} ValueStays(env: seq<Family>, f: nat, v: Value, c: Column)
    requires f < |env| && ValueOf(env, v, c)
    ensures ValueOf(WithPair(env, f), v, c)
    decreases v
  {
    if v.Con? {
      forall i | 0 <= i < |v.args| ensures ValueOf(WithPair(env, f), v.args[i], env[v.fam][v.tag][i]) { ValueStays(env, f, v.args[i], env[v.fam][v.tag][i]); }
    }
  }

  /** A column of the old families that has values had them before. */
  lemma {:induction false} ValueWas(env: seq<Family>, f: nat, v: Value, c: Column) returns (u: Value)
    requires FamiliesOk(env) && f < |env| && ColumnOk(env, c) && ValueOf(WithPair(env, f), v, c)
    ensures ValueOf(env, u, c)
    decreases v
  {
    if c.None? {
      u := Opaque(0);
    } else {
      var fields := env[v.fam][v.tag];
      assert ColumnsOk(env, fields);
      forall i | 0 <= i < |v.args| ensures Inhabited(env, fields[i]) {
        assert ColumnOk(env, fields[i]);
        var w := ValueWas(env, f, v.args[i], fields[i]);
      }
      var args := seq(|fields|, i requires 0 <= i < |fields| => SomeValue(env, fields[i]));
      u := Con(v.fam, v.tag, args);
    }
  }

  lemma SameInhabited(env: seq<Family>, f: nat, c: Column)
    requires FamiliesOk(env) && f < |env| && ColumnOk(env, c)
    ensures Inhabited(WithPair(env, f), c) <==> Inhabited(env, c)
  {
    if v :| ValueOf(env, v, c) { ValueStays(env, f, v, c); }
    if v :| ValueOf(WithPair(env, f), v, c) { var u := ValueWas(env, f, v, c); }
  }

  lemma SameUnfolds(env: seq<Family>, f: nat, g: nat, h: nat)
    requires FamiliesOk(env) && f < |env| && g < |env|
    ensures Unfolds(WithPair(env, f), g, h) <==> Unfolds(env, g, h)
    ensures Unfolds(env, g, h) ==> h < |env|
  {
    var env' := WithPair(env, f);
    WithPairOk(env, f);
    forall c, i | 0 <= c < |env[g]| && 0 <= i < |env[g][c]| ensures LiveField(env', g, c, i) <==> LiveField(env, g, c, i) {
      assert ColumnsOk(env, env[g][c]);
      forall j | 0 <= j < i ensures Inhabited(env', env[g][c][j]) <==> Inhabited(env, env[g][c][j]) {
        assert ColumnOk(env, env[g][c][j]);
        SameInhabited(env, f, env[g][c][j]);
      }
    }
    if c, i :| LiveField(env, g, c, i) && env[g][c][i] == Some(h) { assert ColumnsOk(env, env[g][c]) && ColumnOk(env, env[g][c][i]) && LiveField(env', g, c, i); }
    if c, i :| LiveField(env', g, c, i) && env'[g][c][i] == Some(h) { assert LiveField(env, g, c, i); }
  }

  /** Declaring pairs neither adds nor removes traps. */
  lemma SameTraps(env: seq<Family>, f: nat)
    requires FamiliesOk(env) && f < |env|
    ensures NoTrap(WithPair(env, f)) <==> NoTrap(env)
  {
    if s :| Trap(env, s) { TrapStays(env, f, s); }
    if s :| Trap(WithPair(env, f), s) { TrapWas(env, f, s); }
  }

  lemma TrapStays(env: seq<Family>, f: nat, s: set<nat>)
    requires FamiliesOk(env) && f < |env| && Trap(env, s)
    ensures Trap(WithPair(env, f), s)
  {
    forall g | g in s ensures UnfoldsWithin(WithPair(env, f), s, g) {
      assert UnfoldsWithin(env, s, g);
      var h :| h in s && Unfolds(env, g, h);
      SameUnfolds(env, f, g, h);
    }
  }

  lemma TrapWas(env: seq<Family>, f: nat, s: set<nat>)
    requires FamiliesOk(env) && f < |env| && Trap(WithPair(env, f), s)
    ensures Trap(env, s - {|env|})
  {
    var env', old' := WithPair(env, f), s - {|env|};
    if |env| in s {
      assert UnfoldsWithin(env', s, |env|);
      var h :| h in s && Unfolds(env', |env|, h);
      assert h == f;
      assert f in old';
    } else {
      assert old' == s;
    }
    forall g | g in old' ensures UnfoldsWithin(env, old', g) {
      assert UnfoldsWithin(env', s, g);
      var h :| h in s && Unfolds(env', g, h);
      SameUnfolds(env, f, g, h);
    }
  }

  lemma PairRowsTyped(env: seq<Family>, f: nat)
    requires FamiliesOk(env) && f < |env|
    ensures Typed(WithPair(env, f), PairRows(env, f), [Wild], [Some(|env|)])
    ensures !IsUseful(WithPair(env, f), PairRows(env, f), [Wild], [Some(|env|)])
  {
    WithPairOk(env, f);
    var env', rows := WithPair(env, f), PairRows(env, f);
    forall t | 0 <= t < |rows| ensures RowOf(env', rows[t], [Some(|env|)]) {
      var p := Ctor(f, t, Wilds(|env[f][t]|));
      assert PatternOf(env', p, Some(f));
      assert PatternOf(env', Ctor(|env|, 0, [Wild, p]), Some(|env|)) by {
        forall i | 0 <= i < 2 ensures PatternOf(env', [Wild, p][i], env'[|env|][0][i]) {}
      }
    }
    forall vs | ValuesOf(env', vs, [Some(|env|)]) ensures SomeRowMatches(rows, vs) { PairMatched(env, f, vs[0]); assert vs == [vs[0]]; }
  }

  lemma PairMatched(env: seq<Family>, f: nat, v: Value)
    requires FamiliesOk(env) && f < |env| && ValueOf(WithPair(env, f), v, Some(|env|))
    ensures SomeRowMatches(PairRows(env, f), [v])
  {
    var env' := WithPair(env, f);
    WithPairOk(env, f);
    assert v.tag == 0 && |v.args| == 2 && env'[|env|][0] == [Some(f), Some(f)];
    var u := v.args[1];
    assert ValueOf(env', u, env'[|env|][0][1]);
    var p := Ctor(f, u.tag, Wilds(|env[f][u.tag]|));
    assert Matches(p, u);
    assert Matches(Ctor(|env|, 0, [Wild, p]), v);
    assert RowMatches(PairRows(env, f)[u.tag], [v]);
  }

  lemma {:induction false} SpecPairRows(env: seq<Family>, f: nat, m: nat)
    requires f < |env| && m <= |env[f]|
    ensures SpecRows(|env|, 0, 2, PairRows(env, f)[..m]) == LastColumn(WithPair(env, f), f, 1)[..m]
    decreases m
  {
    if m > 0 {
      var rows, last := PairRows(env, f), LastColumn(WithPair(env, f), f, 1);
      SpecPairRows(env, f, m - 1);
      assert rows[..m][..m - 1] == rows[..m - 1] && last[..m] == last[..m - 1] + [last[m - 1]];
      assert WithPair(env, f)[f] == env[f] && Wilds(1) == [Wild];
      var s, p := SpecRow(|env|, 0, 2, rows[m - 1]), Ctor(f, m - 1, Wilds(|env[f][m - 1]|));
      assert s.Some? && s.value == [Wild, p] + [];
      assert last[m - 1] == [Wild] + [p] == s.value;
    }
  }

  /** If f can be unfolded forever, the exhaustive match of a pair on its second component never ends. */
  lemma PairDiverges(depth: nat, env: seq<Family>, s: set<nat>, f: nat)
    requires FamiliesOk(env) && Trap(env, s) && f in s
    ensures var env', rows, cs := WithPair(env, f), PairRows(env, f), [Some(|env|)];
            Typed(env', rows, [Wild], cs) && !IsUseful(env', rows, [Wild], cs) && Input(env', rows, [Wild], cs) && Run(depth, env', rows, [Wild], cs) == None
  {
    var env', rows, cs := WithPair(env, f), PairRows(env, f), [Some(|env|)];
    PairRowsTyped(env, f);
    TypedInput(env', rows, [Wild], cs);
    if depth > 0 {
      forall t | 0 <= t < |rows| ensures !AllWild(rows[t]) { assert rows[t][0].Ctor?; }
      PairCtor(depth, env, s, f);
      assert RunFrom(depth, env', rows, [Wild], cs, |env|, 0) == RunCtor(depth, env', rows, [Wild], cs, |env|, 0);
    }
  }

  lemma PairCtor(depth: nat, env: seq<Family>, s: set<nat>, f: nat)
    requires depth > 0 && FamiliesOk(env) && Trap(env, s) && f in s
    requires Input(WithPair(env, f), PairRows(env, f), [Wild], [Some(|env|)])
    ensures RunCtor(depth, WithPair(env, f), PairRows(env, f), [Wild], [Some(|env|)], |env|, 0) == None
  {
    var env', rows, cs := WithPair(env, f), PairRows(env, f), [Some(|env|)];
    WithPairOk(env, f);
    TrapStays(env, f, s);
    SpecPairRows(env, f, |env[f]|);
    assert rows[..|env[f]|] == rows && LastColumn(env', f, 1)[..|env[f]|] == LastColumn(env', f, 1);
    assert SpecRow(|env|, 0, 2, [Wild]).value == Wilds(2);
    assert env'[|env|][0] + cs[1..] == [Some(f)] + [Some(f)];
    CaughtDiverges(depth - 1, env', s, f, [Some(f)], 0);
  }

  /** Asking whether a match is exhaustive ends, for every type and every list of clauses it can read. */
  ghost predicate MatchesEnd(env: seq<Family>) {
    forall rows, fam: nat {:trigger Input(env, rows, [Wild], [Some(fam)])} ::
      Input(env, rows, [Wild], [Some(fam)]) ==> exists depth: nat :: Answers(depth, env, rows, [Wild], [Some(fam)])
  }

  /** It does, with pairs of any one family declared beside the families, exactly when no family can be unfolded forever. */
  lemma MatchesEndIffNoTrap(env: seq<Family>)
    requires FamiliesOk(env)
    ensures NoTrap(env) <==> forall f :: 0 <= f < |env| ==> MatchesEnd(WithPair(env, f))
  {
    if NoTrap(env) {
      forall f | 0 <= f < |env| ensures MatchesEnd(WithPair(env, f)) {
        SameTraps(env, f);
        WithPairOk(env, f);
        EndsIffNoTrap(WithPair(env, f));
      }
    }
    if s :| Trap(env, s) {
      var f :| f in s;
      PairRowsTyped(env, f);
      TypedInput(WithPair(env, f), PairRows(env, f), [Wild], [Some(|env|)]);
      forall depth: nat ensures !Answers(depth, WithPair(env, f), PairRows(env, f), [Wild], [Some(|env|)]) { PairDiverges(depth, env, s, f); }
      assert !MatchesEnd(WithPair(env, f));
    }
  }

  /** list = Nil | Cons(a, list). */
  ghost function Lists(): seq<Family> {
    [[[], [None, Some(0)]]]
  }

  lemma ListTrap()
    ensures FamiliesOk(Lists()) && Trap(Lists(), {0})
  {
    var env := Lists();
    forall f, c | 0 <= f < |env| && 0 <= c < |env[f]| ensures ColumnsOk(env, env[f][c]) {}
    assert ValueOf(env, Opaque(0), env[0][1][0]);
    assert LiveField(env, 0, 1, 1);
    assert Unfolds(env, 0, 0);
    assert UnfoldsWithin(env, {0}, 0);
  }

  /** The match of a pair of lists against Pair(_, Nil) and Pair(_, Cons(_, _)) is exhaustive,
      and asking whether it is never ends. */
  lemma RecursiveFamilyDiverges(depth: nat)
    ensures var env, rows, cs := WithPair(Lists(), 0), [[Ctor(1, 0, [Wild, Ctor(0, 0, [])])], [Ctor(1, 0, [Wild, Ctor(0, 1, [Wild, Wild])])]], [Some(1)];
            && Typed(env, rows, [Wild], cs) && !IsUseful(env, rows, [Wild], cs)
            && Input(env, rows, [Wild], cs) && Run(depth, env, rows, [Wild], cs) == None
  {
    ListTrap();
    PairDiverges(depth, Lists(), {0}, 0);
    var rows := PairRows(Lists(), 0);
    assert Wilds(0) == [] && Wilds(2) == [Wild, Wild];
    assert rows == [rows[0], rows[1]];
  }

  // ---- constructor patterns under a type parameter ----

  /** bool = False | True and option = None | Some(a). */
  ghost function BoolsAndOptions(): seq<Family> {
    [[[], []], [[], [None]]]
  }

  /** Constructor patterns in a column without a family are ignored: None and Some(True) pass for
      exhaustive although Some(False) is unmatched. */
  lemma TypeParameterColumn()
    ensures var env, rows, cs := BoolsAndOptions(), [[Ctor(1, 0, [])], [Ctor(1, 1, [Ctor(0, 1, [])])]], [Some(1)];
            && Input(env, rows, [Wild], cs) && Run(4, env, rows, [Wild], cs) == Some(false)
            && Witness(env, rows, [Wild], cs, [Con(1, 1, [Con(0, 0, [])])])
  {
    var env, rows, cs := BoolsAndOptions(), [[Ctor(1, 0, [])], [Ctor(1, 1, [Ctor(0, 1, [])])]], [Some(1)];
    assert Shaped(env, Ctor(0, 1, [])) && Shaped(env, Ctor(1, 0, [])) && Shaped(env, Ctor(1, 1, [Ctor(0, 1, [])])) && Shaped(env, Wild);
    forall f, c | 0 <= f < |env| && 0 <= c < |env[f]| ensures ColumnsOk(env, env[f][c]) {}
    assert Input(env, rows, [Wild], cs);
    assert !rows[0][0].Wild? && !rows[1][0].Wild?;
    assert !HasWildRow(rows);
    NoneBranch();
    SomeBranch();
    var v := Con(1, 1, [Con(0, 0, [])]);
    assert ValueOf(env, v, Some(1));
    assert !Matches(rows[0][0], v) && !Matches(rows[1][0], v);
  }

  lemma NoneBranch()
    ensures var env, rows, cs := BoolsAndOptions(), [[Ctor(1, 0, [])], [Ctor(1, 1, [Ctor(0, 1, [])])]], [Some(1)];
            Input(env, rows, [Wild], cs) ==> RunCtor(4, env, rows, [Wild], cs, 1, 0) == Some(false)
  {
    var env, rows, cs := BoolsAndOptions(), [[Ctor(1, 0, [])], [Ctor(1, 1, [Ctor(0, 1, [])])]], [Some(1)];
    var spec := SpecRows(1, 0, 0, rows);
    assert rows[..1] == [rows[0]] && [rows[0]][..0] == [];
    assert SpecRows(1, 0, 0, [rows[0]]) == [[]];
    assert spec == [[]];
    assert AllWild(spec[0]);
  }

  lemma SomeBranch()
    ensures var env, rows, cs := BoolsAndOptions(), [[Ctor(1, 0, [])], [Ctor(1, 1, [Ctor(0, 1, [])])]], [Some(1)];
            Input(env, rows, [Wild], cs) ==> RunCtor(4, env, rows, [Wild], cs, 1, 1) == Some(false)
  {
    var env, rows, cs := BoolsAndOptions(), [[Ctor(1, 0, [])], [Ctor(1, 1, [Ctor(0, 1, [])])]], [Some(1)];
    if Input(env, rows, [Wild], cs) {
      var t := Ctor(0, 1, []);
      assert rows[..1] == [rows[0]] && [rows[0]][..0] == [];
      assert SpecRows(1, 1, 1, [rows[0]]) == [];
      assert SpecRow(1, 1, 1, rows[1]).value == [t];
      assert SpecRows(1, 1, 1, rows) == [[t]];
      assert SpecRow(1, 1, 1, [Wild]).value == [Wild];
      assert env[1][1] + cs[1..] == [None];
      InputCtor(env, rows, [Wild], cs, 1, 1);
      assert !AllWild([t]) by { assert [t][0] == t; }
      var d := DropRows([[t]]);
      assert d == [[]] && AllWild(d[0]);
      assert Run(3, env, [[t]], [Wild], [None]) == Some(false);
    }
  }
}
