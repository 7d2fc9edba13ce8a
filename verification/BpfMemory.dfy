/** The guest address space of libbpf (src/mem.c): a table of disjoint, permission-checked
    regions behind byte-wise little-endian loads and stores. */
module BpfMemory {
  import opened Common

  const W64: nat := 0x1_0000_0000_0000_0000
  const MAX_REGIONS: nat := 4

  datatype Error = BadAddress | NoPermission | BadSize
  datatype Result<T> = Ok(value: T) | Err(error: Error)

  datatype Kind = Input | Const | Mem | Stack
  datatype Config = Config(kind: Kind, guest: nat, len: nat, init: seq<Byte>)
  datatype Region = Region(base: nat, bytes: seq<Byte>, writable: bool)

  // ---- little-endian numbers ----

  function Pow256(n: nat): nat {
    if n == 0 then 1 else 256 * Pow256(n - 1)
  }

  function LeValue(b: seq<Byte>): nat {
    if b == [] then 0 else b[0] + 256 * LeValue(b[1..])
  }

  function LeBytes(v: nat, w: nat): (b: seq<Byte>)
    ensures |b| == w
  {
    if w == 0 then [] else [v % 256] + LeBytes(v / 256, w - 1)
  }

  lemma {:induction false} LeRoundTrip(v: nat, w: nat)
    ensures Pow256(w) > 0 && LeValue(LeBytes(v, w)) == v % Pow256(w)
    decreases w
  {
    if w > 0 {
      LeRoundTrip(v / 256, w - 1);
      assert LeBytes(v, w)[1..] == LeBytes(v / 256, w - 1);
      DivModStep(v, Pow256(w - 1));
    }
  }

  lemma DivModStep(v: nat, p: nat)
    requires p > 0
    ensures v % (256 * p) == v % 256 + 256 * ((v / 256) % p)
  {
    var q, r := v / 256, v % 256;
    var a, c := q / p, q % p;
    assert v == 256 * q + r && q == p * a + c;
    assert v == (256 * p) * a + (256 * c + r);
    assert 0 <= 256 * c + r < 256 * p;
    ModUnique(v, 256 * p, a, 256 * c + r);
  }

  lemma ModUnique(v: nat, m: nat, a: nat, r: nat)
    requires r < m && v == m * a + r
    ensures v % m == r
  {
    var q, s := v / m, v % m;
    assert v == m * q + s;
    QuotientUnique(m, a, r, q, s);
  }

  lemma QuotientUnique(m: nat, a: nat, r: nat, q: nat, s: nat)
    requires r < m && s < m && m * a + r == m * q + s
    ensures a == q && r == s
  {
    assert m * (a - q) == m * a - m * q;
    if a > q { Grows(m, a - q); }
    if q > a { assert m * (q - a) == m * q - m * a; Grows(m, q - a); }
  }

  lemma Grows(m: nat, x: nat)
    requires x >= 1
    ensures m * x >= m
  {
    assert m * x == m * (x - 1) + m;
  }

  lemma {:induction false} LeBytesRoundTrip(b: seq<Byte>)
    ensures LeBytes(LeValue(b), |b|) == b
    decreases |b|
  {
    if b != [] {
      LeBytesRoundTrip(b[1..]);
      var x: nat, y: nat := b[0], LeValue(b[1..]);
      assert (x + 256 * y) % 256 == x && (x + 256 * y) / 256 == y;
      assert b == [b[0]] + b[1..];
    }
  }

  lemma {:induction false} LeValueBound(b: seq<Byte>)
    ensures LeValue(b) < Pow256(|b|)
    decreases |b|
  {
    if b != [] { LeValueBound(b[1..]); }
  }

  lemma {:induction false} LeValueSnoc(b: seq<Byte>, x: Byte)
    ensures LeValue(b + [x]) == LeValue(b) + x * Pow256(|b|)
    decreases |b|
  {
    if b == [] {
      assert b + [x] == [x];
    } else {
      assert (b + [x])[1..] == b[1..] + [x];
      LeValueSnoc(b[1..], x);
      assert 256 * (x * Pow256(|b| - 1)) == x * (256 * Pow256(|b| - 1));
    }
  }

  /** The low bytes come first: fewer bytes of a number are the first of more. */
  lemma {:induction false} LowBytesFirst(v: nat, w: nat, k: nat)
    requires k <= w
    ensures LeBytes(v, w)[..k] == LeBytes(v, k)
    decreases w
  {
    if k > 0 { LowBytesFirst(v / 256, w - 1, k - 1); }
  }

  // ---- region tables ----

  ghost predicate RegionOk(r: Region) {
    0 < r.base && 0 < |r.bytes| && r.base + |r.bytes| < W64
  }

  ghost predicate Apart(a: nat, alen: nat, b: nat, blen: nat) {
    a + alen <= b || b + blen <= a
  }

  /** Non-wrapping, non-empty, pairwise disjoint, and away from address zero. */
  ghost predicate RegionsOk(rs: seq<Region>) {
    && |rs| <= MAX_REGIONS
    && (forall i :: 0 <= i < |rs| ==> RegionOk(rs[i]))
    && (forall i, j :: 0 <= i < j < |rs| ==> Apart(rs[i].base, |rs[i].bytes|, rs[j].base, |rs[j].bytes|))
  }

  ghost predicate Holds(rs: seq<Region>, j: int, a: int) {
    0 <= j < |rs| && rs[j].base <= a < rs[j].base + |rs[j].bytes|
  }

  /** The whole interval lies in region j. */
  predicate Fits(rs: seq<Region>, j: int, a: nat, w: nat) {
    0 <= j < |rs| && rs[j].base <= a && a + w <= rs[j].base + |rs[j].bytes|
  }

  /** bpf_mem_resolve: the first region that holds the whole interval. */
  function FindFit(rs: seq<Region>, a: nat, w: nat, from: nat): Option<nat>
    requires from <= |rs|
    decreases |rs| - from
  {
    if from == |rs| then None
    else if Fits(rs, from, a, w) then Some(from)
    else FindFit(rs, a, w, from + 1)
  }

  lemma {:induction false} FindFitFinds(rs: seq<Region>, a: nat, w: nat, from: nat)
    requires from <= |rs|
    ensures FindFit(rs, a, w, from).Some? ==> Fits(rs, FindFit(rs, a, w, from).value, a, w)
    ensures FindFit(rs, a, w, from).None? ==> forall j :: from <= j < |rs| ==> !Fits(rs, j, a, w)
    decreases |rs| - from
  {
    if from < |rs| && !Fits(rs, from, a, w) { FindFitFinds(rs, a, w, from + 1); }
  }

  lemma PairApart(rs: seq<Region>, i: int, j: int)
    requires RegionsOk(rs) && 0 <= i < |rs| && 0 <= j < |rs|
    ensures i != j ==> Apart(rs[i].base, |rs[i].bytes|, rs[j].base, |rs[j].bytes|)
  {
    if i < j {
      assert Apart(rs[i].base, |rs[i].bytes|, rs[j].base, |rs[j].bytes|);
    } else if j < i {
      assert Apart(rs[j].base, |rs[j].bytes|, rs[i].base, |rs[i].bytes|);
    }
  }

  /** A nonempty interval resolves in at most one region. */
  lemma FitsUnique(rs: seq<Region>, i: int, j: int, a: nat, w: nat)
    requires RegionsOk(rs) && w > 0 && Fits(rs, i, a, w) && Fits(rs, j, a, w)
    ensures i == j
  {
    PairApart(rs, i, j);
  }

  function Resolve(rs: seq<Region>, a: nat, w: nat, write: bool): Result<nat> {
    var j := FindFit(rs, a, w, 0);
    FindFitFinds(rs, a, w, 0);
    if j.None? then Err(BadAddress)
    else if write && !rs[j.value].writable then Err(NoPermission)
    else Ok(j.value)
  }

  predicate WidthOk(w: nat) {
    w == 1 || w == 2 || w == 4 || w == 8
  }

  // ---- loads and stores on the table ----

  function LoadSpec(rs: seq<Region>, a: nat, w: nat): Result<nat> {
    if !WidthOk(w) then Err(BadSize)
    else
      FindFitFinds(rs, a, w, 0);
      match Resolve(rs, a, w, false)
      case Err(e) => Err(e)
      case Ok(j) => Ok(LeValue(rs[j].bytes[a - rs[j].base..a - rs[j].base + w]))
  }

  /** The bytes of the region with w of them replaced from offset d on. */
  function Patched(bytes: seq<Byte>, d: nat, patch: seq<Byte>): (r: seq<Byte>)
    requires d + |patch| <= |bytes|
    ensures |r| == |bytes| && r[d..d + |patch|] == patch
    ensures forall i :: 0 <= i < |bytes| && !(d <= i < d + |patch|) ==> r[i] == bytes[i]
  {
    bytes[..d] + patch + bytes[d + |patch|..]
  }

  function StoreSpec(rs: seq<Region>, a: nat, w: nat, v: nat): Result<seq<Region>> {
    if !WidthOk(w) then Err(BadSize)
    else
      FindFitFinds(rs, a, w, 0);
      match Resolve(rs, a, w, true)
      case Err(e) => Err(e)
      case Ok(j) => Ok(rs[j := rs[j].(bytes := Patched(rs[j].bytes, a - rs[j].base, LeBytes(v, w)))])
  }

  // ---- the flat view ----

  datatype Cell = Cell(region: nat, value: Byte, writable: bool)

  /** The guest's byte map: which region an address belongs to, its byte and whether it may be written. */
  ghost function At(rs: seq<Region>, a: nat): (c: Option<Cell>)
    ensures c.Some? ==> Holds(rs, c.value.region, a) && c.value.value == rs[c.value.region].bytes[a - rs[c.value.region].base]
                        && c.value.writable == rs[c.value.region].writable
    ensures c.None? ==> forall j :: !Holds(rs, j, a)
  {
    FindFitFinds(rs, a, 1, 0);
    var j := FindFit(rs, a, 1, 0);
    if j.None? then (assert forall k :: Holds(rs, k, a) ==> Fits(rs, k, a, 1); None)
    else Some(Cell(j.value, rs[j.value].bytes[a - rs[j.value].base], rs[j.value].writable))
  }

  lemma AtUnique(rs: seq<Region>, j: nat, a: nat)
    requires RegionsOk(rs) && Holds(rs, j, a)
    ensures At(rs, a) == Some(Cell(j, rs[j].bytes[a - rs[j].base], rs[j].writable))
  {
    FitsUnique(rs, j, At(rs, a).value.region, a, 1);
  }

  lemma ZeroUnmapped(rs: seq<Region>)
    requires RegionsOk(rs)
    ensures At(rs, 0).None?
  {
    forall j ensures !Holds(rs, j, 0) { if 0 <= j < |rs| { assert RegionOk(rs[j]); } }
  }

  /** All the bytes of the interval belong to region j. */
  ghost predicate AllIn(rs: seq<Region>, j: nat, a: nat, w: nat) {
    forall x {:trigger At(rs, x)} :: a <= x < a + w ==> At(rs, x).Some? && At(rs, x).value.region == j
  }

  /** The table resolves an interval exactly when the byte map gives all its bytes to one region. */
  lemma FitsIffAllIn(rs: seq<Region>, j: nat, a: nat, w: nat)
    requires RegionsOk(rs) && w > 0 && j < |rs|
    ensures Fits(rs, j, a, w) <==> AllIn(rs, j, a, w)
  {
    if Fits(rs, j, a, w) {
      forall x | a <= x < a + w ensures At(rs, x).Some? && At(rs, x).value.region == j { AtUnique(rs, j, x); }
    }
    if AllIn(rs, j, a, w) {
      var last := a + w - 1;
      assert At(rs, a).Some? && At(rs, last).Some?;
    }
  }

  ghost predicate OneRegion(rs: seq<Region>, a: nat, w: nat) {
    exists j: nat :: j < |rs| && AllIn(rs, j, a, w)
  }

  /** What a load of the byte map would return. */
  ghost function FlatBytes(rs: seq<Region>, a: nat, w: nat): (b: seq<Byte>)
    requires OneRegion(rs, a, w)
    ensures |b| == w && forall k :: 0 <= k < w ==> b[k] == At(rs, a + k).value.value
  {
    seq(w, k requires 0 <= k < w => At(rs, a + k).value.value)
  }

  lemma FindFitAllIn(rs: seq<Region>, a: nat, w: nat)
    requires RegionsOk(rs) && w > 0
    ensures FindFit(rs, a, w, 0).Some? <==> OneRegion(rs, a, w)
    ensures FindFit(rs, a, w, 0).Some? ==> FindFit(rs, a, w, 0).value < |rs| && AllIn(rs, FindFit(rs, a, w, 0).value, a, w)
  {
    FindFitFinds(rs, a, w, 0);
    if FindFit(rs, a, w, 0).Some? { FitsIffAllIn(rs, FindFit(rs, a, w, 0).value, a, w); }
    if j: nat :| j < |rs| && AllIn(rs, j, a, w) { FitsIffAllIn(rs, j, a, w); }
  }

  /** A load succeeds exactly on intervals inside one region, and reads the byte map. */
  lemma LoadIsFlat(rs: seq<Region>, a: nat, w: nat)
    requires RegionsOk(rs) && WidthOk(w)
    ensures LoadSpec(rs, a, w).Ok? <==> OneRegion(rs, a, w)
    ensures LoadSpec(rs, a, w).Ok? ==> LoadSpec(rs, a, w).value == LeValue(FlatBytes(rs, a, w)) && LoadSpec(rs, a, w).value < Pow256(w)
  {
    FindFitAllIn(rs, a, w);
    FindFitFinds(rs, a, w, 0);
    var found := FindFit(rs, a, w, 0);
    if found.Some? {
      var j := found.value;
      var d := a - rs[j].base;
      var got, want := rs[j].bytes[d..d + w], FlatBytes(rs, a, w);
      forall k | 0 <= k < w ensures got[k] == want[k] { var x := a + k; AtUnique(rs, j, x); }
      assert got == want;
      LeValueBound(got);
    }
  }

  ghost predicate SameShape(rs: seq<Region>, rs': seq<Region>) {
    |rs| == |rs'| && forall j :: 0 <= j < |rs| ==> rs[j].base == rs'[j].base && |rs[j].bytes| == |rs'[j].bytes| && rs[j].writable == rs'[j].writable
  }

  lemma SameShapeOk(rs: seq<Region>, rs': seq<Region>)
    requires RegionsOk(rs) && SameShape(rs, rs')
    ensures RegionsOk(rs')
  {
    forall i | 0 <= i < |rs'| ensures RegionOk(rs'[i]) { assert RegionOk(rs[i]); }
    forall i, j | 0 <= i < j < |rs'| ensures Apart(rs'[i].base, |rs'[i].bytes|, rs'[j].base, |rs'[j].bytes|) {
      assert Apart(rs[i].base, |rs[i].bytes|, rs[j].base, |rs[j].bytes|);
    }
  }

  /** The byte map after writing b at a. */
  ghost predicate Written(rs: seq<Region>, rs': seq<Region>, a: nat, b: seq<Byte>) {
    forall x: nat {:trigger At(rs', x)} ::
      At(rs', x) == if a <= x < a + |b| && At(rs, x).Some? then Some(At(rs, x).value.(value := b[x - a])) else At(rs, x)
  }

  lemma StoreWrites(rs: seq<Region>, a: nat, w: nat, v: nat)
    requires RegionsOk(rs) && StoreSpec(rs, a, w, v).Ok?
    ensures var rs' := StoreSpec(rs, a, w, v).value; RegionsOk(rs') && SameShape(rs, rs') && Written(rs, rs', a, LeBytes(v, w))
  {
    FindFitFinds(rs, a, w, 0);
    var j := FindFit(rs, a, w, 0).value;
    var rs' := StoreSpec(rs, a, w, v).value;
    SameShapeOk(rs, rs');
    forall x: nat ensures At(rs', x) == if a <= x < a + w && At(rs, x).Some? then Some(At(rs, x).value.(value := LeBytes(v, w)[x - a])) else At(rs, x) {
      WrittenAt(rs, rs', j, a, LeBytes(v, w), x);
    }
  }

  lemma WrittenAt(rs: seq<Region>, rs': seq<Region>, j: nat, a: nat, b: seq<Byte>, x: nat)
    requires RegionsOk(rs) && RegionsOk(rs') && |b| > 0 && Fits(rs, j, a, |b|)
    requires rs' == rs[j := rs[j].(bytes := Patched(rs[j].bytes, a - rs[j].base, b))]
    ensures At(rs', x) == if a <= x < a + |b| && At(rs, x).Some? then Some(At(rs, x).value.(value := b[x - a])) else At(rs, x)
  {
    if At(rs, x).Some? {
      var i := At(rs, x).value.region;
      AtUnique(rs', i, x);
      var d := a - rs[j].base;
      if a <= x < a + |b| {
        FitsUnique(rs, i, j, x, 1);
        assert rs'[j].bytes[d..d + |b|][x - a] == rs'[j].bytes[x - rs[j].base];
      }
    } else {
      assert forall i :: Holds(rs', i, x) ==> Holds(rs, i, x);
    }
  }

  /** A store succeeds exactly on intervals inside one writable region. */
  lemma StoreAllowed(rs: seq<Region>, a: nat, w: nat, v: nat)
    requires RegionsOk(rs) && WidthOk(w)
    ensures StoreSpec(rs, a, w, v).Ok? <==> OneRegion(rs, a, w) && At(rs, a).value.writable
    ensures StoreSpec(rs, a, w, v) == Err(NoPermission) <==> OneRegion(rs, a, w) && !At(rs, a).value.writable
  {
    FindFitAllIn(rs, a, w);
    FindFitFinds(rs, a, w, 0);
    if OneRegion(rs, a, w) {
      var j := FindFit(rs, a, w, 0).value;
      AtUnique(rs, j, a);
    }
  }

  /** After the write, the byte map holds the written bytes there. */
  lemma WrittenBytes(rs: seq<Region>, rs': seq<Region>, j: nat, a: nat, b: seq<Byte>)
    requires Written(rs, rs', a, b) && AllIn(rs, j, a, |b|) && j < |rs'|
    ensures AllIn(rs', j, a, |b|) && OneRegion(rs', a, |b|) && FlatBytes(rs', a, |b|) == b
  {
    forall x | a <= x < a + |b| ensures At(rs', x).Some? && At(rs', x).value.region == j && At(rs', x).value.value == b[x - a] {
      assert At(rs, x).Some?;
    }
    assert AllIn(rs', j, a, |b|);
    var got := FlatBytes(rs', a, |b|);
    forall k | 0 <= k < |b| ensures got[k] == b[k] { var x := a + k; assert At(rs', x).value.value == b[x - a]; }
  }

  /** Reading back what was stored, or, in fewer bytes from the same address, its low part. */
  lemma LoadAfterStore(rs: seq<Region>, a: nat, w: nat, v: nat, u: nat)
    requires RegionsOk(rs) && StoreSpec(rs, a, w, v).Ok? && WidthOk(u) && u <= w
    ensures Pow256(u) > 0 && LoadSpec(StoreSpec(rs, a, w, v).value, a, u) == Ok(v % Pow256(u))
  {
    var rs' := StoreSpec(rs, a, w, v).value;
    StoreWrites(rs, a, w, v);
    LoadIsFlat(rs', a, u);
    LeRoundTrip(v, u);
    FindFitAllIn(rs, a, w);
    WrittenBytes(rs, rs', FindFit(rs, a, w, 0).value, a, LeBytes(v, w));
    LowBytesFirst(v, w, u);
    FewerBytes(rs', a, w, u);
  }

  lemma FewerBytes(rs: seq<Region>, a: nat, w: nat, u: nat)
    requires OneRegion(rs, a, w) && u <= w
    ensures OneRegion(rs, a, u) && FlatBytes(rs, a, u) == FlatBytes(rs, a, w)[..u]
  {
    var j: nat :| j < |rs| && AllIn(rs, j, a, w);
    assert AllIn(rs, j, a, u);
  }

  lemma AllInSame(rs: seq<Region>, rs': seq<Region>, j: nat, b: nat, u: nat)
    requires forall x {:trigger At(rs', x)} {:trigger At(rs, x)} :: b <= x < b + u ==> At(rs', x) == At(rs, x)
    ensures AllIn(rs, j, b, u) <==> AllIn(rs', j, b, u)
  {
  }

  /** A load elsewhere does not see the store. */
  lemma LoadElsewhere(rs: seq<Region>, a: nat, w: nat, v: nat, b: nat, u: nat)
    requires RegionsOk(rs) && StoreSpec(rs, a, w, v).Ok? && WidthOk(u) && Apart(a, w, b, u)
    ensures LoadSpec(StoreSpec(rs, a, w, v).value, b, u) == LoadSpec(rs, b, u)
  {
    var rs' := StoreSpec(rs, a, w, v).value;
    StoreWrites(rs, a, w, v);
    LoadIsFlat(rs, b, u);
    LoadIsFlat(rs', b, u);
    forall x | b <= x < b + u ensures At(rs', x) == At(rs, x) {}
    forall j: nat | j < |rs| ensures AllIn(rs, j, b, u) <==> AllIn(rs', j, b, u) { AllInSame(rs, rs', j, b, u); }
    if OneRegion(rs, b, u) {
      var got, want := FlatBytes(rs', b, u), FlatBytes(rs, b, u);
      forall k | 0 <= k < u ensures got[k] == want[k] { var x := b + k; assert At(rs', x) == At(rs, x); }
      assert got == want;
    }
  }
}
