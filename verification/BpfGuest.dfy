/** The owned address space object of libbpf (src/mem.c): creation and access as they run. */
module BpfGuest {
  import opened Common
  import opened BpfMemory

  // ---- creation ----

  ghost predicate ConfigOk(c: Config) {
    0 < c.guest && c.guest + c.len < W64 && 0 < c.len && |c.init| <= c.len
  }

  /** What creation accepts: at most four non-empty, non-wrapping, pairwise disjoint mappings off address zero. */
  ghost predicate ConfigsOk(cfg: seq<Config>) {
    && |cfg| <= MAX_REGIONS
    && (forall i :: 0 <= i < |cfg| ==> ConfigOk(cfg[i]))
    && (forall i, j :: 0 <= i < j < |cfg| ==> Apart(cfg[i].guest, cfg[i].len, cfg[j].guest, cfg[j].len))
  }

  predicate Writable(k: Kind) {
    k == Mem || k == Stack
  }

  /** The region a configuration asks for: its initial bytes, then zeros. */
  ghost predicate Made(c: Config, r: Region) {
    && r.base == c.guest && |r.bytes| == c.len && |c.init| <= c.len && r.writable == Writable(c.kind)
    && forall i :: 0 <= i < c.len ==> r.bytes[i] == if i < |c.init| then c.init[i] else 0
  }

  /** base_ok, with its unsigned wrap-around. */
  predicate BaseOk(base: nat, len: nat)
    requires base < W64
  {
    len < (W64 - base) % W64
  }

  lemma BaseOkMeans(base: nat, len: nat)
    requires base < W64
    ensures BaseOk(base, len) <==> 0 < base && base + len < W64
  {
    if base > 0 { assert (W64 - base) % W64 == W64 - base; }
  }

  /** intervals_overlap, with its unsigned wrap-around. */
  predicate Overlap(a: nat, alen: nat, b: nat, blen: nat) {
    if a <= b then (a + alen) % W64 > b else (b + blen) % W64 > a
  }

  lemma OverlapMeans(a: nat, alen: nat, b: nat, blen: nat)
    requires a + alen < W64 && b + blen < W64 && alen > 0 && blen > 0
    ensures Overlap(a, alen, b, blen) <==> !Apart(a, alen, b, blen)
  {
    assert (a + alen) % W64 == a + alen && (b + blen) % W64 == b + blen;
  }

  /** The checks one configuration passes against the regions made so far. */
  method Admits(c: Config, rs: seq<Region>) returns (ok: bool)
    requires c.guest < W64 && c.len < W64 && RegionsOk(rs)
    ensures ok <==> ConfigOk(c) && forall j :: 0 <= j < |rs| ==> Apart(rs[j].base, |rs[j].bytes|, c.guest, c.len)
  {
    BaseOkMeans(c.guest, c.len);
    ok := BaseOk(c.guest, c.len);
    if c.len == 0 { ok := false; }
    if |c.init| > c.len { ok := false; }
    for j := 0 to |rs|
      invariant ok <==> ConfigOk(c) && forall i :: 0 <= i < j ==> Apart(rs[i].base, |rs[i].bytes|, c.guest, c.len)
    {
      assert RegionOk(rs[j]);
      if ok { OverlapMeans(c.guest, c.len, rs[j].base, |rs[j].bytes|); }
      if Overlap(c.guest, c.len, rs[j].base, |rs[j].bytes|) { ok := false; }
    }
  }

  /** bpf_memory_create. */
  method CreateRegions(cfg: seq<Config>) returns (r: Result<seq<Region>>)
    requires forall i :: 0 <= i < |cfg| ==> cfg[i].guest < W64 && cfg[i].len < W64
    ensures r.Ok? <==> ConfigsOk(cfg)
    ensures r.Err? ==> r.error == BadAddress
    ensures r.Ok? ==> RegionsOk(r.value) && |r.value| == |cfg| && forall i :: 0 <= i < |cfg| ==> Made(cfg[i], r.value[i])
  {
    if |cfg| > MAX_REGIONS { return Err(BadAddress); }
    var rs: seq<Region> := [];
    for i := 0 to |cfg|
      invariant |rs| == i && RegionsOk(rs) && ConfigsOk(cfg[..i])
      invariant forall j :: 0 <= j < i ==> Made(cfg[j], rs[j])
    {
      var c := cfg[i];
      var ok := Admits(c, rs);
      if !ok {
        NotAdmitted(cfg, rs, i);
        return Err(BadAddress);
      }
      assert cfg[..i + 1] == cfg[..i] + [c];
      var region := Region(c.guest, c.init + seq(c.len - |c.init|, k => 0), Writable(c.kind));
      assert Made(c, region);
      rs := rs + [region];
    }
    assert cfg[..|cfg|] == cfg;
    return Ok(rs);
  }

  lemma NotAdmitted(cfg: seq<Config>, rs: seq<Region>, i: nat)
    requires i < |cfg| && |rs| == i && forall j :: 0 <= j < i ==> Made(cfg[j], rs[j])
    requires !(ConfigOk(cfg[i]) && forall j :: 0 <= j < |rs| ==> Apart(rs[j].base, |rs[j].bytes|, cfg[i].guest, cfg[i].len))
    ensures !ConfigsOk(cfg)
  {
    if ConfigOk(cfg[i]) {
      var j :| 0 <= j < |rs| && !Apart(rs[j].base, |rs[j].bytes|, cfg[i].guest, cfg[i].len);
      assert Made(cfg[j], rs[j]);
      assert !Apart(cfg[j].guest, cfg[j].len, cfg[i].guest, cfg[i].len);
    }
  }

  /** Guest code may write memory and stack mappings and nothing else, and may read all of them. */
  lemma KindDecides(cfg: seq<Config>, rs: seq<Region>, j: nat, a: nat, w: nat, v: nat)
    requires RegionsOk(rs) && |rs| == |cfg| && j < |cfg| && forall i :: 0 <= i < |cfg| ==> Made(cfg[i], rs[i])
    requires WidthOk(w) && cfg[j].guest <= a && a + w <= cfg[j].guest + cfg[j].len
    ensures cfg[j].kind == Input || cfg[j].kind == Const ==> StoreSpec(rs, a, w, v) == Err(NoPermission)
    ensures cfg[j].kind == Mem || cfg[j].kind == Stack ==> StoreSpec(rs, a, w, v).Ok?
    ensures LoadSpec(rs, a, w).Ok?
  {
    assert Made(cfg[j], rs[j]);
    FindFitFinds(rs, a, w, 0);
    assert Fits(rs, j, a, w);
    FitsUnique(rs, j, FindFit(rs, a, w, 0).value, a, w);
  }

  // ---- access ----

  class Memory {
    var regions: seq<Region>

    ghost predicate Valid()
      reads this
    {
      RegionsOk(regions)
    }

    constructor (rs: seq<Region>)
      requires RegionsOk(rs)
      ensures Valid() && regions == rs
    {
      regions := rs;
    }

    /** bpf_mem_resolve. */
    method ResolveAccess(a: nat, w: nat, write: bool) returns (r: Result<nat>)
      requires Valid()
      ensures r == Resolve(regions, a, w, write)
      ensures r.Ok? ==> Fits(regions, r.value, a, w) && FindFit(regions, a, w, 0) == Some(r.value)
    {
      for j := 0 to |regions|
        invariant FindFit(regions, a, w, 0) == FindFit(regions, a, w, j)
      {
        var region := regions[j];
        if a >= region.base {
          var delta := a - region.base;
          if delta <= |region.bytes| && w <= |region.bytes| - delta {
            if write && !region.writable { return Err(NoPermission); }
            return Ok(j);
          }
        }
      }
      return Err(BadAddress);
    }

    /** bpf_mem_load. */
    method Load(a: nat, w: nat) returns (r: Result<nat>)
      requires Valid()
      ensures r == LoadSpec(regions, a, w)
    {
      if !WidthOk(w) { return Err(BadSize); }
      var at := ResolveAccess(a, w, false);
      if at.Err? { return Err(at.error); }
      var bytes, d := regions[at.value].bytes, a - regions[at.value].base;
      var v: nat, scale: nat, k: nat := 0, 1, 0;
      while k < w
        invariant k <= w && scale == Pow256(k) && v == LeValue(bytes[d..d + k])
      {
        assert bytes[d..d + k + 1] == bytes[d..d + k] + [bytes[d + k]];
        LeValueSnoc(bytes[d..d + k], bytes[d + k]);
        v := v + bytes[d + k] * scale;
        scale := 256 * scale;
        k := k + 1;
      }
      return Ok(v);
    }

    /** bpf_mem_store: byte by byte once the whole interval has been resolved. */
    method Store(a: nat, w: nat, value: nat) returns (r: Result<()>)
      requires Valid()
      modifies this
      ensures Valid() && SameShape(old(regions), regions)
      ensures r.Ok? <==> StoreSpec(old(regions), a, w, value).Ok?
      ensures r.Ok? ==> regions == StoreSpec(old(regions), a, w, value).value
      ensures r.Err? ==> r.error == StoreSpec(old(regions), a, w, value).error && regions == old(regions)
    {
      if !WidthOk(w) { return Err(BadSize); }
      var at := ResolveAccess(a, w, true);
      if at.Err? { return Err(at.error); }
      ghost var rs0 := regions;
      var j := at.value;
      var bytes, d := regions[j].bytes, a - regions[j].base;
      ghost var want := LeBytes(value, w);
      var rest, k := value, 0;
      while k < w
        invariant k <= w && LeBytes(rest, w - k) == want[k..]
        invariant |bytes| == |rs0[j].bytes|
        invariant forall i :: 0 <= i < |bytes| ==> bytes[i] == if d <= i < d + k then want[i - d] else rs0[j].bytes[i]
      {
        assert want[k..][0] == want[k] && want[k..][1..] == want[k + 1..];
        bytes := bytes[d + k := rest % 256];
        rest := rest / 256;
        k := k + 1;
      }
      assert bytes == Patched(rs0[j].bytes, d, want);
      regions := regions[j := regions[j].(bytes := bytes)];
      SameShapeOk(rs0, regions);
      return Ok(());
    }
  }
}
