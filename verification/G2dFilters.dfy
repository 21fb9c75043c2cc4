/** The register lists of the G2D command builder: filter coefficients of scaled layers. */
module G2dFilters {
  import opened Arithmetic
  import opened Bytes

  /** `g2d_reg`: one register to be set along with the layers' own commands. */
  datatype Reg = Reg(offset: nat, value: u32)

  const FRACBITS_ONE := 0x1_0000  // scale factor 1.0
  const FILTER_PHASES := 9
  const HORI_TAPS := 8
  const VERT_TAPS := 4
  const FILTER_SETS := 7
  const FILTER_COEF_BASE := 0x6000
  const FILTER_BANK := 0x400
  const FILTER_C_OFFSET := 0x200

  const DATAFMT_YUV420SP := 8
  const DATAFMT_P010_LGCY := 12

  /** What the command builder has put into a source layer's registers. */
  datatype Source = Source(colormode: u32, xscale: u32, yscale: u32, ycbcrmode: u32)

  function DataFormat(colormode: u32): nat {
    colormode / 0x1_0000 % 0x10
  }

  predicate IsYuv(colormode: u32) {
    DATAFMT_YUV420SP <= DataFormat(colormode) <= DATAFMT_P010_LGCY
  }

  function ScaleFactor(from: nat, to: nat): u32
    requires to > 0
  {
    U32(from * FRACBITS_ONE) / to
  }

  /** The coefficients of one filter: for each phase one value for each tap. */
  type FilterSet = seq<seq<u32>>

  ghost predicate IsSet(s: FilterSet, taps: nat) {
    |s| == FILTER_PHASES && forall p :: 0 <= p < FILTER_PHASES ==> |s[p]| == taps
  }

  /** The two coefficient tables of the hardware's manual. */
  datatype Tables = Tables(vert: seq<FilterSet>, hori: seq<FilterSet>) {
    ghost predicate Valid() {
      && |vert| == |hori| == FILTER_SETS
      && forall i :: 0 <= i < FILTER_SETS ==> IsSet(vert[i], VERT_TAPS) && IsSet(hori[i], HORI_TAPS)
    }
  }

  // ---------------------------------------------------------------- which filter

  const CHOICES: seq<u32> := [
    ScaleFactor(8, 8), ScaleFactor(8, 7), ScaleFactor(8, 6), ScaleFactor(8, 5),
    ScaleFactor(8, 4), ScaleFactor(8, 3), ScaleFactor(8, 2)]

  /** The first filter made for reductions at least as strong as `factor`; the last one if there is none. */
  function FilterIndexFrom(factor: u32, i: nat): (r: nat)
    requires i <= FILTER_SETS
    ensures r < FILTER_SETS
    decreases FILTER_SETS - i
  {
    if i == FILTER_SETS then FILTER_SETS - 1
    else if factor <= CHOICES[i] then i
    else FilterIndexFrom(factor, i + 1)
  }

  function FilterIndex(factor: u32): (r: nat)
    ensures r < FILTER_SETS
  {
    FilterIndexFrom(factor, 0)
  }

  lemma {:induction false} FilterIndexIsFirst(factor: u32, i: nat)
    requires i < FILTER_SETS
    ensures var r := FilterIndexFrom(factor, i);
            i <= r && (forall j :: i <= j < r ==> factor > CHOICES[j]) && (factor <= CHOICES[r] || r == FILTER_SETS - 1)
    decreases FILTER_SETS - i
  {
    if factor > CHOICES[i] && i + 1 < FILTER_SETS {
      FilterIndexIsFirst(factor, i + 1);
    }
  }

  /** The default filter, which is never written, serves exactly the layers that are not reduced. */
  lemma DefaultFilter(factor: u32)
    ensures FilterIndex(factor) == 0 <==> factor <= FRACBITS_ONE
  {
  }

  /** Of the filters made for reductions of 8 to `8 - k`, the first one strong enough; the last one serves all stronger ones. */
  lemma FilterByReduction(factor: u32, k: nat)
    requires k < FILTER_SETS - 1
    ensures FilterIndex(factor) <= k <==> factor * (8 - k) <= 8 * 0x1_0000
  {
    ChoicesIn16Bits();
    FilterIndexIsFirst(factor, 0);
    assert factor * (8 - k) <= 8 * 0x1_0000 <==> factor <= CHOICES[k];
  }

  lemma ChoicesIn16Bits()
    ensures CHOICES == [0x1_0000, 0x1_2492, 0x1_5555, 0x1_9999, 0x2_0000, 0x2_AAAA, 0x4_0000]
  {
  }

  /** The chroma planes' scale factors; the second case of the original falls through from the first. */
  function ChromaScale(colormode: u32, h: u32, v: u32): (r: (u32, u32))
    ensures r.0 <= h && r.1 <= v
  {
    match DataFormat(colormode)
    case 8 => (h / 2, v / 2)
    case 9 => (h / 2, v / 2)
    case 10 => (h, v / 2)
    case 11 => (h, v / 2)
    case _ => (h, v)
  }

  // ---------------------------------------------------------------- register lists

  /** The place of a tap's coefficient among the registers of a filter: phases lie together, taps do not. */
  function Place(phase: nat, tap: nat): nat {
    phase + FILTER_PHASES * tap
  }

  /** The registers of one filter, in the order of the table. */
  ghost function SetRegs(s: FilterSet, taps: nat, base: nat): (r: seq<Reg>)
    requires IsSet(s, taps) && taps > 0
    ensures |r| == FILTER_PHASES * taps
  {
    seq(FILTER_PHASES * taps, n requires 0 <= n < FILTER_PHASES * taps =>
      RowOf(n, taps);
      Reg(base + 4 * Place(n / taps, n % taps), s[n / taps][n % taps]))
  }

  lemma RowOf(n: nat, taps: nat)
    requires taps > 0 && n < FILTER_PHASES * taps
    ensures n / taps < FILTER_PHASES && n % taps < taps
  {
    DivBounds(n, taps);
    if n / taps >= FILTER_PHASES {
      MulMono(FILTER_PHASES, n / taps, taps);
    }
  }

  /** Nothing for the default filter. */
  ghost function FilterRegs(sets: seq<FilterSet>, index: nat, taps: nat, base: nat): (r: seq<Reg>)
    requires index < |sets| && IsSet(sets[index], taps) && taps > 0
    ensures |r| == if index == 0 then 0 else FILTER_PHASES * taps
  {
    if index == 0 then [] else SetRegs(sets[index], taps, base)
  }

  /** The vertical filter's registers, then the horizontal one's. */
  ghost function PlaneRegs(t: Tables, h: u32, v: u32, base: nat): (r: seq<Reg>)
    requires t.Valid()
  {
    FilterRegs(t.vert, FilterIndex(v), VERT_TAPS, base)
    + FilterRegs(t.hori, FilterIndex(h), HORI_TAPS, base + 4 * FILTER_PHASES * VERT_TAPS)
  }

  ghost function LayerRegs(t: Tables, src: Source, layer: nat): (r: seq<Reg>)
    requires t.Valid()
  {
    var base := FILTER_COEF_BASE + layer * FILTER_BANK;
    if FilterIndex(src.xscale) == 0 && FilterIndex(src.yscale) == 0 then []
    else
      var (h, v) := ChromaScale(src.colormode, src.xscale, src.yscale);
      PlaneRegs(t, src.xscale, src.yscale, base)
      + if IsYuv(src.colormode) then PlaneRegs(t, h, v, base + FILTER_C_OFFSET) else []
  }

  /** The registers of the first `n` layers. */
  ghost function LayersRegs(t: Tables, sources: seq<Source>, n: nat): (r: seq<Reg>)
    requires t.Valid() && n <= |sources|
  {
    if n == 0 then [] else LayersRegs(t, sources, n - 1) + LayerRegs(t, sources[n - 1], n - 1)
  }

  // ---------------------------------------------------------------- the count

  function PlaneCount(h: u32, v: u32): nat {
    (if h > FRACBITS_ONE then FILTER_PHASES * HORI_TAPS else 0)
    + (if v > FRACBITS_ONE then FILTER_PHASES * VERT_TAPS else 0)
  }

  function LayerCount(src: Source): nat {
    PlaneCount(src.xscale, src.yscale)
    + if IsYuv(src.colormode) then
        var (h, v) := ChromaScale(src.colormode, src.xscale, src.yscale);
        PlaneCount(h, v)
      else 0
  }

  lemma PlaneCountExact(t: Tables, h: u32, v: u32, base: nat)
    requires t.Valid()
    ensures |PlaneRegs(t, h, v, base)| == PlaneCount(h, v)
  {
    hide FilterIndexFrom, FilterIndex;
    DefaultFilter(h);
    DefaultFilter(v);
  }

  /** The count is exact although writing ends early where luma needs no filter: chroma then needs none either. */
  lemma LayerCountExact(t: Tables, src: Source, layer: nat)
    requires t.Valid()
    ensures |LayerRegs(t, src, layer)| == LayerCount(src)
    ensures
      var code := src.colormode / 0x1_0000 % 0x10;
      var h, v := if code in {8, 9} then src.xscale / 2 else src.xscale, if 8 <= code <= 11 then src.yscale / 2 else src.yscale;
      LayerCount(src)
      == (if src.xscale > 0x1_0000 then 72 else 0) + (if src.yscale > 0x1_0000 then 36 else 0)
         + (if 8 <= code <= 12 && h > 0x1_0000 then 72 else 0) + (if 8 <= code <= 12 && v > 0x1_0000 then 36 else 0)
  {
    hide FilterIndex, PlaneRegs;
    var base := FILTER_COEF_BASE + layer * FILTER_BANK;
    var (h, v) := ChromaScale(src.colormode, src.xscale, src.yscale);
    DefaultFilter(src.xscale);
    DefaultFilter(src.yscale);
    PlaneCountExact(t, src.xscale, src.yscale, base);
    PlaneCountExact(t, h, v, base + FILTER_C_OFFSET);
  }

  method GetFilterCoefficientCount(t: Tables, sources: seq<Source>) returns (count: nat)
    requires t.Valid()
    ensures count == |LayersRegs(t, sources, |sources|)|
  {
    hide LayerRegs, Tables.Valid;
    count := 0;
    for i := 0 to |sources|
      invariant count == |LayersRegs(t, sources, i)|
    {
      var layerCount := 0;
      var hfactor, vfactor := sources[i].xscale, sources[i].yscale;
      if hfactor > FRACBITS_ONE {
        layerCount := layerCount + FILTER_PHASES * HORI_TAPS;
      }
      if vfactor > FRACBITS_ONE {
        layerCount := layerCount + FILTER_PHASES * VERT_TAPS;
      }
      if IsYuv(sources[i].colormode) {
        var (h, v) := ChromaScale(sources[i].colormode, hfactor, vfactor);
        if h > FRACBITS_ONE {
          layerCount := layerCount + FILTER_PHASES * HORI_TAPS;
        }
        if v > FRACBITS_ONE {
          layerCount := layerCount + FILTER_PHASES * VERT_TAPS;
        }
      }
      LayerCountExact(t, sources[i], i);
      count := count + layerCount;
    }
  }

  // ---------------------------------------------------------------- writing

  /** A list with a part of it replaced. */
  function Patched<T>(s: seq<T>, at: nat, part: seq<T>): (r: seq<T>)
    requires at + |part| <= |s|
    ensures |r| == |s|
  {
    s[..at] + part + s[at + |part|..]
  }

  lemma PatchedTwice<T>(s: seq<T>, at: nat, a: seq<T>, b: seq<T>)
    requires at + |a| + |b| <= |s|
    ensures Patched(Patched(s, at, a), at + |a|, b) == Patched(s, at, a + b)
  {
  }

  lemma PatchedOne<T>(s: seq<T>, at: nat, a: seq<T>, x: T)
    requires at + |a| < |s|
    ensures Patched(s, at, a)[at + |a| := x] == Patched(s, at, a + [x])
  {
  }

  lemma PatchedNone<T>(s: seq<T>, at: nat)
    requires at <= |s|
    ensures Patched(s, at, []) == s
  {
  }

  /** Writes one phase of a filter, for all its taps. */
  method WritePhase(coefs: FilterSet, taps: nat, base: nat, phase: nat, regs: array<Reg>, at: nat, ghost was: seq<Reg>)
    requires IsSet(coefs, taps) && taps > 0 && phase < FILTER_PHASES && phase * taps + taps <= FILTER_PHASES * taps
    requires |was| == regs.Length && at + FILTER_PHASES * taps <= regs.Length
    requires regs[..] == Patched(was, at, SetRegs(coefs, taps, base)[..phase * taps])
    modifies regs
    ensures regs[..] == Patched(was, at, SetRegs(coefs, taps, base)[..phase * taps + taps])
  {
    hide Patched, Place, SetRegs;
    ghost var all := SetRegs(coefs, taps, base);
    var start := phase * taps;
    var cnt, offset := start, base + 4 * phase;
    NextPlace(phase, 0);
    for tap := 0 to taps
      invariant cnt == start + tap && offset == base + 4 * Place(phase, tap)
      invariant regs[..] == Patched(was, at, all[..cnt])
    {
      Entry(coefs, taps, base, phase, tap);
      NextPlace(phase, tap);
      assert all[..cnt + 1] == all[..cnt] + [all[cnt]];
      PatchedOne(was, at, all[..cnt], all[cnt]);
      regs[at + cnt] := Reg(offset, coefs[phase][tap]);
      offset := offset + 4 * FILTER_PHASES;
      cnt := cnt + 1;
    }
  }

  /** Writes one filter, unless it is the default one. */
  method WriteFilter(sets: seq<FilterSet>, index: nat, taps: nat, base: nat, regs: array<Reg>, at: nat) returns (cnt: nat)
    requires index < |sets| && IsSet(sets[index], taps) && taps > 0
    requires at + |FilterRegs(sets, index, taps, base)| <= regs.Length
    modifies regs
    ensures cnt == |FilterRegs(sets, index, taps, base)|
    ensures regs[..] == Patched(old(regs[..]), at, FilterRegs(sets, index, taps, base))
  {
    hide Patched, SetRegs;
    PatchedNone(regs[..], at);
    if index == 0 {
      return 0;
    }
    ghost var was, all := regs[..], SetRegs(sets[index], taps, base);
    cnt := 0;
    for phase := 0 to FILTER_PHASES
      invariant cnt == phase * taps
      invariant regs[..] == Patched(was, at, all[..cnt])
    {
      Distribute(phase, 1, taps);
      MulMono(phase + 1, FILTER_PHASES, taps);
      WritePhase(sets[index], taps, base, phase, regs, at, was);
      cnt := cnt + taps;
    }
    assert all[..cnt] == all;
  }

  lemma Entry(s: FilterSet, taps: nat, base: nat, phase: nat, tap: nat)
    requires IsSet(s, taps) && taps > 0 && phase < FILTER_PHASES && tap < taps
    ensures phase * taps + tap < FILTER_PHASES * taps
    ensures SetRegs(s, taps, base)[phase * taps + tap] == Reg(base + 4 * Place(phase, tap), s[phase][tap])
  {
    hide Place;
    var n := phase * taps + tap;
    MulMono(phase, FILTER_PHASES - 1, taps);
    DivModUnique(n, taps, phase, tap);
  }

  lemma NextPlace(phase: nat, tap: nat)
    ensures Place(phase, tap + 1) == Place(phase, tap) + FILTER_PHASES && Place(phase, 0) == phase
  {
  }

  method WritePlane(t: Tables, h: u32, v: u32, base: nat, regs: array<Reg>, at: nat) returns (cnt: nat)
    requires t.Valid() && at + |PlaneRegs(t, h, v, base)| <= regs.Length
    modifies regs
    ensures cnt == |PlaneRegs(t, h, v, base)|
    ensures regs[..] == Patched(old(regs[..]), at, PlaneRegs(t, h, v, base))
  {
    hide Patched, FilterRegs, FilterIndex;
    ghost var was := regs[..];
    cnt := WriteFilter(t.vert, FilterIndex(v), VERT_TAPS, base, regs, at);
    ghost var first := cnt;
    var more := WriteFilter(t.hori, FilterIndex(h), HORI_TAPS, base + 4 * FILTER_PHASES * VERT_TAPS, regs, at + cnt);
    cnt := cnt + more;
    PatchedTwice(was, at, FilterRegs(t.vert, FilterIndex(v), VERT_TAPS, base),
                 FilterRegs(t.hori, FilterIndex(h), HORI_TAPS, base + 4 * FILTER_PHASES * VERT_TAPS));
  }

  method WriteFilterCoefficients(t: Tables, src: Source, layer: nat, regs: array<Reg>, at: nat) returns (cnt: nat)
    requires t.Valid() && at + |LayerRegs(t, src, layer)| <= regs.Length
    modifies regs
    ensures cnt == |LayerRegs(t, src, layer)|
    ensures regs[..] == Patched(old(regs[..]), at, LayerRegs(t, src, layer))
  {
    hide Patched, PlaneRegs, FilterIndex;
    ghost var was := regs[..];
    if FilterIndex(src.xscale) == 0 && FilterIndex(src.yscale) == 0 {
      PatchedNone(was, at);
      return 0;
    }
    var base := FILTER_COEF_BASE + layer * FILTER_BANK;
    cnt := WritePlane(t, src.xscale, src.yscale, base, regs, at);
    if IsYuv(src.colormode) {
      var (h, v) := ChromaScale(src.colormode, src.xscale, src.yscale);
      var more := WritePlane(t, h, v, base + FILTER_C_OFFSET, regs, at + cnt);
      PatchedTwice(was, at, PlaneRegs(t, src.xscale, src.yscale, base), PlaneRegs(t, h, v, base + FILTER_C_OFFSET));
      cnt := cnt + more;
    } else {
      assert PlaneRegs(t, src.xscale, src.yscale, base) + [] == PlaneRegs(t, src.xscale, src.yscale, base);
    }
  }

  method UpdateFilterCoefficients(t: Tables, polyphase: bool, sources: seq<Source>, regs: array<Reg>, at: nat)
    returns (cnt: nat)
    requires t.Valid() && at + (if polyphase then |LayersRegs(t, sources, |sources|)| else 0) <= regs.Length
    modifies regs
    ensures cnt == if polyphase then |LayersRegs(t, sources, |sources|)| else 0
    ensures regs[..] == Patched(old(regs[..]), at, if polyphase then LayersRegs(t, sources, |sources|) else [])
  {
    hide Patched, LayerRegs, Tables.Valid;
    ghost var was := regs[..];
    PatchedNone(was, at);
    if !polyphase {
      return 0;
    }
    cnt := 0;
    for i := 0 to |sources|
      invariant cnt == |LayersRegs(t, sources, i)| && at + cnt <= regs.Length
      invariant regs[..] == Patched(was, at, LayersRegs(t, sources, i))
    {
      LayersGrow(t, sources, i + 1);
      var more := WriteFilterCoefficients(t, sources[i], i, regs, at + cnt);
      PatchedTwice(was, at, LayersRegs(t, sources, i), LayerRegs(t, sources[i], i));
      cnt := cnt + more;
    }
  }

  lemma {:induction false} LayersGrow(t: Tables, sources: seq<Source>, n: nat)
    requires t.Valid() && n <= |sources|
    ensures |LayersRegs(t, sources, n)| <= |LayersRegs(t, sources, |sources|)|
    decreases |sources| - n
  {
    hide LayerRegs, Tables.Valid;
    if n < |sources| {
      LayersGrow(t, sources, n + 1);
    }
  }

  // ---------------------------------------------------------------- no two registers coincide

  ghost predicate Distinct(rs: seq<Reg>) {
    forall i, j :: 0 <= i < j < |rs| ==> rs[i].offset != rs[j].offset
  }

  ghost predicate Within(rs: seq<Reg>, from: nat, to: nat) {
    forall i :: 0 <= i < |rs| ==> from <= rs[i].offset < to
  }

  lemma DistinctConcat(a: seq<Reg>, b: seq<Reg>, from: nat, mid: nat, to: nat)
    requires Distinct(a) && Distinct(b) && Within(a, from, mid) && Within(b, mid, to) && from <= mid <= to
    ensures Distinct(a + b) && Within(a + b, from, to)
  {
  }

  /** Phases and taps are laid out without gaps and without overlaps. */
  lemma PlacesAreContiguous(taps: nat, k: nat)
    requires k < FILTER_PHASES * taps
    ensures k % FILTER_PHASES < FILTER_PHASES && k / FILTER_PHASES < taps && Place(k % FILTER_PHASES, k / FILTER_PHASES) == k
    ensures forall p, t :: 0 <= p < FILTER_PHASES && 0 <= t && Place(p, t) == k ==> p == k % FILTER_PHASES && t == k / FILTER_PHASES
  {
  }

  lemma PlaceInjective(p: nat, t: nat, p': nat, t': nat)
    requires p < FILTER_PHASES && p' < FILTER_PHASES && Place(p, t) == Place(p', t')
    ensures p == p' && t == t'
  {
  }

  lemma SameRow(i: nat, j: nat, taps: nat)
    requires taps > 0 && i / taps == j / taps && i % taps == j % taps
    ensures i == j
  {
  }

  lemma RegAt(s: FilterSet, taps: nat, base: nat, n: nat)
    requires IsSet(s, taps) && taps > 0 && n < FILTER_PHASES * taps
    ensures n / taps < FILTER_PHASES && n % taps < taps
    ensures SetRegs(s, taps, base)[n].offset == base + 4 * Place(n / taps, n % taps)
  {
    RowOf(n, taps);
  }

  lemma SetRegsDistinct(s: FilterSet, taps: nat, base: nat)
    requires IsSet(s, taps) && taps > 0
    ensures Distinct(SetRegs(s, taps, base)) && Within(SetRegs(s, taps, base), base, base + 4 * (FILTER_PHASES * taps))
  {
    hide Place, SetRegs;
    var rs := SetRegs(s, taps, base);
    forall i | 0 <= i < |rs|
      ensures base <= rs[i].offset < base + 4 * (FILTER_PHASES * taps)
    {
      RegAt(s, taps, base, i);
      PlaceBound(i / taps, i % taps, taps);
    }
    forall i, j | 0 <= i < j < |rs|
      ensures rs[i].offset != rs[j].offset
    {
      OffsetsDiffer(s, taps, base, i, j);
    }
  }

  lemma OffsetsDiffer(s: FilterSet, taps: nat, base: nat, i: nat, j: nat)
    requires IsSet(s, taps) && taps > 0 && i < j < FILTER_PHASES * taps
    ensures SetRegs(s, taps, base)[i].offset != SetRegs(s, taps, base)[j].offset
  {
    hide Place, SetRegs;
    RegAt(s, taps, base, i);
    RegAt(s, taps, base, j);
    PlacesDiffer(i, j, taps);
  }

  lemma PlacesDiffer(i: nat, j: nat, taps: nat)
    requires taps > 0 && i != j && i / taps < FILTER_PHASES && j / taps < FILTER_PHASES
    ensures Place(i / taps, i % taps) != Place(j / taps, j % taps)
  {
    hide Place;
    var p, t, q, u := i / taps, i % taps, j / taps, j % taps;
    DivBounds(i, taps);
    DivBounds(j, taps);
    if Place(p, t) == Place(q, u) {
      PlaceInjective(p, t, q, u);
      SameRow(i, j, taps);
    }
  }

  lemma PlaceBound(p: nat, t: nat, taps: nat)
    requires p < FILTER_PHASES && t < taps
    ensures Place(p, t) < FILTER_PHASES * taps
  {
  }

  lemma PlaneRegsDistinct(t: Tables, h: u32, v: u32, base: nat)
    requires t.Valid()
    ensures Distinct(PlaneRegs(t, h, v, base)) && Within(PlaneRegs(t, h, v, base), base, base + FILTER_C_OFFSET)
  {
    hide FilterIndex, SetRegs;
    var mid := base + 4 * FILTER_PHASES * VERT_TAPS;
    SetRegsDistinct(t.vert[FilterIndex(v)], VERT_TAPS, base);
    SetRegsDistinct(t.hori[FilterIndex(h)], HORI_TAPS, mid);
    DistinctConcat(FilterRegs(t.vert, FilterIndex(v), VERT_TAPS, base), FilterRegs(t.hori, FilterIndex(h), HORI_TAPS, mid),
                   base, mid, base + FILTER_C_OFFSET);
  }

  /** A layer's registers are all different and lie in the layer's own bank. */
  lemma LayerRegsDistinct(t: Tables, src: Source, layer: nat)
    requires t.Valid()
    ensures Distinct(LayerRegs(t, src, layer))
    ensures Within(LayerRegs(t, src, layer), FILTER_COEF_BASE + layer * FILTER_BANK, FILTER_COEF_BASE + (layer + 1) * FILTER_BANK)
  {
    hide FilterIndex, PlaneRegs, Tables.Valid;
    var base := FILTER_COEF_BASE + layer * FILTER_BANK;
    var (h, v) := ChromaScale(src.colormode, src.xscale, src.yscale);
    PlaneRegsDistinct(t, src.xscale, src.yscale, base);
    PlaneRegsDistinct(t, h, v, base + FILTER_C_OFFSET);
    DistinctConcat(PlaneRegs(t, src.xscale, src.yscale, base), PlaneRegs(t, h, v, base + FILTER_C_OFFSET),
                   base, base + FILTER_C_OFFSET, base + FILTER_BANK);
  }

  /** Over all layers, planes, directions, phases and taps: no register is written twice. */
  lemma {:induction false} LayersRegsDistinct(t: Tables, sources: seq<Source>, n: nat)
    requires t.Valid() && n <= |sources|
    ensures Distinct(LayersRegs(t, sources, n))
    ensures Within(LayersRegs(t, sources, n), FILTER_COEF_BASE, FILTER_COEF_BASE + n * FILTER_BANK)
  {
    hide LayerRegs, Tables.Valid;
    if n > 0 {
      LayersRegsDistinct(t, sources, n - 1);
      LayerRegsDistinct(t, sources[n - 1], n - 1);
      DistinctConcat(LayersRegs(t, sources, n - 1), LayerRegs(t, sources[n - 1], n - 1),
                     FILTER_COEF_BASE, FILTER_COEF_BASE + (n - 1) * FILTER_BANK, FILTER_COEF_BASE + n * FILTER_BANK);
    }
  }

  // ---------------------------------------------------------------- where every coefficient goes

  lemma SetHas(s: FilterSet, taps: nat, base: nat, phase: nat, tap: nat)
    requires IsSet(s, taps) && phase < FILTER_PHASES && tap < taps
    ensures Reg(base + 4 * (phase + 9 * tap), s[phase][tap]) in SetRegs(s, taps, base)
  {
    hide SetRegs;
    Entry(s, taps, base, phase, tap);
  }

  lemma PlaneHas(t: Tables, h: u32, v: u32, base: nat, phase: nat, tap: nat)
    requires t.Valid() && phase < 9
    ensures v > 0x1_0000 && tap < 4 ==>
              Reg(base + 4 * (phase + 9 * tap), t.vert[FilterIndex(v)][phase][tap]) in PlaneRegs(t, h, v, base)
    ensures h > 0x1_0000 && tap < 8 ==>
              Reg(base + 0x90 + 4 * (phase + 9 * tap), t.hori[FilterIndex(h)][phase][tap]) in PlaneRegs(t, h, v, base)
  {
    hide SetRegs, FilterIndex;
    DefaultFilter(h);
    DefaultFilter(v);
    if tap < 4 {
      SetHas(t.vert[FilterIndex(v)], VERT_TAPS, base, phase, tap);
    }
    if tap < 8 {
      SetHas(t.hori[FilterIndex(h)], HORI_TAPS, base + 0x90, phase, tap);
    }
  }

  lemma {:induction false} LayerIsAmong(t: Tables, sources: seq<Source>, n: nat, i: nat, reg: Reg)
    requires t.Valid() && i < n <= |sources| && reg in LayerRegs(t, sources[i], i)
    ensures reg in LayersRegs(t, sources, n)
  {
    hide LayerRegs, Tables.Valid;
    if i < n - 1 {
      LayerIsAmong(t, sources, n - 1, i, reg);
    }
  }

  /**
   Each coefficient of each filter that is needed is in the hardware's register for its layer, plane, direction, phase
   and tap. Chroma is scaled by half in both directions for 4:2:0, and in the vertical one only for 4:2:2.
   */
  lemma CoefficientsInPlace(t: Tables, sources: seq<Source>, i: nat, phase: nat, tap: nat)
    requires t.Valid() && i < |sources| && phase < 9
    ensures
      var src, regs, base := sources[i], LayersRegs(t, sources, |sources|), 0x6000 + 0x400 * i;
      var code := src.colormode / 0x1_0000 % 0x10;
      var h, v := if code in {8, 9} then src.xscale / 2 else src.xscale, if 8 <= code <= 11 then src.yscale / 2 else src.yscale;
      var place := 4 * (phase + 9 * tap);
      && (src.yscale > 0x1_0000 && tap < 4 ==> Reg(base + place, t.vert[FilterIndex(src.yscale)][phase][tap]) in regs)
      && (src.xscale > 0x1_0000 && tap < 8 ==> Reg(base + 0x90 + place, t.hori[FilterIndex(src.xscale)][phase][tap]) in regs)
      && (8 <= code <= 12 && v > 0x1_0000 && tap < 4 ==>
            Reg(base + 0x200 + place, t.vert[FilterIndex(v)][phase][tap]) in regs)
      && (8 <= code <= 12 && h > 0x1_0000 && tap < 8 ==>
            Reg(base + 0x290 + place, t.hori[FilterIndex(h)][phase][tap]) in regs)
  {
    hide PlaneRegs, FilterIndex, LayersRegs;
    var src, base := sources[i], 0x6000 + 0x400 * i;
    var (h, v) := ChromaScale(src.colormode, src.xscale, src.yscale);
    DefaultFilter(src.xscale);
    DefaultFilter(src.yscale);
    PlaneHas(t, src.xscale, src.yscale, base, phase, tap);
    PlaneHas(t, h, v, base + 0x200, phase, tap);
    forall reg | reg in LayerRegs(t, src, i)
      ensures reg in LayersRegs(t, sources, |sources|)
    {
      LayerIsAmong(t, sources, |sources|, i, reg);
    }
  }
}
