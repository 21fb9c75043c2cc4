/** Colour conversion matrices and the list of extra registers of a G2D task. */
module G2dTask {
  import opened Bytes
  import opened G2dFilters

  const MATRIX_MAX_COUNT := 4
  const MATRIX_INVALID_INDEX := 200
  const MATRIX_SRC_BASE := 0x2000
  const MATRIX_DST_BASE := 0x2100
  const MATRIX_REGISTERS := 9
  const MATRICES := 8       // four standards, limited and full range each
  const YCBCRMODE_WIDE := 0x10

  const UNDEFINED := 255    // -1 as a `char`, which is unsigned here

  /** The matrix of each colour standard; the ninth and the twelfth have none. */
  const STANDARDS: seq<nat> := [1, 1, 0, 0, 0, 0, 2, 2, UNDEFINED, 1, 3, UNDEFINED]

  function Standard(dataspace: u32): nat { dataspace / 0x1_0000 % 0x40 }
  predicate FullRange(dataspace: u32) { dataspace / 0x800_0000 % 2 == 1 }

  function FindMatrixIndex(dataspace: u32): nat {
    if Standard(dataspace) >= |STANDARDS| then MATRIX_INVALID_INDEX
    else STANDARDS[Standard(dataspace)] * 2 + if FullRange(dataspace) then 1 else 0
  }

  /** The standard is not one of the two that are in the table without a matrix. */
  predicate Listed(dataspace: u32) {
    Standard(dataspace) < |STANDARDS| ==> STANDARDS[Standard(dataspace)] != UNDEFINED
  }

  /** A standard without a matrix is not found out: its index lies far behind the matrices. */
  lemma MatrixIffListed(dataspace: u32)
    ensures FindMatrixIndex(dataspace) == MATRIX_INVALID_INDEX <==> Standard(dataspace) >= |STANDARDS|
    ensures ValidTarget(FindMatrixIndex(dataspace)) <==> Listed(dataspace)
    ensures !Listed(dataspace) ==> FindMatrixIndex(dataspace) in {510, 511}
  {
  }

  /**
   Which matrix serves which standard, by its number in the dataspace: BT.601 for the four of 625 and 525 lines,
   BT.2020 for its two, DCI-P3 for its own, and BT.709 for the rest, which has film and the unspecified one.
   */
  lemma MatrixOf(dataspace: u32)
    ensures
      var s, r := dataspace / 0x1_0000 % 0x40, if dataspace / 0x800_0000 % 2 == 1 then 1 else 0;
      && (s in {2, 3, 4, 5} <==> FindMatrixIndex(dataspace) == 0 + r)
      && (s in {0, 1, 9} <==> FindMatrixIndex(dataspace) == 2 + r)
      && (s in {6, 7} <==> FindMatrixIndex(dataspace) == 4 + r)
      && (s == 10 <==> FindMatrixIndex(dataspace) == 6 + r)
      && (s in {8, 11} <==> FindMatrixIndex(dataspace) == 510 + r)
      && (s >= 12 <==> FindMatrixIndex(dataspace) == 200)
  {
  }

  /** BT470M in the limited range. */
  lemma BehindTheMatrices()
    ensures FindMatrixIndex(0x8_0000) == 510 && !Listed(0x8_0000) && !ValidTarget(510)
  {
    assert Standard(0x8_0000) == 8;
  }

  /** Two dataspaces share a matrix exactly if they have the same standard's matrix and the same range. */
  lemma SameMatrix(a: u32, b: u32)
    requires Listed(a) && Listed(b) && Standard(a) < |STANDARDS| && Standard(b) < |STANDARDS|
    ensures FindMatrixIndex(a) == FindMatrixIndex(b)
            <==> STANDARDS[Standard(a)] == STANDARDS[Standard(b)] && FullRange(a) == FullRange(b)
  {
  }

  /** The conversion matrices in both directions. */
  datatype Matrices = Matrices(toRgb: seq<seq<u32>>, toYcbcr: seq<seq<u32>>) {
    ghost predicate Valid() {
      && |toRgb| == |toYcbcr| == MATRICES
      && forall i :: 0 <= i < MATRICES ==> |toRgb[i]| == |toYcbcr[i]| == MATRIX_REGISTERS
    }
  }

  // ---------------------------------------------------------------- register lists

  ghost function MatrixRegs(base: nat, matrix: seq<u32>): (r: seq<Reg>)
    requires |matrix| == MATRIX_REGISTERS
    ensures |r| == MATRIX_REGISTERS
  {
    seq(MATRIX_REGISTERS, k requires 0 <= k < MATRIX_REGISTERS => Reg(base + 4 * k, matrix[k]))
  }

  ghost predicate DistinctSlots(slots: seq<nat>) {
    |slots| <= MATRIX_MAX_COUNT && forall i, j :: 0 <= i < j < |slots| ==> slots[i] != slots[j]
  }

  /** There is a matrix for each of the slots. */
  ghost predicate ValidSlots(slots: seq<nat>) {
    DistinctSlots(slots) && forall i :: 0 <= i < |slots| ==> slots[i] < MATRICES
  }

  ghost function SlotsRegs(m: Matrices, slots: seq<nat>, n: nat): (r: seq<Reg>)
    requires m.Valid() && ValidSlots(slots) && n <= |slots|
    ensures |r| == MATRIX_REGISTERS * n
  {
    if n == 0 then []
    else SlotsRegs(m, slots, n - 1) + MatrixRegs(MATRIX_SRC_BASE + (n - 1) * 4 * MATRIX_REGISTERS, m.toRgb[slots[n - 1]])
  }

  ghost predicate ValidTarget(target: nat) {
    target < MATRICES || target == MATRIX_INVALID_INDEX
  }

  ghost function TargetRegs(m: Matrices, target: nat): (r: seq<Reg>)
    requires m.Valid() && ValidTarget(target)
    ensures |r| == if target == MATRIX_INVALID_INDEX then 0 else MATRIX_REGISTERS
  {
    if target == MATRIX_INVALID_INDEX then [] else MatrixRegs(MATRIX_DST_BASE, m.toYcbcr[target])
  }

  /** The target's matrix comes first. */
  ghost function CscRegs(m: Matrices, target: nat, slots: seq<nat>): (r: seq<Reg>)
    requires m.Valid() && ValidTarget(target) && ValidSlots(slots)
  {
    TargetRegs(m, target) + SlotsRegs(m, slots, |slots|)
  }

  /** A selector names the slot whose registers hold the matrix that was put there. */
  lemma {:induction false} SlotAt(m: Matrices, slots: seq<nat>, n: nat, i: nat, k: nat)
    requires m.Valid() && ValidSlots(slots) && i < n <= |slots| && k < MATRIX_REGISTERS
    ensures SlotsRegs(m, slots, n)[MATRIX_REGISTERS * i + k]
            == Reg(MATRIX_SRC_BASE + 4 * (MATRIX_REGISTERS * i + k), m.toRgb[slots[i]][k])
  {
    if i < n - 1 {
      SlotAt(m, slots, n - 1, i, k);
    }
  }

  lemma MatrixRegsDistinct(base: nat, matrix: seq<u32>)
    requires |matrix| == MATRIX_REGISTERS
    ensures Distinct(MatrixRegs(base, matrix)) && Within(MatrixRegs(base, matrix), base, base + 4 * MATRIX_REGISTERS)
  {
  }

  lemma {:induction false} SlotsRegsDistinct(m: Matrices, slots: seq<nat>, n: nat)
    requires m.Valid() && ValidSlots(slots) && n <= |slots|
    ensures Distinct(SlotsRegs(m, slots, n))
    ensures Within(SlotsRegs(m, slots, n), MATRIX_SRC_BASE, MATRIX_SRC_BASE + 4 * MATRIX_REGISTERS * n)
  {
    hide MatrixRegs;
    if n > 0 {
      var base := MATRIX_SRC_BASE + (n - 1) * 4 * MATRIX_REGISTERS;
      SlotsRegsDistinct(m, slots, n - 1);
      MatrixRegsDistinct(base, m.toRgb[slots[n - 1]]);
      DistinctConcat(SlotsRegs(m, slots, n - 1), MatrixRegs(base, m.toRgb[slots[n - 1]]),
                     MATRIX_SRC_BASE, base, base + 4 * MATRIX_REGISTERS);
    }
  }

  /** No extra register is written twice by colour conversion and filters. */
  lemma ExtraDistinct(m: Matrices, target: nat, slots: seq<nat>, t: Tables, sources: seq<Source>)
    requires m.Valid() && ValidTarget(target) && ValidSlots(slots) && t.Valid()
    ensures Distinct(CscRegs(m, target, slots) + LayersRegs(t, sources, |sources|))
  {
    hide SlotsRegs, MatrixRegs, LayersRegs, Tables.Valid;
    SlotsRegsDistinct(m, slots, |slots|);
    if target != MATRIX_INVALID_INDEX {
      MatrixRegsDistinct(MATRIX_DST_BASE, m.toYcbcr[target]);
    }
    LayersRegsDistinct(t, sources, |sources|);
    var a, b, c := TargetRegs(m, target), SlotsRegs(m, slots, |slots|), LayersRegs(t, sources, |sources|);
    assert Distinct(a + b) && Within(a + b, 0, FILTER_COEF_BASE);
    DistinctConcat(a + b, c, 0, FILTER_COEF_BASE, FILTER_COEF_BASE + |sources| * FILTER_BANK);
  }

  lemma SlotTaken(slots: seq<nat>, index: nat)
    requires DistinctSlots(slots) && |slots| < MATRIX_MAX_COUNT && index !in slots
    ensures DistinctSlots(slots + [index])
    ensures ValidSlots(slots + [index]) <==> ValidSlots(slots) && index < MATRICES
  {
    var more := slots + [index];
    assert more[|slots|] == index && forall i :: 0 <= i < |slots| ==> more[i] == slots[i];
  }

  // ---------------------------------------------------------------- the matrix writer

  class CscMatrixWriter {
    var slots: seq<nat>
    var target: nat

    ghost predicate Valid()
      reads this
    {
      DistinctSlots(slots)
    }

    /** Only matrices that exist are going to be written. */
    ghost predicate InTables()
      reads this
    {
      ValidSlots(slots) && ValidTarget(target)
    }

    /** A target with an unsupported dataspace is let through without a matrix. */
    constructor (format: u32, dataspace: u32)
      ensures Valid() && slots == []
      ensures InTables() <==> (IsYuv(format) ==> Listed(dataspace))
      ensures target == if IsYuv(format) then FindMatrixIndex(dataspace) else MATRIX_INVALID_INDEX
    {
      slots, target := [], MATRIX_INVALID_INDEX;
      if IsYuv(format) {
        MatrixIffListed(dataspace);
        target := FindMatrixIndex(dataspace);
      }
    }

    /** Gives a layer the slot of its matrix, which it shares with others or takes anew. */
    method Configure(format: u32, dataspace: u32) returns (ok: bool, command: u32)
      requires Valid()
      modifies this`slots
      ensures Valid() && old(slots) <= slots
      ensures ValidSlots(slots) <==> ValidSlots(old(slots)) && (ok && IsYuv(format) ==> Listed(dataspace))
      ensures ok <==> IsYuv(format) ==>
                        Standard(dataspace) < |STANDARDS|
                        && (FindMatrixIndex(dataspace) in old(slots) || |old(slots)| < MATRIX_MAX_COUNT)
      ensures ok && IsYuv(format) ==> Resolves(slots, command, dataspace)
      ensures !ok || !IsYuv(format) ==> slots == old(slots)
      ensures ok && IsYuv(format) ==> slots in {old(slots), old(slots) + [FindMatrixIndex(dataspace)]}
      ensures !IsYuv(format) ==> command == 0
    {
      hide Standard, FullRange, Listed, FindMatrixIndex;
      command := 0;
      if !IsYuv(format) {
        return true, 0;
      }
      MatrixIffListed(dataspace);
      var spcidx := FindMatrixIndex(dataspace);
      if spcidx == MATRIX_INVALID_INDEX {
        return false, 0;
      }
      if FullRange(dataspace) {
        command := YCBCRMODE_WIDE;
      }
      for i := 0 to |slots|
        invariant forall j :: 0 <= j < i ==> slots[j] != spcidx
      {
        if slots[i] == spcidx {
          return true, command + i;
        }
      }
      if |slots| == MATRIX_MAX_COUNT {
        return false, command;
      }
      command := command + |slots|;
      SlotTaken(slots, spcidx);
      slots := slots + [spcidx];
      return true, command;
    }

    function RegisterCount(): nat
      reads this
    {
      MATRIX_REGISTERS * |slots| + if target != MATRIX_INVALID_INDEX then MATRIX_REGISTERS else 0
    }

    method Write(m: Matrices, regs: array<Reg>) returns (count: nat)
      requires InTables() && m.Valid() && RegisterCount() <= regs.Length
      modifies regs
      ensures count == RegisterCount() == |CscRegs(m, target, slots)|
      ensures regs[..] == Patched(old(regs[..]), 0, CscRegs(m, target, slots))
    {
      hide Patched, MatrixRegs;
      ghost var was, first := regs[..], TargetRegs(m, target);
      PatchedNone(was, 0);
      count := 0;
      if target != MATRIX_INVALID_INDEX {
        WriteSingle(MATRIX_DST_BASE, m.toYcbcr[target], regs, count);
        count := count + MATRIX_REGISTERS;
      }
      assert first + SlotsRegs(m, slots, 0) == first;
      for i := 0 to |slots|
        invariant count == |first| + MATRIX_REGISTERS * i
        invariant regs[..] == Patched(was, 0, first + SlotsRegs(m, slots, i))
      {
        ghost var base := MATRIX_SRC_BASE + i * 4 * MATRIX_REGISTERS;
        WriteSingle(MATRIX_SRC_BASE + i * 4 * MATRIX_REGISTERS, m.toRgb[slots[i]], regs, count);
        OneSlotMore(was, first, SlotsRegs(m, slots, i), MatrixRegs(base, m.toRgb[slots[i]]));
        count := count + MATRIX_REGISTERS;
      }
    }
  }

  lemma OneSlotMore(was: seq<Reg>, a: seq<Reg>, b: seq<Reg>, c: seq<Reg>)
    requires |a| + |b| + |c| <= |was|
    ensures Patched(Patched(was, 0, a + b), |a| + |b|, c) == Patched(was, 0, a + (b + c))
  {
    PatchedTwice(was, 0, a + b, c);
    assert a + b + c == a + (b + c);
  }

  method WriteSingle(base: nat, matrix: seq<u32>, regs: array<Reg>, at: nat)
    requires |matrix| == MATRIX_REGISTERS && at + MATRIX_REGISTERS <= regs.Length
    modifies regs
    ensures regs[..] == Patched(old(regs[..]), at, MatrixRegs(base, matrix))
  {
    var offset := base;
    for idx := 0 to MATRIX_REGISTERS
      invariant offset == base + 4 * idx
      invariant forall i :: 0 <= i < regs.Length ==>
        regs[i] == if at <= i < at + idx then Reg(base + 4 * (i - at), matrix[i - at]) else old(regs[i])
    {
      regs[at + idx] := Reg(offset, matrix[idx]);
      offset := offset + 4;
    }
  }

  /** The mode register selects the slot that holds the matrix of the layer's own dataspace. */
  ghost predicate Resolves(slots: seq<nat>, command: u32, dataspace: u32) {
    && command % 0x10 < |slots| && slots[command % 0x10] == FindMatrixIndex(dataspace)
    && command / 0x10 == if FullRange(dataspace) then 1 else 0
  }

  lemma ResolvesLater(slots: seq<nat>, more: seq<nat>, command: u32, dataspace: u32)
    requires Resolves(slots, command, dataspace) && slots <= more
    ensures Resolves(more, command, dataspace)
  {
  }

  /** What the hardware finds in the extra registers for a layer whose selector resolves: matrix and range. */
  lemma SelectedMatrix(m: Matrices, target: nat, slots: seq<nat>, command: u32, dataspace: u32, k: nat)
    requires m.Valid() && ValidTarget(target) && ValidSlots(slots) && k < 9
    requires Resolves(slots, command, dataspace)
    ensures FindMatrixIndex(dataspace) < MATRICES
    ensures
      var i := command % 0x10;
      Reg(0x2000 + 4 * (9 * i + k), m.toRgb[FindMatrixIndex(dataspace)][k]) in CscRegs(m, target, slots)
    ensures command / 0x10 == dataspace / 0x800_0000 % 2
  {
    hide SlotsRegs, FindMatrixIndex, Standard;
    var i := command % 0x10;
    SlotAt(m, slots, |slots|, i, k);
    var front := TargetRegs(m, target);
    assert CscRegs(m, target, slots)[|front| + MATRIX_REGISTERS * i + k]
        == SlotsRegs(m, slots, |slots|)[MATRIX_REGISTERS * i + k];
  }

  /** A target with a matrix has it in its own registers, in the opposite direction. */
  lemma TargetMatrix(m: Matrices, target: nat, slots: seq<nat>, k: nat)
    requires m.Valid() && target < 8 && ValidSlots(slots) && k < 9
    ensures Reg(0x2100 + 4 * k, m.toYcbcr[target][k]) in CscRegs(m, target, slots)
  {
    assert CscRegs(m, target, slots)[k] == Reg(0x2100 + 4 * k, m.toYcbcr[target][k]);
  }

  /** The colour modes with a YUV data format. */
  lemma IsYuvIff(colormode: u32)
    ensures IsYuv(colormode) <==> 8 <= colormode / 0x1_0000 % 0x10 <= 12
  {
  }

  // ---------------------------------------------------------------- the whole list

  /** A layer as it has been prepared, and the dataspace of its image. */
  datatype Layer = Layer(colormode: u32, xscale: u32, yscale: u32, dataspace: u32)

  /** The matrices that the first `n` layers need. */
  ghost function Needed(layers: seq<Layer>, n: nat): set<nat>
    requires n <= |layers|
  {
    if n == 0 then {}
    else Needed(layers, n - 1)
         + if IsYuv(layers[n - 1].colormode) then {FindMatrixIndex(layers[n - 1].dataspace)} else {}
  }

  ghost predicate Supported(layers: seq<Layer>, n: nat)
    requires n <= |layers|
  {
    forall i :: 0 <= i < n && IsYuv(layers[i].colormode) ==> Standard(layers[i].dataspace) < |STANDARDS|
  }

  /** Every standard that layers use has a matrix. */
  ghost predicate AllListed(layers: seq<Layer>, n: nat)
    requires n <= |layers|
  {
    forall i :: 0 <= i < n && IsYuv(layers[i].colormode) ==> Listed(layers[i].dataspace)
  }

  ghost function Elements(slots: seq<nat>): set<nat> {
    set x | x in slots
  }

  lemma {:induction false} ElementCount(slots: seq<nat>)
    requires forall i, j :: 0 <= i < j < |slots| ==> slots[i] != slots[j]
    ensures |Elements(slots)| == |slots|
  {
    if slots != [] {
      var n := |slots| - 1;
      ElementCount(slots[..n]);
      assert slots == slots[..n] + [slots[n]];
      assert Elements(slots) == Elements(slots[..n]) + {slots[n]};
    }
  }

  lemma {:induction false} NeededGrows(layers: seq<Layer>, n: nat, k: nat)
    requires n <= k <= |layers|
    ensures Needed(layers, n) <= Needed(layers, k)
    decreases k - n
  {
    if n < k {
      NeededGrows(layers, n, k - 1);
    }
  }

  lemma FiniteSubset(a: set<nat>, b: set<nat>)
    requires a <= b
    ensures |a| <= |b|
    decreases |a|
  {
    if a != {} {
      var x :| x in a;
      FiniteSubset(a - {x}, b - {x});
    }
  }

  /** What `executeG2D` configures and hands to the driver, colour conversion and filters of the source layers first. */
  ghost predicate Configured(layers: seq<Layer>, sources: seq<Source>, slots: seq<nat>, n: nat) {
    && n <= |layers| && n <= |sources| && DistinctSlots(slots)
    && (ValidSlots(slots) <==> AllListed(layers, n))
    && (forall i :: 0 <= i < n ==>
          && sources[i].colormode == layers[i].colormode
          && sources[i].xscale == layers[i].xscale && sources[i].yscale == layers[i].yscale
          && (if IsYuv(layers[i].colormode) then Resolves(slots, sources[i].ycbcrmode, layers[i].dataspace)
              else sources[i].ycbcrmode == 0))
    && Elements(slots) == Needed(layers, n) && Supported(layers, n)
  }

  /** Succeeds exactly if every layer's dataspace is supported and no more than four matrices are needed. */
  method ConfigureLayers(w: CscMatrixWriter, layers: seq<Layer>) returns (ok: bool, sources: seq<Source>)
    requires w.Valid() && w.slots == []
    modifies w`slots
    ensures w.Valid() && (ok ==> |sources| == |layers| && Configured(layers, sources, w.slots, |layers|))
    ensures ok <==> Supported(layers, |layers|) && |Needed(layers, |layers|)| <= 4
  {
    hide Resolves, Standard, FindMatrixIndex, IsYuv, Listed;
    sources := [];
    for i := 0 to |layers|
      invariant w.Valid() && |sources| == i && Configured(layers, sources, w.slots, i)
    {
      ghost var slots := w.slots;
      var l := layers[i];
      var command;
      ok, command := w.Configure(l.colormode, l.dataspace);
      if !ok {
        NotConfigured(layers, slots, i);
        return false, sources;
      }
      ConfiguredNext(layers, sources, slots, w.slots, i, command);
      sources := sources + [Source(l.colormode, l.xscale, l.yscale, command)];
    }
    ElementCount(w.slots);
    return true, sources;
  }

  lemma NotConfigured(layers: seq<Layer>, slots: seq<nat>, i: nat)
    requires i < |layers| && DistinctSlots(slots) && Elements(slots) == Needed(layers, i) && IsYuv(layers[i].colormode)
    requires Standard(layers[i].dataspace) >= |STANDARDS|
             || (FindMatrixIndex(layers[i].dataspace) !in slots && |slots| >= MATRIX_MAX_COUNT)
    ensures !(Supported(layers, |layers|) && |Needed(layers, |layers|)| <= MATRIX_MAX_COUNT)
  {
    hide Standard, FindMatrixIndex, IsYuv;
    if Standard(layers[i].dataspace) < |STANDARDS| {
      ElementCount(slots);
      assert Needed(layers, i + 1) == Elements(slots) + {FindMatrixIndex(layers[i].dataspace)};
      NeededGrows(layers, i + 1, |layers|);
      FiniteSubset(Needed(layers, i + 1), Needed(layers, |layers|));
    }
  }

  lemma ConfiguredNext(layers: seq<Layer>, sources: seq<Source>, slots: seq<nat>, slots': seq<nat>, i: nat, command: u32)
    requires i < |layers| && |sources| == i && Configured(layers, sources, slots, i) && DistinctSlots(slots') && slots <= slots'
    requires ValidSlots(slots') <==> ValidSlots(slots) && (IsYuv(layers[i].colormode) ==> Listed(layers[i].dataspace))
    requires IsYuv(layers[i].colormode) ==>
               Resolves(slots', command, layers[i].dataspace) && Standard(layers[i].dataspace) < |STANDARDS|
               && slots' in {slots, slots + [FindMatrixIndex(layers[i].dataspace)]}
    requires !IsYuv(layers[i].colormode) ==> slots' == slots && command == 0
    ensures Configured(layers, sources + [Source(layers[i].colormode, layers[i].xscale, layers[i].yscale, command)], slots', i + 1)
  {
    hide Standard, FindMatrixIndex, IsYuv, Resolves;
    forall j | 0 <= j < i && IsYuv(layers[j].colormode)
      ensures Resolves(slots', sources[j].ycbcrmode, layers[j].dataspace)
    {
      ResolvesLater(slots, slots', sources[j].ycbcrmode, layers[j].dataspace);
    }
    if IsYuv(layers[i].colormode) {
      SelectedIsElement(slots', command, layers[i].dataspace);
    }
    assert Elements(slots') == Needed(layers, i + 1);
  }

  lemma SelectedIsElement(slots: seq<nat>, command: u32, dataspace: u32)
    requires Resolves(slots, command, dataspace)
    ensures FindMatrixIndex(dataspace) in slots
  {
  }

  /** The extra registers of a task: as many as counted, each in its place. */
  method BuildExtra(t: Tables, m: Matrices, w: CscMatrixWriter, polyphase: bool, sources: seq<Source>, hdr: seq<Reg>)
    returns (extra: array<Reg>)
    requires t.Valid() && m.Valid() && w.InTables()
    ensures fresh(extra)
    ensures extra[..] == CscRegs(m, w.target, w.slots) + (if polyphase then LayersRegs(t, sources, |sources|) else []) + hdr
  {
    hide Patched, Tables.Valid, Matrices.Valid, SlotsRegs, LayersRegs;
    var count := w.RegisterCount() + |hdr|;
    if polyphase {
      var more := GetFilterCoefficientCount(t, sources);
      count := count + more;
    }
    extra := new Reg[count](_ => Reg(0, 0));
    ghost var was := extra[..];
    ghost var a, b := CscRegs(m, w.target, w.slots), if polyphase then LayersRegs(t, sources, |sources|) else [];
    CscCount(m, w.target, w.slots);
    var at := w.Write(m, extra);
    var more := UpdateFilterCoefficients(t, polyphase, sources, extra, at);
    PatchedTwice(was, 0, a, b);
    at := at + more;
    WriteHdr(hdr, extra, at);
    PatchedTwice(was, 0, a + b, hdr);
    PatchedWhole(was, a + b + hdr);
  }

  lemma CscCount(m: Matrices, target: nat, slots: seq<nat>)
    requires m.Valid() && ValidTarget(target) && ValidSlots(slots)
    ensures |CscRegs(m, target, slots)|
            == MATRIX_REGISTERS * |slots| + if target != MATRIX_INVALID_INDEX then MATRIX_REGISTERS else 0
  {
  }

  lemma PatchedWhole(s: seq<Reg>, part: seq<Reg>)
    requires |part| == |s|
    ensures Patched(s, 0, part) == part
  {
  }

  method WriteHdr(hdr: seq<Reg>, regs: array<Reg>, at: nat)
    requires at + |hdr| <= regs.Length
    modifies regs
    ensures regs[..] == Patched(old(regs[..]), at, hdr)
  {
    for i := 0 to |hdr|
      invariant forall k :: 0 <= k < regs.Length ==> regs[k] == if at <= k < at + i then hdr[k - at] else old(regs[k])
    {
      regs[at + i] := hdr[i];
    }
  }
}
