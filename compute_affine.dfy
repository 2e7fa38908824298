/**
 * The gap-affine compute step (`wavefront_compute_affine`): from the
 * wavefronts at the previous scores it computes, for every diagonal of
 * `[lo, hi]`, the furthest offsets of the I1 (insertion), D1 (deletion) and
 * M (match/mismatch) components. The plain kernel computes offsets only;
 * the piggyback kernel also carries each diagonal's register and
 * back-pointer along with the winning offset and then offloads the
 * registers that may fill up.
 */
module ComputeAffine {
  import opened Pcigar
  import opened BacktraceBuffer
  import opened Wavefronts
  import opened PiggybackOffload

  /** New I1 offset from the gap-open (M at `k-1`) and extend (I1 at `k-1`) sources. */
  function InsOffset(open: int, ext: int): (r: int)
    ensures r == open + 1 || r == ext + 1
    ensures r >= open + 1 && r >= ext + 1
  {
    Max(open, ext) + 1
  }

  /** New D1 offset from the gap-open (M at `k+1`) and extend (D1 at `k+1`) sources. */
  function DelOffset(open: int, ext: int): (r: int)
    ensures r == open || r == ext
    ensures r >= open && r >= ext
  {
    Max(open, ext)
  }

  /** New M offset: the furthest of the new D1, the mismatch from M at `k`, and the new I1. */
  function MatchOffset(sub: int, ins: int, del: int): (r: int)
    ensures r == sub + 1 || r == ins || r == del
    ensures r >= sub + 1 && r >= ins && r >= del
  {
    Max(del, Max(sub + 1, ins))
  }

  /** `c` continues `src`: the offset moves by `delta` and the register records `op`. */
  predicate Continues(c: Cell, src: Cell, op: Op, delta: int)
  {
    c.offset == src.offset + delta && c.pcigar == PushBack(src.pcigar, op) && c.prev == src.prev
  }

  /**
   * Piggyback I1 cell: the offset of the plain kernel, continuing a source
   * that attains it with INS recorded; on a tie the extend source wins.
   */
  function StepI1(open: Cell, ext: Cell): (c: Cell)
    ensures c.offset == InsOffset(open.offset, ext.offset)
    ensures Continues(c, ext, Ins, 1) || Continues(c, open, Ins, 1)
    ensures ext.offset >= open.offset ==> Continues(c, ext, Ins, 1)
  {
    if ext.offset >= open.offset then Cell(ext.offset + 1, PushBack(ext.pcigar, Ins), ext.prev)
    else Cell(open.offset + 1, PushBack(open.pcigar, Ins), open.prev)
  }

  /**
   * Piggyback D1 cell: the offset of the plain kernel, continuing a source
   * that attains it with DEL recorded; on a tie the extend source wins.
   */
  function StepD1(open: Cell, ext: Cell): (c: Cell)
    ensures c.offset == DelOffset(open.offset, ext.offset)
    ensures Continues(c, ext, Del, 0) || Continues(c, open, Del, 0)
    ensures ext.offset >= open.offset ==> Continues(c, ext, Del, 0)
  {
    if ext.offset >= open.offset then Cell(ext.offset, PushBack(ext.pcigar, Del), ext.prev)
    else Cell(open.offset, PushBack(open.pcigar, Del), open.prev)
  }

  /**
   * Piggyback M cell, given M at `k` and the new I1 and D1 cells at `k`: the
   * offset of the plain kernel; register and back-pointer come from M if
   * its mismatch attains the maximum, else from D1 if D1 attains it, else
   * from I1, and MISMS is recorded on top (a real mismatch from M, a
   * placeholder for closing the gap from I1 or D1).
   */
  function StepM(sub: Cell, ins: Cell, del: Cell): (c: Cell)
    ensures c.offset == MatchOffset(sub.offset, ins.offset, del.offset)
    ensures c.offset == sub.offset + 1 ==> Continues(c, sub, Misms, 1)
    ensures c.offset != sub.offset + 1 && c.offset == del.offset ==> Continues(c, del, Misms, 0)
    ensures c.offset != sub.offset + 1 && c.offset != del.offset ==> Continues(c, ins, Misms, 0)
  {
    var max := MatchOffset(sub.offset, ins.offset, del.offset);
    var src := if max == sub.offset + 1 then sub else if max == del.offset then del else ins;
    Cell(max, PushBack(src.pcigar, Misms), src.prev)
  }

  /**
   * Registers never outgrow the occupancy bounds: if every source register
   * holds fewer operations than its wavefront's bound, the new registers
   * hold fewer than the bounds the offload step computes for I1, D1 and M.
   * When the source bounds are below a full register (as they are after
   * every step), the new registers therefore fit in one register, M's
   * extra push included.
   */
  lemma StepOccupancy(openI: Cell, extI: Cell, openD: Cell, extD: Cell, sub: Cell,
                      occGap1: int, occI1Ext: int, occD1Ext: int, occSub: int)
    requires |openI.pcigar| < occGap1 && |openD.pcigar| < occGap1
    requires |extI.pcigar| < occI1Ext && |extD.pcigar| < occD1Ext && |sub.pcigar| < occSub
    ensures var i1 := StepI1(openI, extI);
      var d1 := StepD1(openD, extD);
      var occI1 := GapOccupancy(occGap1, occI1Ext);
      var occD1 := GapOccupancy(occGap1, occD1Ext);
      && |i1.pcigar| < occI1 && |d1.pcigar| < occD1
      && |StepM(sub, i1, d1).pcigar| < MatchOccupancy(occSub, occI1, occD1)
    ensures occGap1 < MaxLength && occI1Ext < MaxLength && occD1Ext < MaxLength && occSub < MaxLength ==>
      var i1 := StepI1(openI, extI);
      var d1 := StepD1(openD, extD);
      |i1.pcigar| <= MaxLength && |d1.pcigar| <= MaxLength && |StepM(sub, i1, d1).pcigar| <= MaxLength
  {
  }

  /**
   * One piggyback step extends operation paths: the new I1 and D1 cells
   * have the path of their winning source with INS or DEL appended, and the
   * new M cell has the path of its winning source (M at `k`, or the source
   * the new D1 or I1 continued) with the pushed operations appended.
   */
  lemma StepPaths(pool: seq<Block>, openI: Cell, extI: Cell, openD: Cell, extD: Cell, sub: Cell)
    ensures var srcI := if extI.offset >= openI.offset then extI else openI;
      var srcD := if extD.offset >= openD.offset then extD else openD;
      var i1 := StepI1(openI, extI);
      var d1 := StepD1(openD, extD);
      var m := StepM(sub, i1, d1);
      && Path(pool, i1.prev, i1.pcigar) == Path(pool, srcI.prev, srcI.pcigar) + [Ins]
      && Path(pool, d1.prev, d1.pcigar) == Path(pool, srcD.prev, srcD.pcigar) + [Del]
      && Path(pool, m.prev, m.pcigar) ==
           if m.offset == sub.offset + 1 then Path(pool, sub.prev, sub.pcigar) + [Misms]
           else if m.offset == d1.offset then Path(pool, srcD.prev, srcD.pcigar) + [Del, Misms]
           else Path(pool, srcI.prev, srcI.pcigar) + [Ins, Misms]
  {
    var srcI := if extI.offset >= openI.offset then extI else openI;
    var srcD := if extD.offset >= openD.offset then extD else openD;
    var i1 := StepI1(openI, extI);
    var d1 := StepD1(openD, extD);
    var m := StepM(sub, i1, d1);
    assert History(pool, srcI.prev) + (srcI.pcigar + [Ins] + [Misms]) == History(pool, srcI.prev) + srcI.pcigar + [Ins, Misms];
    assert History(pool, srcD.prev) + (srcD.pcigar + [Del] + [Misms]) == History(pool, srcD.prev) + srcD.pcigar + [Del, Misms];
  }

  /** The offset recurrence at diagonal `k`, which both kernels satisfy. */
  ghost predicate OffsetsStep(ws: WavefrontSet, lo: int, hi: int, k: int)
    reads ws.inMSub.offsets, ws.inMGap1.offsets, ws.inI1Ext.offsets, ws.inD1Ext.offsets
    reads ws.outM.offsets, ws.outI1.offsets, ws.outD1.offsets
    requires ws.Valid(lo, hi) && lo <= k <= hi
  {
    && ws.outI1.Offset(k) == InsOffset(ws.inMGap1.Offset(k - 1), ws.inI1Ext.Offset(k - 1))
    && ws.outD1.Offset(k) == DelOffset(ws.inMGap1.Offset(k + 1), ws.inD1Ext.Offset(k + 1))
    && ws.outM.Offset(k) == MatchOffset(ws.inMSub.Offset(k), ws.outI1.Offset(k), ws.outD1.Offset(k))
  }

  /** The offset recurrence holds on every diagonal of `[lo, hi]`. */
  ghost predicate Recurrence(ws: WavefrontSet, lo: int, hi: int)
    reads ws.inMSub.offsets, ws.inMGap1.offsets, ws.inI1Ext.offsets, ws.inD1Ext.offsets
    reads ws.outM.offsets, ws.outI1.offsets, ws.outD1.offsets
    requires ws.Valid(lo, hi)
  {
    forall k :: lo <= k <= hi ==> OffsetsStep(ws, lo, hi, k)
  }

  /** One iteration of the plain compute loop: I1, D1, then M offsets at diagonal `k`. */
  method IdmDiagonal(ws: WavefrontSet, lo: int, hi: int, k: int)
    requires ws.Valid(lo, hi) && lo <= k <= hi
    modifies ws.outM.offsets, ws.outI1.offsets, ws.outD1.offsets
    ensures OffsetsStep(ws, lo, hi, k)
    ensures forall j :: lo <= j <= hi && j != k ==>
      && ws.outM.Offset(j) == old(ws.outM.Offset(j))
      && ws.outI1.Offset(j) == old(ws.outI1.Offset(j))
      && ws.outD1.Offset(j) == old(ws.outD1.Offset(j))
    ensures ws.outM.Outside(lo, hi) == old(ws.outM.Outside(lo, hi))
    ensures ws.outI1.Outside(lo, hi) == old(ws.outI1.Outside(lo, hi))
    ensures ws.outD1.Outside(lo, hi) == old(ws.outD1.Outside(lo, hi))
  {
    var ins1O := ws.inMGap1.offsets[k - 1 - ws.inMGap1.base];
    var ins1E := ws.inI1Ext.offsets[k - 1 - ws.inI1Ext.base];
    var ins1 := Max(ins1O, ins1E) + 1;
    ws.outI1.offsets[k - ws.outI1.base] := ins1;
    var del1O := ws.inMGap1.offsets[k + 1 - ws.inMGap1.base];
    var del1E := ws.inD1Ext.offsets[k + 1 - ws.inD1Ext.base];
    var del1 := Max(del1O, del1E);
    ws.outD1.offsets[k - ws.outD1.base] := del1;
    var sub := ws.inMSub.offsets[k - ws.inMSub.base] + 1;
    ws.outM.offsets[k - ws.outM.base] := Max(del1, Max(sub, ins1));
  }

  /**
   * `wavefront_compute_affine_idm`: writes the new I1, D1 and M offsets of
   * every diagonal in `[lo, hi]` and nothing else.
   */
  method ComputeIdm(ws: WavefrontSet, lo: int, hi: int)
    requires ws.Valid(lo, hi)
    modifies ws.outM.offsets, ws.outI1.offsets, ws.outD1.offsets
    ensures Recurrence(ws, lo, hi)
    ensures ws.outM.Outside(lo, hi) == old(ws.outM.Outside(lo, hi))
    ensures ws.outI1.Outside(lo, hi) == old(ws.outI1.Outside(lo, hi))
    ensures ws.outD1.Outside(lo, hi) == old(ws.outD1.Outside(lo, hi))
  {
    var k := lo;
    while k <= hi
      invariant lo <= k && (k == lo || k <= hi + 1)
      invariant forall j :: lo <= j < k ==> OffsetsStep(ws, lo, hi, j)
      invariant ws.outM.Outside(lo, hi) == old(ws.outM.Outside(lo, hi))
      invariant ws.outI1.Outside(lo, hi) == old(ws.outI1.Outside(lo, hi))
      invariant ws.outD1.Outside(lo, hi) == old(ws.outD1.Outside(lo, hi))
    {
      label before:
      IdmDiagonal(ws, lo, hi, k);
      forall j | lo <= j < k
        ensures OffsetsStep(ws, lo, hi, j)
      {
        assert old@before(OffsetsStep(ws, lo, hi, j));
      }
      k := k + 1;
    }
  }

  /** "Update I1" of the piggyback kernel at diagonal `k`; returns the new offset (`ins1`). */
  method PiggybackI1(out: Wavefront, open: Wavefront, ext: Wavefront, lo: int, hi: int, k: int) returns (ins1: int)
    requires out.Valid() && open.Valid() && ext.Valid()
    requires out.Covers(lo, hi) && lo <= k <= hi && open.Holds(k - 1) && ext.Holds(k - 1)
    requires out.Apart(open) && out.Apart(ext)
    modifies out.offsets, out.btPcigar, out.btPrev
    ensures out.CellAt(k) == StepI1(open.CellAt(k - 1), ext.CellAt(k - 1))
    ensures ins1 == out.Offset(k)
    ensures forall j :: lo <= j <= hi && j != k ==> out.CellAt(j) == old(out.CellAt(j))
    ensures out.Outside(lo, hi) == old(out.Outside(lo, hi))
  {
    var i := k - out.base;
    var ins1O := open.offsets[k - 1 - open.base];
    var ins1E := ext.offsets[k - 1 - ext.base];
    if ins1E >= ins1O {
      ins1 := ins1E + 1;
      out.btPcigar[i] := PushBack(ext.btPcigar[k - 1 - ext.base], Ins);
      out.btPrev[i] := ext.btPrev[k - 1 - ext.base];
    } else {
      ins1 := ins1O + 1;
      out.btPcigar[i] := PushBack(open.btPcigar[k - 1 - open.base], Ins);
      out.btPrev[i] := open.btPrev[k - 1 - open.base];
    }
    out.offsets[i] := ins1;
  }

  /** "Update D1" of the piggyback kernel at diagonal `k`; returns the new offset (`del1`). */
  method PiggybackD1(out: Wavefront, open: Wavefront, ext: Wavefront, lo: int, hi: int, k: int) returns (del1: int)
    requires out.Valid() && open.Valid() && ext.Valid()
    requires out.Covers(lo, hi) && lo <= k <= hi && open.Holds(k + 1) && ext.Holds(k + 1)
    requires out.Apart(open) && out.Apart(ext)
    modifies out.offsets, out.btPcigar, out.btPrev
    ensures out.CellAt(k) == StepD1(open.CellAt(k + 1), ext.CellAt(k + 1))
    ensures del1 == out.Offset(k)
    ensures forall j :: lo <= j <= hi && j != k ==> out.CellAt(j) == old(out.CellAt(j))
    ensures out.Outside(lo, hi) == old(out.Outside(lo, hi))
  {
    var i := k - out.base;
    var del1O := open.offsets[k + 1 - open.base];
    var del1E := ext.offsets[k + 1 - ext.base];
    if del1E >= del1O {
      del1 := del1E;
      out.btPcigar[i] := PushBack(ext.btPcigar[k + 1 - ext.base], Del);
      out.btPrev[i] := ext.btPrev[k + 1 - ext.base];
    } else {
      del1 := del1O;
      out.btPcigar[i] := PushBack(open.btPcigar[k + 1 - open.base], Del);
      out.btPrev[i] := open.btPrev[k + 1 - open.base];
    }
    out.offsets[i] := del1;
  }

  /**
   * "Update M" of the piggyback kernel at diagonal `k`, given the new I1 and
   * D1 wavefronts and their offsets at `k`. The register and back-pointer
   * are overwritten by each source that attains the maximum, in the order
   * I1, D1, M, so the last one standing wins.
   */
  method PiggybackM(out: Wavefront, sub: Wavefront, i1: Wavefront, d1: Wavefront, lo: int, hi: int, k: int, ins1: int, del1: int)
    requires out.Valid() && sub.Valid() && i1.Valid() && d1.Valid()
    requires out.Covers(lo, hi) && lo <= k <= hi && sub.Holds(k) && i1.Holds(k) && d1.Holds(k)
    requires out.Apart(sub) && out.Apart(i1) && out.Apart(d1)
    requires ins1 == i1.Offset(k) && del1 == d1.Offset(k)
    modifies out.offsets, out.btPcigar, out.btPrev
    ensures out.CellAt(k) == StepM(sub.CellAt(k), i1.CellAt(k), d1.CellAt(k))
    ensures forall j :: lo <= j <= hi && j != k ==> out.CellAt(j) == old(out.CellAt(j))
    ensures out.Outside(lo, hi) == old(out.Outside(lo, hi))
  {
    var i := k - out.base;
    var subOffset := sub.offsets[k - sub.base] + 1;
    var max := Max(del1, Max(subOffset, ins1));
    ghost var src := if max == subOffset then sub.CellAt(k) else if max == del1 then d1.CellAt(k) else i1.CellAt(k);
    PiggybackMSource(out, sub, i1, d1, k, max, subOffset, ins1, del1);
    out.btPcigar[i] := PushBack(out.btPcigar[i], Misms);
    out.offsets[i] := max;
    assert out.offsets[..] == old(out.offsets[..])[i := max];
    assert out.btPcigar[..] == old(out.btPcigar[..])[i := PushBack(src.pcigar, Misms)];
    assert out.btPrev[..] == old(out.btPrev[..])[i := src.prev];
  }

  /** The three overwrites of "Update M": the register and back-pointer of the last source attaining `max`. */
  method PiggybackMSource(out: Wavefront, sub: Wavefront, i1: Wavefront, d1: Wavefront, k: int,
                          max: int, subOffset: int, ins1: int, del1: int)
    requires out.Valid() && sub.Valid() && i1.Valid() && d1.Valid()
    requires out.Holds(k) && sub.Holds(k) && i1.Holds(k) && d1.Holds(k)
    requires out.Apart(sub) && out.Apart(i1) && out.Apart(d1)
    requires subOffset == sub.Offset(k) + 1 && ins1 == i1.Offset(k) && del1 == d1.Offset(k)
    modifies out.btPcigar, out.btPrev
    ensures var src := if max == subOffset then sub.CellAt(k) else if max == del1 then d1.CellAt(k) else if max == ins1 then i1.CellAt(k) else old(out.CellAt(k));
      && out.btPcigar[..] == old(out.btPcigar[..])[k - out.base := src.pcigar]
      && out.btPrev[..] == old(out.btPrev[..])[k - out.base := src.prev]
  {
    var i := k - out.base;
    if max == ins1 {
      out.btPcigar[i] := i1.btPcigar[k - i1.base];
      out.btPrev[i] := i1.btPrev[k - i1.base];
    }
    if max == del1 {
      out.btPcigar[i] := d1.btPcigar[k - d1.base];
      out.btPrev[i] := d1.btPrev[k - d1.base];
    }
    if max == subOffset {
      out.btPcigar[i] := sub.btPcigar[k - sub.base];
      out.btPrev[i] := sub.btPrev[k - sub.base];
    }
  }

  /**
   * The cells the piggyback compute loop produces for diagonals `lo..hi`,
   * in diagonal order, before anything is offloaded.
   */
  ghost predicate PiggybackComputes(ws: WavefrontSet, lo: int, hi: int, cI1: seq<Cell>, cD1: seq<Cell>, cM: seq<Cell>)
    reads ws.inMSub.offsets, ws.inMSub.btPcigar, ws.inMSub.btPrev
    reads ws.inMGap1.offsets, ws.inMGap1.btPcigar, ws.inMGap1.btPrev
    reads ws.inI1Ext.offsets, ws.inI1Ext.btPcigar, ws.inI1Ext.btPrev
    reads ws.inD1Ext.offsets, ws.inD1Ext.btPcigar, ws.inD1Ext.btPrev
    requires ws.Valid(lo, hi)
  {
    && |cI1| == Width(lo, hi) && |cD1| == Width(lo, hi) && |cM| == Width(lo, hi)
    && forall t :: 0 <= t < |cI1| ==>
         && cI1[t] == StepI1(ws.inMGap1.CellAt(lo + t - 1), ws.inI1Ext.CellAt(lo + t - 1))
         && cD1[t] == StepD1(ws.inMGap1.CellAt(lo + t + 1), ws.inD1Ext.CellAt(lo + t + 1))
         && cM[t] == StepM(ws.inMSub.CellAt(lo + t), cI1[t], cD1[t])
  }

  /** The piggyback recurrence has cells for every input: the ones it gives on `[lo, hi]`. */
  lemma RecurrenceCells(ws: WavefrontSet, lo: int, hi: int) returns (cI1: seq<Cell>, cD1: seq<Cell>, cM: seq<Cell>)
    requires ws.Valid(lo, hi)
    ensures PiggybackComputes(ws, lo, hi, cI1, cD1, cM)
  {
    cI1 := InsCells(ws.inMGap1, ws.inI1Ext, lo, hi);
    cD1 := DelCells(ws.inMGap1, ws.inD1Ext, lo, hi);
    cM := MatchCells(ws.inMSub, lo, hi, cI1, cD1);
  }

  /** The I1 cells of the piggyback recurrence on `[lo, hi]`. */
  lemma InsCells(open: Wavefront, ext: Wavefront, lo: int, hi: int) returns (c: seq<Cell>)
    requires open.Valid() && ext.Valid() && open.Covers(lo - 1, hi - 1) && ext.Covers(lo - 1, hi - 1)
    ensures |c| == Width(lo, hi)
    ensures forall t :: 0 <= t < |c| ==> c[t] == StepI1(open.CellAt(lo + t - 1), ext.CellAt(lo + t - 1))
  {
    var n := Width(lo, hi);
    if n == 0 {
      c := [];
    } else {
      c := seq(n, t requires 0 <= t < n reads open.offsets, open.btPcigar, open.btPrev, ext.offsets, ext.btPcigar, ext.btPrev
                 => StepI1(open.CellAt(lo + t - 1), ext.CellAt(lo + t - 1)));
    }
  }

  /** The D1 cells of the piggyback recurrence on `[lo, hi]`. */
  lemma DelCells(open: Wavefront, ext: Wavefront, lo: int, hi: int) returns (c: seq<Cell>)
    requires open.Valid() && ext.Valid() && open.Covers(lo + 1, hi + 1) && ext.Covers(lo + 1, hi + 1)
    ensures |c| == Width(lo, hi)
    ensures forall t :: 0 <= t < |c| ==> c[t] == StepD1(open.CellAt(lo + t + 1), ext.CellAt(lo + t + 1))
  {
    var n := Width(lo, hi);
    if n == 0 {
      c := [];
    } else {
      c := seq(n, t requires 0 <= t < n reads open.offsets, open.btPcigar, open.btPrev, ext.offsets, ext.btPcigar, ext.btPrev
                 => StepD1(open.CellAt(lo + t + 1), ext.CellAt(lo + t + 1)));
    }
  }

  /** The M cells of the piggyback recurrence on `[lo, hi]`, given its I1 and D1 cells. */
  lemma MatchCells(sub: Wavefront, lo: int, hi: int, cI1: seq<Cell>, cD1: seq<Cell>) returns (c: seq<Cell>)
    requires sub.Valid() && sub.Covers(lo, hi)
    requires |cI1| == Width(lo, hi) && |cD1| == Width(lo, hi)
    ensures |c| == Width(lo, hi)
    ensures forall t :: 0 <= t < |c| ==> c[t] == StepM(sub.CellAt(lo + t), cI1[t], cD1[t])
  {
    var n := Width(lo, hi);
    if n == 0 {
      c := [];
    } else {
      c := seq(n, t requires 0 <= t < n reads sub.offsets, sub.btPcigar, sub.btPrev
                 => StepM(sub.CellAt(lo + t), cI1[t], cD1[t]));
    }
  }

  /** "Update I1" and "Update D1" of one iteration of the piggyback compute loop. */
  method PiggybackGaps(ws: WavefrontSet, lo: int, hi: int, k: int) returns (ins1: int, del1: int)
    requires ws.Valid(lo, hi) && lo <= k <= hi
    modifies ws.outI1.offsets, ws.outI1.btPcigar, ws.outI1.btPrev
    modifies ws.outD1.offsets, ws.outD1.btPcigar, ws.outD1.btPrev
    ensures ws.outI1.CellAt(k) == StepI1(ws.inMGap1.CellAt(k - 1), ws.inI1Ext.CellAt(k - 1))
    ensures ws.outD1.CellAt(k) == StepD1(ws.inMGap1.CellAt(k + 1), ws.inD1Ext.CellAt(k + 1))
    ensures ins1 == ws.outI1.Offset(k) && del1 == ws.outD1.Offset(k)
    ensures forall j :: lo <= j <= hi && j != k ==>
      ws.outI1.CellAt(j) == old(ws.outI1.CellAt(j)) && ws.outD1.CellAt(j) == old(ws.outD1.CellAt(j))
    ensures ws.outI1.Outside(lo, hi) == old(ws.outI1.Outside(lo, hi))
    ensures ws.outD1.Outside(lo, hi) == old(ws.outD1.Outside(lo, hi))
  {
    ins1 := PiggybackI1(ws.outI1, ws.inMGap1, ws.inI1Ext, lo, hi, k);
    label afterI1:
    del1 := PiggybackD1(ws.outD1, ws.inMGap1, ws.inD1Ext, lo, hi, k);
    assert ws.outI1.CellAt(k) == old@afterI1(ws.outI1.CellAt(k));
  }

  /** One iteration of the piggyback compute loop: I1, D1, then M at diagonal `k`. */
  method PiggybackDiagonal(ws: WavefrontSet, lo: int, hi: int, k: int,
                           ghost cI1: seq<Cell>, ghost cD1: seq<Cell>, ghost cM: seq<Cell>)
    requires ws.Valid(lo, hi) && lo <= k <= hi
    requires PiggybackComputes(ws, lo, hi, cI1, cD1, cM)
    modifies ws.outM.offsets, ws.outM.btPcigar, ws.outM.btPrev
    modifies ws.outI1.offsets, ws.outI1.btPcigar, ws.outI1.btPrev
    modifies ws.outD1.offsets, ws.outD1.btPcigar, ws.outD1.btPrev
    ensures ws.outI1.CellAt(k) == cI1[k - lo] && ws.outD1.CellAt(k) == cD1[k - lo] && ws.outM.CellAt(k) == cM[k - lo]
    ensures forall j :: lo <= j <= hi && j != k ==>
      && ws.outM.CellAt(j) == old(ws.outM.CellAt(j))
      && ws.outI1.CellAt(j) == old(ws.outI1.CellAt(j))
      && ws.outD1.CellAt(j) == old(ws.outD1.CellAt(j))
    ensures ws.outM.Outside(lo, hi) == old(ws.outM.Outside(lo, hi))
    ensures ws.outI1.Outside(lo, hi) == old(ws.outI1.Outside(lo, hi))
    ensures ws.outD1.Outside(lo, hi) == old(ws.outD1.Outside(lo, hi))
  {
    var ins1, del1 := PiggybackGaps(ws, lo, hi, k);
    label afterGaps:
    PiggybackM(ws.outM, ws.inMSub, ws.outI1, ws.outD1, lo, hi, k, ins1, del1);
    assert ws.outI1.CellAt(k) == old@afterGaps(ws.outI1.CellAt(k));
    assert ws.outD1.CellAt(k) == old@afterGaps(ws.outD1.CellAt(k));
  }

  /** One iteration of the piggyback compute loop, extending the diagonals already holding the recurrence's cells to `k`. */
  method PiggybackAdvance(ws: WavefrontSet, lo: int, hi: int, k: int,
                          ghost cI1: seq<Cell>, ghost cD1: seq<Cell>, ghost cM: seq<Cell>)
    requires ws.Valid(lo, hi) && lo <= k <= hi
    requires PiggybackComputes(ws, lo, hi, cI1, cD1, cM)
    requires forall j :: lo <= j < k ==>
      ws.outI1.CellAt(j) == cI1[j - lo] && ws.outD1.CellAt(j) == cD1[j - lo] && ws.outM.CellAt(j) == cM[j - lo]
    modifies ws.outM.offsets, ws.outM.btPcigar, ws.outM.btPrev
    modifies ws.outI1.offsets, ws.outI1.btPcigar, ws.outI1.btPrev
    modifies ws.outD1.offsets, ws.outD1.btPcigar, ws.outD1.btPrev
    ensures PiggybackComputes(ws, lo, hi, cI1, cD1, cM)
    ensures forall j :: lo <= j <= k ==>
      ws.outI1.CellAt(j) == cI1[j - lo] && ws.outD1.CellAt(j) == cD1[j - lo] && ws.outM.CellAt(j) == cM[j - lo]
    ensures ws.outM.Outside(lo, hi) == old(ws.outM.Outside(lo, hi))
    ensures ws.outI1.Outside(lo, hi) == old(ws.outI1.Outside(lo, hi))
    ensures ws.outD1.Outside(lo, hi) == old(ws.outD1.Outside(lo, hi))
  {
    PiggybackDiagonal(ws, lo, hi, k, cI1, cD1, cM);
    forall j | lo <= j < k
      ensures ws.outI1.CellAt(j) == cI1[j - lo] && ws.outD1.CellAt(j) == cD1[j - lo] && ws.outM.CellAt(j) == cM[j - lo]
    {
      assert old(ws.outI1.CellAt(j)) == cI1[j - lo];
      assert old(ws.outD1.CellAt(j)) == cD1[j - lo];
      assert old(ws.outM.CellAt(j)) == cM[j - lo];
    }
  }

  /**
   * The compute loop of `wavefront_compute_affine_idm_piggyback`: the cells
   * it leaves on `[lo, hi]` are those of the recurrence, and nothing
   * outside `[lo, hi]` is written.
   */
  method PiggybackCells(ws: WavefrontSet, lo: int, hi: int) returns (ghost cI1: seq<Cell>, ghost cD1: seq<Cell>, ghost cM: seq<Cell>)
    requires ws.Valid(lo, hi)
    modifies ws.outM.offsets, ws.outM.btPcigar, ws.outM.btPrev
    modifies ws.outI1.offsets, ws.outI1.btPcigar, ws.outI1.btPrev
    modifies ws.outD1.offsets, ws.outD1.btPcigar, ws.outD1.btPrev
    ensures PiggybackComputes(ws, lo, hi, cI1, cD1, cM) && old(PiggybackComputes(ws, lo, hi, cI1, cD1, cM))
    ensures ws.outI1.CellRange(lo, hi) == cI1 && ws.outD1.CellRange(lo, hi) == cD1 && ws.outM.CellRange(lo, hi) == cM
    ensures ws.outM.Outside(lo, hi) == old(ws.outM.Outside(lo, hi))
    ensures ws.outI1.Outside(lo, hi) == old(ws.outI1.Outside(lo, hi))
    ensures ws.outD1.Outside(lo, hi) == old(ws.outD1.Outside(lo, hi))
  {
    cI1, cD1, cM := RecurrenceCells(ws, lo, hi);
    var k := lo;
    while k <= hi
      invariant lo <= k && (k == lo || k <= hi + 1)
      invariant PiggybackComputes(ws, lo, hi, cI1, cD1, cM)
      invariant forall j :: lo <= j < k ==>
        ws.outI1.CellAt(j) == cI1[j - lo] && ws.outD1.CellAt(j) == cD1[j - lo] && ws.outM.CellAt(j) == cM[j - lo]
      invariant ws.outM.Outside(lo, hi) == old(ws.outM.Outside(lo, hi))
      invariant ws.outI1.Outside(lo, hi) == old(ws.outI1.Outside(lo, hi))
      invariant ws.outD1.Outside(lo, hi) == old(ws.outD1.Outside(lo, hi))
    {
      PiggybackAdvance(ws, lo, hi, k, cI1, cD1, cM);
      k := k + 1;
    }
    CellRangesComputed(ws, lo, hi, cI1, cD1, cM);
  }

  /** Cells that agree diagonal by diagonal are the cell ranges. */
  lemma CellRangesComputed(ws: WavefrontSet, lo: int, hi: int, cI1: seq<Cell>, cD1: seq<Cell>, cM: seq<Cell>)
    requires ws.Valid(lo, hi)
    requires |cI1| == Width(lo, hi) && |cD1| == Width(lo, hi) && |cM| == Width(lo, hi)
    requires forall j :: lo <= j <= hi ==>
      ws.outI1.CellAt(j) == cI1[j - lo] && ws.outD1.CellAt(j) == cD1[j - lo] && ws.outM.CellAt(j) == cM[j - lo]
    ensures ws.outI1.CellRange(lo, hi) == cI1 && ws.outD1.CellRange(lo, hi) == cD1 && ws.outM.CellRange(lo, hi) == cM
  {
    var rI1, rD1, rM := ws.outI1.CellRange(lo, hi), ws.outD1.CellRange(lo, hi), ws.outM.CellRange(lo, hi);
    forall t | 0 <= t < |cI1|
      ensures rI1[t] == cI1[t] && rD1[t] == cD1[t] && rM[t] == cM[t]
    {
      assert ws.outI1.CellAt(lo + t) == cI1[lo + t - lo];
    }
  }

  /** Outputs holding the recurrence's cells satisfy the offset recurrence of the plain kernel. */
  lemma ComputesOffsets(ws: WavefrontSet, lo: int, hi: int, cI1: seq<Cell>, cD1: seq<Cell>, cM: seq<Cell>)
    requires ws.Valid(lo, hi)
    requires PiggybackComputes(ws, lo, hi, cI1, cD1, cM)
    requires ws.outI1.CellRange(lo, hi) == cI1 && ws.outD1.CellRange(lo, hi) == cD1 && ws.outM.CellRange(lo, hi) == cM
    ensures forall k :: lo <= k <= hi ==> OffsetsStep(ws, lo, hi, k)
  {
    forall k | lo <= k <= hi
      ensures OffsetsStep(ws, lo, hi, k)
    {
      var t := k - lo;
      assert ws.outI1.CellAt(lo + t) == cI1[t] && ws.outD1.CellAt(lo + t) == cD1[t] && ws.outM.CellAt(lo + t) == cM[t];
      var open, insExt := ws.inMGap1.CellAt(k - 1), ws.inI1Ext.CellAt(k - 1);
      var open', delExt := ws.inMGap1.CellAt(k + 1), ws.inD1Ext.CellAt(k + 1);
      var sub := ws.inMSub.CellAt(k);
      assert cI1[t] == StepI1(open, insExt) && cD1[t] == StepD1(open', delExt) && cM[t] == StepM(sub, cI1[t], cD1[t]);
      assert ws.outI1.Offset(k) == cI1[t].offset && ws.outD1.Offset(k) == cD1[t].offset && ws.outM.Offset(k) == cM[t].offset;
    }
  }

  /** The registers, back-pointers and offsets of the outputs on `[lo, hi]` are those of the cells. */
  ghost predicate CellsHeld(ws: WavefrontSet, lo: int, hi: int, cI1: seq<Cell>, cD1: seq<Cell>, cM: seq<Cell>)
    reads ws.outM.offsets, ws.outM.btPcigar, ws.outM.btPrev
    reads ws.outI1.offsets, ws.outI1.btPcigar, ws.outI1.btPrev
    reads ws.outD1.offsets, ws.outD1.btPcigar, ws.outD1.btPrev
    requires ws.Valid(lo, hi)
  {
    && Registers(cI1) == ws.outI1.PcigarRange(lo, hi) && BackPointers(cI1) == ws.outI1.PrevRange(lo, hi)
    && Registers(cD1) == ws.outD1.PcigarRange(lo, hi) && BackPointers(cD1) == ws.outD1.PrevRange(lo, hi)
    && Registers(cM) == ws.outM.PcigarRange(lo, hi) && BackPointers(cM) == ws.outM.PrevRange(lo, hi)
    && Offsets(cI1) == ws.outI1.OffsetRange(lo, hi) && Offsets(cD1) == ws.outD1.OffsetRange(lo, hi)
    && Offsets(cM) == ws.outM.OffsetRange(lo, hi)
  }

  /**
   * The compute loop of the piggyback kernel and what its cells give: the
   * offsets of the plain kernel, and the registers and back-pointers the
   * offload step starts from.
   */
  method PiggybackCompute(ws: WavefrontSet, lo: int, hi: int) returns (ghost cI1: seq<Cell>, ghost cD1: seq<Cell>, ghost cM: seq<Cell>)
    requires ws.Valid(lo, hi)
    modifies ws.outM.offsets, ws.outM.btPcigar, ws.outM.btPrev
    modifies ws.outI1.offsets, ws.outI1.btPcigar, ws.outI1.btPrev
    modifies ws.outD1.offsets, ws.outD1.btPcigar, ws.outD1.btPrev
    ensures PiggybackComputes(ws, lo, hi, cI1, cD1, cM) && old(PiggybackComputes(ws, lo, hi, cI1, cD1, cM))
    ensures forall k :: lo <= k <= hi ==> OffsetsStep(ws, lo, hi, k)
    ensures CellsHeld(ws, lo, hi, cI1, cD1, cM)
    ensures ws.outM.OffsetsOutside(lo, hi) == old(ws.outM.OffsetsOutside(lo, hi))
    ensures ws.outI1.OffsetsOutside(lo, hi) == old(ws.outI1.OffsetsOutside(lo, hi))
    ensures ws.outD1.OffsetsOutside(lo, hi) == old(ws.outD1.OffsetsOutside(lo, hi))
  {
    cI1, cD1, cM := PiggybackCells(ws, lo, hi);
    ComputesOffsets(ws, lo, hi, cI1, cD1, cM);
  }

  /**
   * The offload step of the piggyback kernel applied to computed cells: the
   * sweeps see the cells' registers and back-pointers, and the offsets, and
   * so the recurrence, stay as computed.
   */
  method OffloadComputed(ws: WavefrontSet, lo: int, hi: int, pool: BacktraceBuffer,
                         ghost cI1: seq<Cell>, ghost cD1: seq<Cell>, ghost cM: seq<Cell>)
    returns (ghost sI1: SweepResult, ghost sD1: SweepResult, ghost sM: SweepResult)
    requires ws.Valid(lo, hi)
    requires pool.Valid() && pool.pending == []
    requires forall k :: lo <= k <= hi ==> OffsetsStep(ws, lo, hi, k)
    requires CellsHeld(ws, lo, hi, cI1, cD1, cM)
    modifies ws.outM, ws.outI1, ws.outD1
    modifies ws.outM.btPcigar, ws.outM.btPrev, ws.outI1.btPcigar, ws.outI1.btPrev, ws.outD1.btPcigar, ws.outD1.btPrev
    modifies pool
    ensures pool.Valid() && pool.pending == []
    ensures forall k :: lo <= k <= hi ==> OffsetsStep(ws, lo, hi, k)
    ensures ws.outM.OffsetsOutside(lo, hi) == old(ws.outM.OffsetsOutside(lo, hi))
    ensures ws.outI1.OffsetsOutside(lo, hi) == old(ws.outI1.OffsetsOutside(lo, hi))
    ensures ws.outD1.OffsetsOutside(lo, hi) == old(ws.outD1.OffsetsOutside(lo, hi))
    ensures var occI1 := GapOccupancy(ws.inMGap1.btOccupancyMax, ws.inI1Ext.btOccupancyMax);
      var occD1 := GapOccupancy(ws.inMGap1.btOccupancyMax, ws.inD1Ext.btOccupancyMax);
      var occM := MatchOccupancy(ws.inMSub.btOccupancyMax, occI1, occD1);
      && ws.outI1.btOccupancyMax == OccupancyAfter(occI1)
      && ws.outD1.btOccupancyMax == OccupancyAfter(occD1)
      && ws.outM.btOccupancyMax == OccupancyAfter(occM)
      && sI1 == SweepIf(occI1 >= MaxLength, Registers(cI1), BackPointers(cI1), Offsets(cI1), old(|pool.blocks|))
      && sD1 == SweepIf(occD1 >= MaxLength, Registers(cD1), BackPointers(cD1), Offsets(cD1), |old(pool.blocks) + sI1.blocks|)
      && sM == SweepIf(occM >= MaxLength, Registers(cM), BackPointers(cM), Offsets(cM), |old(pool.blocks) + sI1.blocks + sD1.blocks|)
    ensures pool.blocks == old(pool.blocks) + sI1.blocks + sD1.blocks + sM.blocks
    ensures ws.outM.isNull == old(ws.outM.isNull) && ws.outI1.isNull == old(ws.outI1.isNull)
    ensures ws.outD1.isNull == old(ws.outD1.isNull)
    ensures ws.outI1.PcigarRange(lo, hi) == sI1.regs && ws.outI1.PrevRange(lo, hi) == sI1.prevs
    ensures ws.outD1.PcigarRange(lo, hi) == sD1.regs && ws.outD1.PrevRange(lo, hi) == sD1.prevs
    ensures ws.outM.PcigarRange(lo, hi) == sM.regs && ws.outM.PrevRange(lo, hi) == sM.prevs
  {
    sI1, sD1, sM := OffloadSet(ws, lo, hi, pool);
    forall k | lo <= k <= hi
      ensures OffsetsStep(ws, lo, hi, k)
    {
      assert old(OffsetsStep(ws, lo, hi, k));
    }
  }

  /**
   * The state the offload step of the piggyback kernel leaves, given the
   * computed cells and the pool's blocks `before` it: each output's
   * occupancy bound is the max+1 bound of its sources, reset once swept;
   * each output is swept, in the order I1, D1, M, exactly when its bound
   * reaches a full register, each sweep continuing the pool where the
   * previous one stopped; the outputs hold the sweeps' registers and
   * back-pointers on `[lo, hi]`.
   */
  ghost predicate PiggybackOffloaded(ws: WavefrontSet, lo: int, hi: int, pool: BacktraceBuffer, before: seq<Block>,
                                     cI1: seq<Cell>, cD1: seq<Cell>, cM: seq<Cell>,
                                     sI1: SweepResult, sD1: SweepResult, sM: SweepResult)
    reads ws.inMSub, ws.inMGap1, ws.inI1Ext, ws.inD1Ext, ws.outM, ws.outI1, ws.outD1, pool
    reads ws.outM.btPcigar, ws.outM.btPrev, ws.outI1.btPcigar, ws.outI1.btPrev, ws.outD1.btPcigar, ws.outD1.btPrev
    requires ws.Valid(lo, hi)
  {
    var occI1 := GapOccupancy(ws.inMGap1.btOccupancyMax, ws.inI1Ext.btOccupancyMax);
    var occD1 := GapOccupancy(ws.inMGap1.btOccupancyMax, ws.inD1Ext.btOccupancyMax);
    var occM := MatchOccupancy(ws.inMSub.btOccupancyMax, occI1, occD1);
    && ws.outI1.btOccupancyMax == OccupancyAfter(occI1)
    && ws.outD1.btOccupancyMax == OccupancyAfter(occD1)
    && ws.outM.btOccupancyMax == OccupancyAfter(occM)
    && sI1 == SweepIf(occI1 >= MaxLength, Registers(cI1), BackPointers(cI1), Offsets(cI1), |before|)
    && sD1 == SweepIf(occD1 >= MaxLength, Registers(cD1), BackPointers(cD1), Offsets(cD1), |before + sI1.blocks|)
    && sM == SweepIf(occM >= MaxLength, Registers(cM), BackPointers(cM), Offsets(cM), |before + sI1.blocks + sD1.blocks|)
    && pool.blocks == before + sI1.blocks + sD1.blocks + sM.blocks
    && ws.outI1.PcigarRange(lo, hi) == sI1.regs && ws.outI1.PrevRange(lo, hi) == sI1.prevs
    && ws.outD1.PcigarRange(lo, hi) == sD1.regs && ws.outD1.PrevRange(lo, hi) == sD1.prevs
    && ws.outM.PcigarRange(lo, hi) == sM.regs && ws.outM.PrevRange(lo, hi) == sM.prevs
  }

  /**
   * `wavefront_compute_affine_idm_piggyback`: the compute loop, then the
   * offload of the three outputs. The offsets are those of the plain
   * kernel; the cells the loop computes are handed to the sweeps, which
   * continue the pool one after the other.
   */
  method ComputeIdmPiggyback(ws: WavefrontSet, lo: int, hi: int, pool: BacktraceBuffer)
    returns (ghost cI1: seq<Cell>, ghost cD1: seq<Cell>, ghost cM: seq<Cell>,
             ghost sI1: SweepResult, ghost sD1: SweepResult, ghost sM: SweepResult)
    requires ws.Valid(lo, hi)
    requires pool.Valid() && pool.pending == []
    modifies ws.outM, ws.outI1, ws.outD1
    modifies ws.outM.offsets, ws.outM.btPcigar, ws.outM.btPrev
    modifies ws.outI1.offsets, ws.outI1.btPcigar, ws.outI1.btPrev
    modifies ws.outD1.offsets, ws.outD1.btPcigar, ws.outD1.btPrev
    modifies pool
    ensures pool.Valid() && pool.pending == []
    ensures Recurrence(ws, lo, hi)
    ensures old(PiggybackComputes(ws, lo, hi, cI1, cD1, cM))
    ensures ws.outM.OffsetsOutside(lo, hi) == old(ws.outM.OffsetsOutside(lo, hi))
    ensures ws.outI1.OffsetsOutside(lo, hi) == old(ws.outI1.OffsetsOutside(lo, hi))
    ensures ws.outD1.OffsetsOutside(lo, hi) == old(ws.outD1.OffsetsOutside(lo, hi))
    ensures ws.outM.isNull == old(ws.outM.isNull) && ws.outI1.isNull == old(ws.outI1.isNull)
    ensures ws.outD1.isNull == old(ws.outD1.isNull)
    ensures PiggybackOffloaded(ws, lo, hi, pool, old(pool.blocks), cI1, cD1, cM, sI1, sD1, sM)
  {
    cI1, cD1, cM := PiggybackCompute(ws, lo, hi);
    sI1, sD1, sM := OffloadComputed(ws, lo, hi, pool, cI1, cD1, cM);
  }

  /** Which kernel a compute step ran, if any. */
  datatype Outcome = NullOutput | Plain | Piggyback

  /**
   * `wavefront_compute_affine` from the moment its inputs are fetched: when
   * all four inputs are null nothing is computed (the null output is left
   * to the aligner); otherwise exactly one kernel runs, the piggyback one
   * when `btPiggyback` is set. The limits `[lo, hi]` and the allocated
   * outputs are given.
   */
  method ComputeAffine(ws: WavefrontSet, lo: int, hi: int, btPiggyback: bool, pool: BacktraceBuffer)
    returns (outcome: Outcome, ghost cI1: seq<Cell>, ghost cD1: seq<Cell>, ghost cM: seq<Cell>,
             ghost sI1: SweepResult, ghost sD1: SweepResult, ghost sM: SweepResult)
    requires ws.Valid(lo, hi)
    requires pool.Valid() && pool.pending == []
    modifies ws.outM, ws.outI1, ws.outD1
    modifies ws.outM.offsets, ws.outM.btPcigar, ws.outM.btPrev
    modifies ws.outI1.offsets, ws.outI1.btPcigar, ws.outI1.btPrev
    modifies ws.outD1.offsets, ws.outD1.btPcigar, ws.outD1.btPrev
    modifies pool
    ensures pool.Valid() && pool.pending == []
    ensures outcome == NullOutput <==> ws.AllInputsNull()
    ensures outcome == Piggyback <==> !ws.AllInputsNull() && btPiggyback
    ensures outcome == NullOutput ==>
      && unchanged(ws.outM, ws.outI1, ws.outD1, pool)
      && unchanged(ws.outM.offsets, ws.outM.btPcigar, ws.outM.btPrev)
      && unchanged(ws.outI1.offsets, ws.outI1.btPcigar, ws.outI1.btPrev)
      && unchanged(ws.outD1.offsets, ws.outD1.btPcigar, ws.outD1.btPrev)
    ensures outcome == Plain ==>
      && unchanged(ws.outM, ws.outI1, ws.outD1, pool)
      && unchanged(ws.outM.btPcigar, ws.outM.btPrev, ws.outI1.btPcigar, ws.outI1.btPrev, ws.outD1.btPcigar, ws.outD1.btPrev)
    ensures outcome != NullOutput ==> Recurrence(ws, lo, hi)
    ensures outcome != NullOutput ==>
      && ws.outM.OffsetsOutside(lo, hi) == old(ws.outM.OffsetsOutside(lo, hi))
      && ws.outI1.OffsetsOutside(lo, hi) == old(ws.outI1.OffsetsOutside(lo, hi))
      && ws.outD1.OffsetsOutside(lo, hi) == old(ws.outD1.OffsetsOutside(lo, hi))
    ensures ws.outM.isNull == old(ws.outM.isNull) && ws.outI1.isNull == old(ws.outI1.isNull)
    ensures ws.outD1.isNull == old(ws.outD1.isNull)
    ensures outcome == Piggyback ==>
      && old(PiggybackComputes(ws, lo, hi, cI1, cD1, cM))
      && PiggybackOffloaded(ws, lo, hi, pool, old(pool.blocks), cI1, cD1, cM, sI1, sD1, sM)
  {
    cI1, cD1, cM := [], [], [];
    sI1, sD1, sM := SweepResult([], [], []), SweepResult([], [], []), SweepResult([], [], []);
    if ws.inMSub.isNull && ws.inMGap1.isNull && ws.inI1Ext.isNull && ws.inD1Ext.isNull {
      return NullOutput, cI1, cD1, cM, sI1, sD1, sM;
    }
    if btPiggyback {
      cI1, cD1, cM, sI1, sD1, sM := ComputeIdmPiggyback(ws, lo, hi, pool);
      outcome := Piggyback;
    } else {
      ComputeIdm(ws, lo, hi);
      outcome := Plain;
    }
  }
}
