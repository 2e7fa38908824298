/**
 * Wavefronts (`wavefront_t`) and the wavefront set (`wavefront_set_t`) that
 * one compute step reads and writes.
 */
module Wavefronts {
  import opened Pcigar

  /** What one diagonal of a wavefront holds: offset, register and back-pointer. */
  datatype Cell = Cell(offset: int, pcigar: Register, prev: int)

  /** How many diagonals `lo..hi` holds. */
  function Width(lo: int, hi: int): nat
  {
    if lo > hi then 0 else hi - lo + 1
  }

  /**
   * One score component at one score. The arrays are indexed by diagonal
   * with a bias: diagonal `k` lives at index `k - base`. A negative offset
   * stands for the null sentinel (diagonal not reached).
   */
  class Wavefront {
    const base: int
    const offsets: array<int>
    const btPcigar: array<Register>
    const btPrev: array<int>
    var btOccupancyMax: int
    var isNull: bool

    ghost predicate Valid()
    {
      && offsets != btPrev
      && btPcigar.Length == offsets.Length
      && btPrev.Length == offsets.Length
    }

    ghost function Repr(): set<object>
    {
      {this, offsets, btPcigar, btPrev}
    }

    /** This wavefront and `other` are different objects with different arrays. */
    predicate Apart(other: Wavefront)
    {
      && this != other
      && offsets != other.offsets && offsets != other.btPrev
      && btPrev != other.offsets && btPrev != other.btPrev
      && btPcigar != other.btPcigar
    }

    /** Diagonal `k` has a slot in the arrays. */
    predicate Holds(k: int)
    {
      base <= k < base + offsets.Length
    }

    /** Every diagonal of `[lo, hi]` has a slot. */
    predicate Covers(lo: int, hi: int)
    {
      lo > hi || (Holds(lo) && Holds(hi))
    }

    function Offset(k: int): int
      reads offsets
      requires Holds(k)
    {
      offsets[k - base]
    }

    function CellAt(k: int): Cell
      reads offsets, btPcigar, btPrev
      requires Valid() && Holds(k)
    {
      Cell(offsets[k - base], btPcigar[k - base], btPrev[k - base])
    }

    /** The registers of diagonals `lo..hi`, in diagonal order. */
    function PcigarRange(lo: int, hi: int): (r: seq<Register>)
      reads btPcigar
      requires Valid() && Covers(lo, hi)
      ensures |r| == Width(lo, hi)
    {
      if lo > hi then [] else btPcigar[lo - base..hi + 1 - base]
    }

    /** The back-pointers of diagonals `lo..hi`, in diagonal order. */
    function PrevRange(lo: int, hi: int): (r: seq<int>)
      reads btPrev
      requires Valid() && Covers(lo, hi)
      ensures |r| == Width(lo, hi)
    {
      if lo > hi then [] else btPrev[lo - base..hi + 1 - base]
    }

    /** The offsets of diagonals `lo..hi`, in diagonal order. */
    function OffsetRange(lo: int, hi: int): (r: seq<int>)
      reads offsets
      requires Covers(lo, hi)
      ensures |r| == Width(lo, hi)
    {
      if lo > hi then [] else offsets[lo - base..hi + 1 - base]
    }

    /** The cells of diagonals `lo..hi`, in diagonal order. */
    ghost function CellRange(lo: int, hi: int): (r: seq<Cell>)
      reads offsets, btPcigar, btPrev
      requires Valid() && Covers(lo, hi)
      ensures |r| == Width(lo, hi)
      ensures forall t :: 0 <= t < |r| ==> r[t] == CellAt(lo + t)
      ensures Registers(r) == PcigarRange(lo, hi) && BackPointers(r) == PrevRange(lo, hi)
      ensures Offsets(r) == OffsetRange(lo, hi)
    {
      var o := OffsetRange(lo, hi);
      var p := PcigarRange(lo, hi);
      var q := PrevRange(lo, hi);
      seq(Width(lo, hi), t requires 0 <= t < Width(lo, hi) => Cell(o[t], p[t], q[t]))
    }

    /** Everything the arrays hold outside diagonals `lo..hi`. */
    ghost function Outside(lo: int, hi: int): (seq<int>, seq<Register>, seq<int>)
      reads offsets, btPcigar, btPrev
      requires Valid() && Covers(lo, hi)
    {
      if lo > hi then (OffsetsOutside(lo, hi), btPcigar[..], btPrev[..])
      else
        (OffsetsOutside(lo, hi),
         btPcigar[..lo - base] + btPcigar[hi + 1 - base..],
         btPrev[..lo - base] + btPrev[hi + 1 - base..])
    }

    /** The offsets the arrays hold outside diagonals `lo..hi`. */
    ghost function OffsetsOutside(lo: int, hi: int): seq<int>
      reads offsets
      requires Covers(lo, hi)
    {
      if lo > hi then offsets[..] else offsets[..lo - base] + offsets[hi + 1 - base..]
    }
  }

  /** The registers of a run of cells. */
  function Registers(cells: seq<Cell>): (r: seq<Register>)
    ensures |r| == |cells| && forall t :: 0 <= t < |cells| ==> r[t] == cells[t].pcigar
  {
    seq(|cells|, t requires 0 <= t < |cells| => cells[t].pcigar)
  }

  /** The back-pointers of a run of cells. */
  function BackPointers(cells: seq<Cell>): (r: seq<int>)
    ensures |r| == |cells| && forall t :: 0 <= t < |cells| ==> r[t] == cells[t].prev
  {
    seq(|cells|, t requires 0 <= t < |cells| => cells[t].prev)
  }

  /** The offsets of a run of cells. */
  function Offsets(cells: seq<Cell>): (r: seq<int>)
    ensures |r| == |cells| && forall t :: 0 <= t < |cells| ==> r[t] == cells[t].offset
  {
    seq(|cells|, t requires 0 <= t < |cells| => cells[t].offset)
  }

  /**
   * The four inputs of a step (`in_mwavefront_sub`, `in_mwavefront_gap1`,
   * `in_i1wavefront_ext`, `in_d1wavefront_ext`) and its three outputs.
   * Inputs may be the same object (the shared null wavefront); outputs are
   * fresh and share nothing with the inputs or with each other.
   */
  datatype WavefrontSet = WavefrontSet(
    inMSub: Wavefront, inMGap1: Wavefront, inI1Ext: Wavefront, inD1Ext: Wavefront,
    outM: Wavefront, outI1: Wavefront, outD1: Wavefront)
  {
    /** The shape one step over `[lo, hi]` needs: inputs readable on `[lo-1, hi+1]`. */
    ghost predicate Valid(lo: int, hi: int)
    {
      && inMSub.Valid() && inMGap1.Valid() && inI1Ext.Valid() && inD1Ext.Valid()
      && outM.Valid() && outI1.Valid() && outD1.Valid()
      && inMSub.Covers(lo, hi)
      && inMGap1.Covers(lo - 1, hi + 1)
      && inI1Ext.Covers(lo - 1, hi - 1)
      && inD1Ext.Covers(lo + 1, hi + 1)
      && outM.Covers(lo, hi) && outI1.Covers(lo, hi) && outD1.Covers(lo, hi)
      && outM.Apart(outI1) && outM.Apart(outD1) && outI1.Apart(outD1)
      && outM.Apart(inMSub) && outM.Apart(inMGap1) && outM.Apart(inI1Ext) && outM.Apart(inD1Ext)
      && outI1.Apart(inMSub) && outI1.Apart(inMGap1) && outI1.Apart(inI1Ext) && outI1.Apart(inD1Ext)
      && outD1.Apart(inMSub) && outD1.Apart(inMGap1) && outD1.Apart(inI1Ext) && outD1.Apart(inD1Ext)
    }

    /** `in_*->null` for all four inputs: nothing to compute at this score. */
    predicate AllInputsNull()
      reads inMSub, inMGap1, inI1Ext, inD1Ext
    {
      inMSub.isNull && inMGap1.isNull && inI1Ext.isNull && inD1Ext.isNull
    }
  }
}
