/**
 * Offloading piggyback registers to the backtrace pool: the sweep over one
 * wavefront (`wavefront_compute_affine_idm_piggyback_offload_wf`) and the
 * occupancy bookkeeping that decides which wavefronts are swept
 * (`wavefront_compute_affine_idm_piggyback_offload`).
 */
module PiggybackOffload {
  import opened Pcigar
  import opened BacktraceBuffer
  import opened Wavefronts

  function Max(a: int, b: int): int
  {
    if a >= b then a else b
  }

  /** A diagonal is offloaded when it is reached and its register is half full. */
  predicate Offloads(pcigar: Register, offset: int)
  {
    IsHalfFull(pcigar) && offset >= 0
  }

  /** Registers and back-pointers of a run of diagonals after a sweep, and the blocks it appended. */
  datatype SweepResult = SweepResult(regs: seq<Register>, prevs: seq<int>, blocks: seq<Block>)

  /**
   * The sweep over diagonals `lo..hi` in order, given their registers, their
   * back-pointers and their offsets; `next` is the pool index the first
   * appended block receives.
   */
  ghost function Sweep(regs: seq<Register>, prevs: seq<int>, offsets: seq<int>, next: int): (s: SweepResult)
    requires |prevs| == |regs| && |offsets| == |regs|
    ensures |s.regs| == |regs| && |s.prevs| == |regs|
    decreases |regs|
  {
    if |regs| == 0 then SweepResult([], [], [])
    else
      var n := |regs| - 1;
      var s := Sweep(regs[..n], prevs[..n], offsets[..n], next);
      if Offloads(regs[n], offsets[n]) then
        SweepResult(s.regs + [[]], s.prevs + [next + |s.blocks|], s.blocks + [Block(regs[n], prevs[n])])
      else
        SweepResult(s.regs + [regs[n]], s.prevs + [prevs[n]], s.blocks)
  }

  /** Sweeping one more diagonal extends the sweep of the ones before it. */
  lemma SweepSnoc(regs: seq<Register>, prevs: seq<int>, offsets: seq<int>, next: int, m: int)
    requires |prevs| == |regs| && |offsets| == |regs|
    requires 0 <= m < |regs|
    ensures var s0 := Sweep(regs[..m], prevs[..m], offsets[..m], next);
      var s1 := Sweep(regs[..m + 1], prevs[..m + 1], offsets[..m + 1], next);
      Offloads(regs[m], offsets[m]) ==>
        s1.regs == s0.regs + [[]] && s1.prevs == s0.prevs + [next + |s0.blocks|]
        && s1.blocks == s0.blocks + [Block(regs[m], prevs[m])]
    ensures var s0 := Sweep(regs[..m], prevs[..m], offsets[..m], next);
      var s1 := Sweep(regs[..m + 1], prevs[..m + 1], offsets[..m + 1], next);
      !Offloads(regs[m], offsets[m]) ==>
        s1.regs == s0.regs + [regs[m]] && s1.prevs == s0.prevs + [prevs[m]] && s1.blocks == s0.blocks
  {
    assert regs[..m + 1][..m] == regs[..m];
    assert prevs[..m + 1][..m] == prevs[..m];
    assert offsets[..m + 1][..m] == offsets[..m];
  }

  /** A component is swept only when its occupancy bound calls for it. */
  ghost function SweepIf(cond: bool, regs: seq<Register>, prevs: seq<int>, offsets: seq<int>, next: int): (s: SweepResult)
    requires |prevs| == |regs| && |offsets| == |regs|
    ensures |s.regs| == |regs| && |s.prevs| == |regs|
    ensures !cond ==> s.regs == regs && s.prevs == prevs && s.blocks == []
  {
    if cond then Sweep(regs, prevs, offsets, next) else SweepResult(regs, prevs, [])
  }

  /**
   * Per diagonal: an offloaded diagonal has an empty register and points to
   * the block that holds its old register and old back-pointer; every other
   * diagonal is untouched.
   */
  lemma {:induction false} SweepAt(regs: seq<Register>, prevs: seq<int>, offsets: seq<int>, next: int, i: int)
    requires |prevs| == |regs| && |offsets| == |regs|
    requires 0 <= i < |regs|
    ensures var s := Sweep(regs, prevs, offsets, next);
      if Offloads(regs[i], offsets[i]) then
        && s.regs[i] == []
        && next <= s.prevs[i] < next + |s.blocks|
        && s.blocks[s.prevs[i] - next] == Block(regs[i], prevs[i])
      else
        s.regs[i] == regs[i] && s.prevs[i] == prevs[i]
    decreases |regs|
  {
    var n := |regs| - 1;
    assert regs[..n][..] == regs[..n];
    if i < n {
      SweepAt(regs[..n], prevs[..n], offsets[..n], next, i);
      assert regs[..n][i] == regs[i] && prevs[..n][i] == prevs[i] && offsets[..n][i] == offsets[i];
    }
  }

  /** Block indices handed out by one sweep increase with the diagonal. */
  lemma {:induction false} SweepIncreasing(regs: seq<Register>, prevs: seq<int>, offsets: seq<int>, next: int, i: int, j: int)
    requires |prevs| == |regs| && |offsets| == |regs|
    requires 0 <= i < j < |regs|
    requires Offloads(regs[i], offsets[i]) && Offloads(regs[j], offsets[j])
    ensures var s := Sweep(regs, prevs, offsets, next); s.prevs[i] < s.prevs[j]
    decreases |regs|
  {
    var n := |regs| - 1;
    assert regs[..n][i] == regs[i] && offsets[..n][i] == offsets[i];
    if j < n {
      assert regs[..n][j] == regs[j] && offsets[..n][j] == offsets[j];
      SweepIncreasing(regs[..n], prevs[..n], offsets[..n], next, i, j);
    } else {
      SweepAt(regs[..n], prevs[..n], offsets[..n], next, i);
    }
  }

  /**
   * Every appended block belongs to exactly the diagonal that points to it,
   * so together with `SweepAt` and `SweepIncreasing` the blocks are the
   * offloaded diagonals' old registers, at consecutive indices, in order.
   */
  lemma {:induction false} SweepBlocksOwned(regs: seq<Register>, prevs: seq<int>, offsets: seq<int>, next: int, b: int)
    requires |prevs| == |regs| && |offsets| == |regs|
    requires 0 <= b < |Sweep(regs, prevs, offsets, next).blocks|
    ensures var s := Sweep(regs, prevs, offsets, next);
      exists i :: 0 <= i < |regs| && Offloads(regs[i], offsets[i]) && s.prevs[i] == next + b
        && s.blocks[b] == Block(regs[i], prevs[i])
    decreases |regs|
  {
    var n := |regs| - 1;
    var s0 := Sweep(regs[..n], prevs[..n], offsets[..n], next);
    var s := Sweep(regs, prevs, offsets, next);
    if b < |s0.blocks| {
      SweepBlocksOwned(regs[..n], prevs[..n], offsets[..n], next, b);
      var i :| 0 <= i < n && Offloads(regs[..n][i], offsets[..n][i]) && s0.prevs[i] == next + b
        && s0.blocks[b] == Block(regs[..n][i], prevs[..n][i]);
      assert s.prevs[i] == s0.prevs[i];
    } else {
      assert s.prevs[n] == next + b;
    }
  }

  /** A sweep with no reached, half-full register changes nothing and appends no block. */
  lemma {:induction false} SweepNothingToOffload(regs: seq<Register>, prevs: seq<int>, offsets: seq<int>, next: int)
    requires |prevs| == |regs| && |offsets| == |regs|
    requires forall i :: 0 <= i < |regs| ==> !Offloads(regs[i], offsets[i])
    ensures Sweep(regs, prevs, offsets, next) == SweepResult(regs, prevs, [])
    decreases |regs|
  {
    if |regs| > 0 {
      var n := |regs| - 1;
      SweepNothingToOffload(regs[..n], prevs[..n], offsets[..n], next);
      assert regs[..n] + [regs[n]] == regs;
      assert prevs[..n] + [prevs[n]] == prevs;
    }
  }

  /** How many of the diagonals are offloaded by a sweep. */
  function OffloadCount(regs: seq<Register>, offsets: seq<int>): (n: nat)
    requires |offsets| == |regs|
    ensures n <= |regs|
    decreases |regs|
  {
    if |regs| == 0 then 0
    else OffloadCount(regs[..|regs| - 1], offsets[..|regs| - 1]) + (if Offloads(regs[|regs| - 1], offsets[|regs| - 1]) then 1 else 0)
  }

  /** The pool grows by exactly one block per offloaded diagonal. */
  lemma {:induction false} SweepBlockCount(regs: seq<Register>, prevs: seq<int>, offsets: seq<int>, next: int)
    requires |prevs| == |regs| && |offsets| == |regs|
    ensures |Sweep(regs, prevs, offsets, next).blocks| == OffloadCount(regs, offsets)
    decreases |regs|
  {
    if |regs| > 0 {
      var n := |regs| - 1;
      SweepBlockCount(regs[..n], prevs[..n], offsets[..n], next);
    }
  }

  /**
   * A sweep loses no history: provided the pool chains backward and every
   * back-pointer refers below `next` (the pool's size), the extended pool
   * still chains backward and each diagonal's full operation path is what
   * it was before.
   */
  lemma SweepPreservesPaths(pool: seq<Block>, regs: seq<Register>, prevs: seq<int>, offsets: seq<int>)
    requires |prevs| == |regs| && |offsets| == |regs|
    requires ChainsBackward(pool)
    requires forall i :: 0 <= i < |prevs| ==> prevs[i] < |pool|
    ensures var s := Sweep(regs, prevs, offsets, |pool|);
      && ChainsBackward(pool + s.blocks)
      && (forall i :: 0 <= i < |regs| ==> s.prevs[i] < |pool + s.blocks|)
      && (forall i :: 0 <= i < |regs| ==>
            Path(pool + s.blocks, s.prevs[i], s.regs[i]) == Path(pool, prevs[i], regs[i]))
  {
    var s := Sweep(regs, prevs, offsets, |pool|);
    var big := pool + s.blocks;
    forall b | 0 <= b < |big|
      ensures big[b].prev < b
    {
      if b >= |pool| {
        SweepBlocksOwned(regs, prevs, offsets, |pool|, b - |pool|);
      }
    }
    forall i | 0 <= i < |regs|
      ensures s.prevs[i] < |big|
      ensures Path(big, s.prevs[i], s.regs[i]) == Path(pool, prevs[i], regs[i])
    {
      SweepPathAt(pool, regs, prevs, offsets, i);
    }
  }

  /** One diagonal's share of `SweepPreservesPaths`. */
  lemma SweepPathAt(pool: seq<Block>, regs: seq<Register>, prevs: seq<int>, offsets: seq<int>, i: int)
    requires |prevs| == |regs| && |offsets| == |regs|
    requires 0 <= i < |regs| && prevs[i] < |pool|
    ensures var s := Sweep(regs, prevs, offsets, |pool|);
      && s.prevs[i] < |pool + s.blocks|
      && Path(pool + s.blocks, s.prevs[i], s.regs[i]) == Path(pool, prevs[i], regs[i])
  {
    var s := Sweep(regs, prevs, offsets, |pool|);
    var big := pool + s.blocks;
    SweepAt(regs, prevs, offsets, |pool|, i);
    HistoryAppend(pool, s.blocks, prevs[i]);
    if Offloads(regs[i], offsets[i]) {
      var idx := s.prevs[i];
      assert big[idx] == Block(regs[i], prevs[i]);
      assert History(big, idx) == History(big, prevs[i]) + regs[i];
    }
  }

  /** `SweepPreservesPaths` for a component that may or may not be swept. */
  lemma SweepIfPreservesPaths(cond: bool, pool: seq<Block>, regs: seq<Register>, prevs: seq<int>, offsets: seq<int>)
    requires |prevs| == |regs| && |offsets| == |regs|
    requires ChainsBackward(pool)
    requires forall i :: 0 <= i < |prevs| ==> prevs[i] < |pool|
    ensures var s := SweepIf(cond, regs, prevs, offsets, |pool|);
      && ChainsBackward(pool + s.blocks)
      && (forall i :: 0 <= i < |regs| ==> s.prevs[i] < |pool + s.blocks|)
      && (forall i :: 0 <= i < |regs| ==>
            Path(pool + s.blocks, s.prevs[i], s.regs[i]) == Path(pool, prevs[i], regs[i]))
  {
    if cond {
      SweepPreservesPaths(pool, regs, prevs, offsets);
    } else {
      assert pool + [] == pool;
    }
  }

  /** Appending blocks leaves the paths of diagonals pointing into the pool unchanged. */
  lemma PathsAppend(pool: seq<Block>, more: seq<Block>, regs: seq<Register>, prevs: seq<int>)
    requires |prevs| == |regs|
    requires forall i :: 0 <= i < |prevs| ==> prevs[i] < |pool|
    ensures forall i :: 0 <= i < |regs| ==> Path(pool + more, prevs[i], regs[i]) == Path(pool, prevs[i], regs[i])
  {
    forall i | 0 <= i < |regs|
      ensures Path(pool + more, prevs[i], regs[i]) == Path(pool, prevs[i], regs[i])
    {
      HistoryAppend(pool, more, prevs[i]);
    }
  }

  /**
   * The offload of the three outputs loses no history: each sweep continues
   * the pool where the previous one stopped, and afterwards the pool still
   * chains backward and every diagonal of every output has the operation
   * path it had before the offload, over the pool as it was.
   */
  lemma OffloadPreservesPaths(pool: seq<Block>,
                              condA: bool, regsA: seq<Register>, prevsA: seq<int>, offsetsA: seq<int>,
                              condB: bool, regsB: seq<Register>, prevsB: seq<int>, offsetsB: seq<int>,
                              condC: bool, regsC: seq<Register>, prevsC: seq<int>, offsetsC: seq<int>)
    requires |prevsA| == |regsA| && |offsetsA| == |regsA|
    requires |prevsB| == |regsB| && |offsetsB| == |regsB|
    requires |prevsC| == |regsC| && |offsetsC| == |regsC|
    requires ChainsBackward(pool)
    requires forall i :: 0 <= i < |prevsA| ==> prevsA[i] < |pool|
    requires forall i :: 0 <= i < |prevsB| ==> prevsB[i] < |pool|
    requires forall i :: 0 <= i < |prevsC| ==> prevsC[i] < |pool|
    ensures var sA := SweepIf(condA, regsA, prevsA, offsetsA, |pool|);
      var sB := SweepIf(condB, regsB, prevsB, offsetsB, |pool + sA.blocks|);
      var sC := SweepIf(condC, regsC, prevsC, offsetsC, |pool + sA.blocks + sB.blocks|);
      var after := pool + sA.blocks + sB.blocks + sC.blocks;
      && ChainsBackward(after)
      && (forall i :: 0 <= i < |regsA| ==> Path(after, sA.prevs[i], sA.regs[i]) == Path(pool, prevsA[i], regsA[i]))
      && (forall i :: 0 <= i < |regsB| ==> Path(after, sB.prevs[i], sB.regs[i]) == Path(pool, prevsB[i], regsB[i]))
      && (forall i :: 0 <= i < |regsC| ==> Path(after, sC.prevs[i], sC.regs[i]) == Path(pool, prevsC[i], regsC[i]))
  {
    var sA := SweepIf(condA, regsA, prevsA, offsetsA, |pool|);
    var p1 := pool + sA.blocks;
    SweepIfPreservesPaths(condA, pool, regsA, prevsA, offsetsA);
    var sB := SweepIf(condB, regsB, prevsB, offsetsB, |p1|);
    var p2 := p1 + sB.blocks;
    PathsAppend(pool, sA.blocks, regsB, prevsB);
    SweepIfPreservesPaths(condB, p1, regsB, prevsB, offsetsB);
    var sC := SweepIf(condC, regsC, prevsC, offsetsC, |p2|);
    var p3 := p2 + sC.blocks;
    PathsAppend(pool, sA.blocks + sB.blocks, regsC, prevsC);
    assert pool + (sA.blocks + sB.blocks) == p2;
    SweepIfPreservesPaths(condC, p2, regsC, prevsC, offsetsC);
    PathsAppend(p1, sB.blocks + sC.blocks, sA.regs, sA.prevs);
    assert p1 + (sB.blocks + sC.blocks) == p3;
    PathsAppend(p2, sC.blocks, sB.regs, sB.prevs);
  }

  /** After a sweep no reached diagonal holds a half-full register. */
  lemma SweepLeavesRoom(regs: seq<Register>, prevs: seq<int>, offsets: seq<int>, next: int)
    requires |prevs| == |regs| && |offsets| == |regs|
    ensures var s := Sweep(regs, prevs, offsets, next);
      forall i :: 0 <= i < |regs| && offsets[i] >= 0 ==> |s.regs[i]| < MaxLength / 2
  {
    forall i | 0 <= i < |regs| && offsets[i] >= 0
      ensures |Sweep(regs, prevs, offsets, next).regs[i]| < MaxLength / 2
    {
      SweepAt(regs, prevs, offsets, next, i);
    }
  }

  /**
   * The sweep's cursor into the pool: `globalPos` is where the current run of
   * free memory starts, `currentPos` the next block index, `maxPos` the end
   * of the free memory fetched when the sweep started.
   */
  ghost predicate Cursor(pool: BacktraceBuffer, globalPos: int, currentPos: int, maxPos: int)
    reads pool
  {
    && pool.Valid()
    && globalPos == |pool.blocks| && currentPos == globalPos + |pool.pending|
    && ((maxPos == globalPos + pool.free && currentPos < maxPos)
        || (maxPos <= currentPos && pool.pending == []))
  }

  /**
   * The "update pos" step after one block was stored: advances the cursor
   * and, once it reaches `maxPos`, commits what was written and fetches
   * free memory again. `maxPos` itself is not updated.
   */
  method AdvanceCursor(pool: BacktraceBuffer, globalPos: int, currentPos: int, maxPos: int)
    returns (globalPos': int, currentPos': int)
    requires pool.Valid()
    requires globalPos == |pool.blocks| && currentPos + 1 == globalPos + |pool.pending|
    requires (maxPos == globalPos + pool.free && currentPos < maxPos)
          || (maxPos <= currentPos && |pool.pending| == 1)
    modifies pool
    ensures Cursor(pool, globalPos', currentPos', maxPos)
    ensures currentPos' == currentPos + 1
    ensures pool.blocks + pool.pending == old(pool.blocks + pool.pending)
  {
    currentPos' := currentPos + 1;
    globalPos' := globalPos;
    if currentPos' >= maxPos {
      assert pool.pending[..currentPos' - globalPos'] == pool.pending;
      pool.AddUsed(currentPos' - globalPos');
      var available;
      globalPos', available := pool.GetMem();
    }
  }

  /**
   * A sweep in progress over the array indices `from ..` of one wavefront:
   * the registers, back-pointers and offsets of the run when it started and
   * the pool contents before it.
   */
  datatype SweepRun = SweepRun(regs: seq<Register>, prevs: seq<int>, offsets: seq<int>, pool: seq<Block>, from: int)
  {
    ghost predicate Valid()
    {
      |prevs| == |regs| && |offsets| == |regs|
    }

    /**
     * The first `m` diagonals of the run are swept: `done` is their sweep,
     * the arrays hold its registers and back-pointers, and the pool holds
     * the old blocks plus the new ones (committed or pending).
     */
    ghost predicate SweptUpTo(w: Wavefront, buffer: BacktraceBuffer, m: int, done: SweepResult)
      reads w.btPcigar, w.btPrev, buffer
      requires Valid()
    {
      && w.Valid() && 0 <= from && from + |regs| <= w.offsets.Length
      && 0 <= m <= |regs|
      && done == Sweep(regs[..m], prevs[..m], offsets[..m], |pool|)
      && buffer.blocks + buffer.pending == pool + done.blocks
      && forall t :: 0 <= t < m ==> w.btPcigar[from + t] == done.regs[t] && w.btPrev[from + t] == done.prevs[t]
    }
  }

  /**
   * The loop body of the sweep for diagonal number `m` of the run, at array
   * index `i`: a reached diagonal with a half-full register is stored as a
   * block, its register emptied and its back-pointer set to the block's
   * index.
   */
  method OffloadDiagonal(w: Wavefront, i: int, pool: BacktraceBuffer, globalPos: int, currentPos: int, maxPos: int,
                         ghost run: SweepRun, ghost m: int, ghost done: SweepResult)
    returns (globalPos': int, currentPos': int, ghost done': SweepResult)
    requires run.Valid() && run.SweptUpTo(w, pool, m, done)
    requires m < |run.regs| && i == run.from + m
    requires run.regs[m] == w.btPcigar[i] && run.prevs[m] == w.btPrev[i] && run.offsets[m] == w.offsets[i]
    requires Cursor(pool, globalPos, currentPos, maxPos)
    modifies w.btPcigar, w.btPrev, pool
    ensures Cursor(pool, globalPos', currentPos', maxPos)
    ensures run.SweptUpTo(w, pool, m + 1, done')
    ensures forall j :: 0 <= j < w.offsets.Length && j != i ==>
      w.btPcigar[j] == old(w.btPcigar[j]) && w.btPrev[j] == old(w.btPrev[j])
  {
    SweepSnoc(run.regs, run.prevs, run.offsets, |run.pool|, m);
    done' := Sweep(run.regs[..m + 1], run.prevs[..m + 1], run.offsets[..m + 1], |run.pool|);
    globalPos', currentPos' := globalPos, currentPos;
    if IsHalfFull(w.btPcigar[i]) && w.offsets[i] >= 0 {
      assert Offloads(run.regs[m], run.offsets[m]);
      assert done'.blocks == done.blocks + [Block(run.regs[m], run.prevs[m])];
      assert done'.prevs == done.prevs + [|run.pool| + |done.blocks|];
      assert currentPos == |run.pool| + |done.blocks| by {
        assert |pool.blocks + pool.pending| == |run.pool + done.blocks|;
      }
      var block := Block(w.btPcigar[i], w.btPrev[i]);
      // Store
      pool.Store(block);
      assert pool.blocks + pool.pending == old(pool.blocks + pool.pending) + [block];
      // Reset
      w.btPcigar[i] := [];
      w.btPrev[i] := currentPos;
      // Update pos
      globalPos', currentPos' := AdvanceCursor(pool, globalPos, currentPos, maxPos);
    }
  }

  /** Diagonals `lo..hi` of `w` hold the registers `regs` and back-pointers `prevs`, in order. */
  ghost predicate HoldsRun(w: Wavefront, lo: int, hi: int, regs: seq<Register>, prevs: seq<int>)
    reads w.btPcigar, w.btPrev
    requires w.Valid() && w.Covers(lo, hi)
  {
    && |regs| == |prevs| == (if lo > hi then 0 else hi - lo + 1)
    && forall t :: 0 <= t < |regs| ==> w.btPcigar[lo - w.base + t] == regs[t] && w.btPrev[lo - w.base + t] == prevs[t]
  }

  /**
   * `wavefront_compute_affine_idm_piggyback_offload_wf`: sweeps diagonals
   * `lo..hi` of one wavefront, storing half-full registers of reached
   * diagonals into the pool. `max_pos` is fixed when the sweep starts and
   * never recomputed, so after the first segment rollover every further
   * store commits and fetches memory again; the blocks committed are the
   * same.
   */
  method OffloadWf(w: Wavefront, lo: int, hi: int, pool: BacktraceBuffer)
    requires w.Valid() && w.Covers(lo, hi)
    requires pool.Valid() && pool.pending == []
    modifies w.btPcigar, w.btPrev, pool
    ensures pool.Valid() && pool.pending == []
    ensures var s := Sweep(old(w.PcigarRange(lo, hi)), old(w.PrevRange(lo, hi)), w.OffsetRange(lo, hi), old(|pool.blocks|));
      && pool.blocks == old(pool.blocks) + s.blocks
      && HoldsRun(w, lo, hi, s.regs, s.prevs)
    ensures forall j :: 0 <= j < lo - w.base && j < w.offsets.Length ==>
      w.btPcigar[j] == old(w.btPcigar[j]) && w.btPrev[j] == old(w.btPrev[j])
    ensures forall j :: 0 <= j && hi - w.base < j < w.offsets.Length ==>
      w.btPcigar[j] == old(w.btPcigar[j]) && w.btPrev[j] == old(w.btPrev[j])
  {
    var globalPos, available := pool.GetMem();
    var currentPos := globalPos;
    var maxPos := currentPos + available;
    ghost var run := SweepRun(w.PcigarRange(lo, hi), w.PrevRange(lo, hi), w.OffsetRange(lo, hi), pool.blocks,
                              if lo <= hi then lo - w.base else 0);
    assert run.regs == old(w.PcigarRange(lo, hi)) && run.prevs == old(w.PrevRange(lo, hi)) && |run.pool| == old(|pool.blocks|);
    ghost var done;
    globalPos, currentPos, done := SweepDiagonals(w, lo, hi, pool, globalPos, currentPos, maxPos, run);
    SweepRunComplete(w, lo, hi, pool, run, done);
    assert run.offsets == w.OffsetRange(lo, hi);
    assert pool.pending[..currentPos - globalPos] == pool.pending;
    pool.AddUsed(currentPos - globalPos);
  }

  /**
   * The loop of the sweep over diagonals `lo..hi`, with the cursor as the
   * sweep set it up; the run records the diagonals and the pool as they
   * were when it started.
   */
  method SweepDiagonals(w: Wavefront, lo: int, hi: int, pool: BacktraceBuffer,
                        globalPos: int, currentPos: int, maxPos: int, ghost run: SweepRun)
    returns (globalPos': int, currentPos': int, ghost done: SweepResult)
    requires w.Valid() && w.Covers(lo, hi)
    requires run.Valid() && run.SweptUpTo(w, pool, 0, Sweep([], [], [], |run.pool|))
    requires |run.regs| == Width(lo, hi) && (lo <= hi ==> run.from == lo - w.base)
    requires forall t :: 0 <= t < |run.regs| ==>
      run.regs[t] == w.btPcigar[run.from + t] && run.prevs[t] == w.btPrev[run.from + t] && run.offsets[t] == w.offsets[run.from + t]
    requires Cursor(pool, globalPos, currentPos, maxPos)
    modifies w.btPcigar, w.btPrev, pool
    ensures Cursor(pool, globalPos', currentPos', maxPos)
    ensures run.SweptUpTo(w, pool, |run.regs|, done)
    ensures forall j :: 0 <= j < run.from && j < w.offsets.Length ==>
      w.btPcigar[j] == old(w.btPcigar[j]) && w.btPrev[j] == old(w.btPrev[j])
    ensures forall j :: 0 <= j && run.from + |run.regs| <= j < w.offsets.Length ==>
      w.btPcigar[j] == old(w.btPcigar[j]) && w.btPrev[j] == old(w.btPrev[j])
  {
    globalPos', currentPos' := globalPos, currentPos;
    done := Sweep([], [], [], |run.pool|);
    ghost var m := 0;
    var k := lo;
    while k <= hi
      invariant lo <= hi ==> lo <= k <= hi + 1
      invariant lo > hi ==> k == lo
      invariant m == k - lo
      invariant Cursor(pool, globalPos', currentPos', maxPos)
      invariant run.SweptUpTo(w, pool, m, done)
      invariant forall j :: 0 <= j < run.from && j < w.offsets.Length ==>
        w.btPcigar[j] == old(w.btPcigar[j]) && w.btPrev[j] == old(w.btPrev[j])
      invariant forall j :: 0 <= j && run.from + m <= j < w.offsets.Length ==>
        w.btPcigar[j] == old(w.btPcigar[j]) && w.btPrev[j] == old(w.btPrev[j])
    {
      globalPos', currentPos', done := OffloadDiagonal(w, k - w.base, pool, globalPos', currentPos', maxPos, run, m, done);
      k := k + 1;
      m := m + 1;
    }
  }

  /** A run swept to its end is the sweep of the whole run, laid out on diagonals `lo..hi`. */
  lemma SweepRunComplete(w: Wavefront, lo: int, hi: int, buffer: BacktraceBuffer, run: SweepRun, done: SweepResult)
    requires run.Valid() && run.SweptUpTo(w, buffer, |run.regs|, done)
    requires w.Covers(lo, hi) && |run.regs| == Width(lo, hi) && (lo <= hi ==> run.from == lo - w.base)
    ensures done == Sweep(run.regs, run.prevs, run.offsets, |run.pool|)
    ensures buffer.blocks + buffer.pending == run.pool + done.blocks
    ensures HoldsRun(w, lo, hi, done.regs, done.prevs)
  {
    var n := |run.regs|;
    assert run.regs[..n] == run.regs && run.prevs[..n] == run.prevs && run.offsets[..n] == run.offsets;
  }

  /** `HoldsRun` pins down the ranges: they are exactly the arrays' slices. */
  lemma HoldsRunRanges(w: Wavefront, lo: int, hi: int, regs: seq<Register>, prevs: seq<int>)
    requires w.Valid() && w.Covers(lo, hi) && HoldsRun(w, lo, hi, regs, prevs)
    ensures regs == w.PcigarRange(lo, hi) && prevs == w.PrevRange(lo, hi)
  {
  }

  /**
   * One output component: records its occupancy bound and, when the bound
   * reaches a full register, sweeps it and resets the bound to half a
   * register. `s` is what the sweep did (nothing when it was skipped).
   */
  method OffloadComponent(w: Wavefront, lo: int, hi: int, pool: BacktraceBuffer, occ: int)
    returns (ghost s: SweepResult)
    requires w.Valid() && w.Covers(lo, hi)
    requires pool.Valid() && pool.pending == []
    modifies w, w.btPcigar, w.btPrev, pool
    ensures pool.Valid() && pool.pending == []
    ensures w.btOccupancyMax == OccupancyAfter(occ) && w.isNull == old(w.isNull)
    ensures s == SweepIf(occ >= MaxLength, old(w.PcigarRange(lo, hi)), old(w.PrevRange(lo, hi)), w.OffsetRange(lo, hi), old(|pool.blocks|))
    ensures pool.blocks == old(pool.blocks) + s.blocks
    ensures w.PcigarRange(lo, hi) == s.regs && w.PrevRange(lo, hi) == s.prevs
  {
    s := SweepIf(occ >= MaxLength, w.PcigarRange(lo, hi), w.PrevRange(lo, hi), w.OffsetRange(lo, hi), |pool.blocks|);
    w.btOccupancyMax := occ;
    if occ >= MaxLength {
      OffloadWf(w, lo, hi, pool);
      HoldsRunRanges(w, lo, hi, s.regs, s.prevs);
      w.btOccupancyMax := MaxLength / 2;
    } else {
      assert pool.blocks == pool.blocks + [];
    }
  }

  /** Two output components in a row, the second continuing the pool where the first stopped. */
  method OffloadPair(a: Wavefront, b: Wavefront, lo: int, hi: int, pool: BacktraceBuffer, occA: int, occB: int)
    returns (ghost sA: SweepResult, ghost sB: SweepResult)
    requires a.Valid() && a.Covers(lo, hi) && b.Valid() && b.Covers(lo, hi) && a.Apart(b)
    requires pool.Valid() && pool.pending == []
    modifies a, a.btPcigar, a.btPrev, b, b.btPcigar, b.btPrev, pool
    ensures pool.Valid() && pool.pending == []
    ensures a.btOccupancyMax == OccupancyAfter(occA) && b.btOccupancyMax == OccupancyAfter(occB)
    ensures a.isNull == old(a.isNull) && b.isNull == old(b.isNull)
    ensures sA == SweepIf(occA >= MaxLength, old(a.PcigarRange(lo, hi)), old(a.PrevRange(lo, hi)), a.OffsetRange(lo, hi), old(|pool.blocks|))
    ensures sB == SweepIf(occB >= MaxLength, old(b.PcigarRange(lo, hi)), old(b.PrevRange(lo, hi)), b.OffsetRange(lo, hi), |old(pool.blocks) + sA.blocks|)
    ensures pool.blocks == old(pool.blocks) + sA.blocks + sB.blocks
    ensures a.PcigarRange(lo, hi) == sA.regs && a.PrevRange(lo, hi) == sA.prevs
    ensures b.PcigarRange(lo, hi) == sB.regs && b.PrevRange(lo, hi) == sB.prevs
  {
    sA := OffloadComponent(a, lo, hi, pool, occA);
    label afterA:
    assert b.PcigarRange(lo, hi) == old(b.PcigarRange(lo, hi)) && b.PrevRange(lo, hi) == old(b.PrevRange(lo, hi));
    sB := OffloadComponent(b, lo, hi, pool, occB);
    assert a.PcigarRange(lo, hi) == old@afterA(a.PcigarRange(lo, hi)) && a.PrevRange(lo, hi) == old@afterA(a.PrevRange(lo, hi));
  }

  /** Three output components in a row, each continuing the pool where the previous one stopped. */
  method OffloadTriple(a: Wavefront, b: Wavefront, c: Wavefront, lo: int, hi: int, pool: BacktraceBuffer,
                       occA: int, occB: int, occC: int)
    returns (ghost sA: SweepResult, ghost sB: SweepResult, ghost sC: SweepResult)
    requires a.Valid() && a.Covers(lo, hi) && b.Valid() && b.Covers(lo, hi) && c.Valid() && c.Covers(lo, hi)
    requires a.Apart(b) && a.Apart(c) && b.Apart(c)
    requires pool.Valid() && pool.pending == []
    modifies a, a.btPcigar, a.btPrev, b, b.btPcigar, b.btPrev, c, c.btPcigar, c.btPrev, pool
    ensures pool.Valid() && pool.pending == []
    ensures a.btOccupancyMax == OccupancyAfter(occA) && b.btOccupancyMax == OccupancyAfter(occB)
    ensures c.btOccupancyMax == OccupancyAfter(occC)
    ensures a.isNull == old(a.isNull) && b.isNull == old(b.isNull) && c.isNull == old(c.isNull)
    ensures sA == SweepIf(occA >= MaxLength, old(a.PcigarRange(lo, hi)), old(a.PrevRange(lo, hi)), a.OffsetRange(lo, hi), old(|pool.blocks|))
    ensures sB == SweepIf(occB >= MaxLength, old(b.PcigarRange(lo, hi)), old(b.PrevRange(lo, hi)), b.OffsetRange(lo, hi), |old(pool.blocks) + sA.blocks|)
    ensures sC == SweepIf(occC >= MaxLength, old(c.PcigarRange(lo, hi)), old(c.PrevRange(lo, hi)), c.OffsetRange(lo, hi), |old(pool.blocks) + sA.blocks + sB.blocks|)
    ensures pool.blocks == old(pool.blocks) + sA.blocks + sB.blocks + sC.blocks
    ensures a.PcigarRange(lo, hi) == sA.regs && a.PrevRange(lo, hi) == sA.prevs
    ensures b.PcigarRange(lo, hi) == sB.regs && b.PrevRange(lo, hi) == sB.prevs
    ensures c.PcigarRange(lo, hi) == sC.regs && c.PrevRange(lo, hi) == sC.prevs
  {
    sA := OffloadComponent(a, lo, hi, pool, occA);
    label afterA:
    assert b.PcigarRange(lo, hi) == old(b.PcigarRange(lo, hi)) && b.PrevRange(lo, hi) == old(b.PrevRange(lo, hi));
    assert c.PcigarRange(lo, hi) == old(c.PcigarRange(lo, hi)) && c.PrevRange(lo, hi) == old(c.PrevRange(lo, hi));
    sB, sC := OffloadPair(b, c, lo, hi, pool, occB, occC);
    assert a.PcigarRange(lo, hi) == old@afterA(a.PcigarRange(lo, hi)) && a.PrevRange(lo, hi) == old@afterA(a.PrevRange(lo, hi));
  }

  /** Occupancy bound of the new I1 (or, with `ext` from D1, the new D1) component. */
  function GapOccupancy(gap1: int, ext: int): (occ: int)
    ensures occ == gap1 + 1 || occ == ext + 1
    ensures occ > gap1 && occ > ext
  {
    Max(gap1, ext) + 1
  }

  /** Occupancy bound of the new M component: one more than any of its sources. */
  function MatchOccupancy(sub: int, occI1: int, occD1: int): (occ: int)
    ensures occ == sub + 1 || occ == occI1 + 1 || occ == occD1 + 1
    ensures occ > sub && occ > occI1 && occ > occD1
  {
    Max(sub, Max(occI1, occD1)) + 1
  }

  /** The occupancy bound a component keeps: reset to half a register once it is swept. */
  function OccupancyAfter(occ: int): (r: int)
    ensures occ >= MaxLength ==> r == MaxLength / 2
    ensures occ < MaxLength ==> r == occ
    ensures r < MaxLength
  {
    if occ >= MaxLength then MaxLength / 2 else occ
  }

  /**
   * The bound a component keeps stays an upper bound: if every reached
   * diagonal's register is shorter than `occ`, then after the component is
   * swept (or not) every reached register is shorter than the bound it
   * keeps.
   */
  lemma OccupancyAfterBounds(regs: seq<Register>, prevs: seq<int>, offsets: seq<int>, next: int, occ: int)
    requires |prevs| == |regs| && |offsets| == |regs|
    requires forall i :: 0 <= i < |regs| && offsets[i] >= 0 ==> |regs[i]| < occ
    ensures var s := SweepIf(occ >= MaxLength, regs, prevs, offsets, next);
      forall i :: 0 <= i < |regs| && offsets[i] >= 0 ==> |s.regs[i]| < OccupancyAfter(occ)
  {
    if occ >= MaxLength {
      SweepLeavesRoom(regs, prevs, offsets, next);
    }
  }

  /**
   * `wavefront_compute_affine_idm_piggyback_offload`: bounds how full each
   * output register can be, then sweeps the outputs whose bound reached a
   * full register, in the order I1, D1, M, each continuing the pool where
   * the previous one stopped.
   */
  method OffloadSet(ws: WavefrontSet, lo: int, hi: int, pool: BacktraceBuffer)
    returns (ghost sI1: SweepResult, ghost sD1: SweepResult, ghost sM: SweepResult)
    requires ws.Valid(lo, hi)
    requires pool.Valid() && pool.pending == []
    modifies ws.outM, ws.outI1, ws.outD1
    modifies ws.outM.btPcigar, ws.outM.btPrev, ws.outI1.btPcigar, ws.outI1.btPrev, ws.outD1.btPcigar, ws.outD1.btPrev
    modifies pool
    ensures pool.Valid() && pool.pending == []
    ensures var occI1 := GapOccupancy(old(ws.inMGap1.btOccupancyMax), old(ws.inI1Ext.btOccupancyMax));
      var occD1 := GapOccupancy(old(ws.inMGap1.btOccupancyMax), old(ws.inD1Ext.btOccupancyMax));
      var occM := MatchOccupancy(old(ws.inMSub.btOccupancyMax), occI1, occD1);
      && ws.outI1.btOccupancyMax == OccupancyAfter(occI1)
      && ws.outD1.btOccupancyMax == OccupancyAfter(occD1)
      && ws.outM.btOccupancyMax == OccupancyAfter(occM)
      && sI1 == SweepIf(occI1 >= MaxLength, old(ws.outI1.PcigarRange(lo, hi)), old(ws.outI1.PrevRange(lo, hi)),
                        ws.outI1.OffsetRange(lo, hi), old(|pool.blocks|))
      && sD1 == SweepIf(occD1 >= MaxLength, old(ws.outD1.PcigarRange(lo, hi)), old(ws.outD1.PrevRange(lo, hi)),
                        ws.outD1.OffsetRange(lo, hi), |old(pool.blocks) + sI1.blocks|)
      && sM == SweepIf(occM >= MaxLength, old(ws.outM.PcigarRange(lo, hi)), old(ws.outM.PrevRange(lo, hi)),
                       ws.outM.OffsetRange(lo, hi), |old(pool.blocks) + sI1.blocks + sD1.blocks|)
    ensures ws.outM.isNull == old(ws.outM.isNull) && ws.outI1.isNull == old(ws.outI1.isNull)
    ensures ws.outD1.isNull == old(ws.outD1.isNull)
    ensures pool.blocks == old(pool.blocks) + sI1.blocks + sD1.blocks + sM.blocks
    ensures ws.outI1.PcigarRange(lo, hi) == sI1.regs && ws.outI1.PrevRange(lo, hi) == sI1.prevs
    ensures ws.outD1.PcigarRange(lo, hi) == sD1.regs && ws.outD1.PrevRange(lo, hi) == sD1.prevs
    ensures ws.outM.PcigarRange(lo, hi) == sM.regs && ws.outM.PrevRange(lo, hi) == sM.prevs
  {
    var occI1 := GapOccupancy(ws.inMGap1.btOccupancyMax, ws.inI1Ext.btOccupancyMax);
    var occD1 := GapOccupancy(ws.inMGap1.btOccupancyMax, ws.inD1Ext.btOccupancyMax);
    var occM := MatchOccupancy(ws.inMSub.btOccupancyMax, occI1, occD1);
    sI1, sD1, sM := OffloadTriple(ws.outI1, ws.outD1, ws.outM, lo, hi, pool, occI1, occD1, occM);
  }
}
