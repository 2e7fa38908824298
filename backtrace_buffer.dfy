/**
 * The backtrace block pool: an append-only sequence of offloaded registers.
 * A block stores one register and the back-pointer its diagonal had when it
 * was offloaded, so following back-pointers from a diagonal replays every
 * operation it ever recorded.
 */
module BacktraceBuffer {
  import opened Pcigar

  /** `wf_backtrace_block_t`: an offloaded register and the block it continues. */
  datatype Block = Block(pcigar: Register, prev: int)

  /** Every block points to an earlier block, or to none (a negative index). */
  ghost predicate ChainsBackward(pool: seq<Block>)
  {
    forall i :: 0 <= i < |pool| ==> pool[i].prev < i
  }

  /**
   * The operations recorded by the chain of blocks that ends at block `idx`,
   * oldest first. An index outside the pool ends the chain.
   */
  ghost function History(pool: seq<Block>, idx: int): seq<Op>
    decreases if idx < 0 then 0 else idx + 1
  {
    if 0 <= idx < |pool| then
      (if pool[idx].prev < idx then History(pool, pool[idx].prev) else []) + pool[idx].pcigar
    else []
  }

  /** Every operation a diagonal has recorded: its offloaded chain, then its register. */
  ghost function Path(pool: seq<Block>, prev: int, pcigar: Register): seq<Op>
  {
    History(pool, prev) + pcigar
  }

  /** Appending blocks leaves every existing chain as it was. */
  lemma {:induction false} HistoryAppend(pool: seq<Block>, more: seq<Block>, idx: int)
    requires idx < |pool|
    ensures History(pool + more, idx) == History(pool, idx)
    decreases if idx < 0 then 0 else idx + 1
  {
    if 0 <= idx {
      assert (pool + more)[idx] == pool[idx];
      if pool[idx].prev < idx {
        HistoryAppend(pool, more, pool[idx].prev);
      }
    }
  }

  /**
   * The pool (`wf_backtrace_buffer_t`). `blocks` are the committed blocks; a
   * block's global index is its position. `pending` are the blocks written to
   * free memory past the last commit and not yet committed. `free` is how
   * many blocks fit from the first free block to the end of the current
   * memory segment; an exhausted segment is replaced by a fresh one of
   * `segmentSize` blocks. How segments are allocated is not modelled.
   */
  class BacktraceBuffer {
    var blocks: seq<Block>
    var pending: seq<Block>
    var free: nat
    const segmentSize: nat

    ghost predicate Valid()
      reads this
    {
      0 < free <= segmentSize
    }

    constructor (segmentSize: nat)
      requires segmentSize > 0
      ensures Valid() && this.segmentSize == segmentSize
      ensures blocks == [] && pending == [] && free == segmentSize
    {
      this.segmentSize := segmentSize;
      blocks := [];
      pending := [];
      free := segmentSize;
    }

    /**
     * `wf_backtrace_buffer_get_mem`: the global index of the next free block
     * and how many blocks can be written from there. Blocks written and not
     * committed are dropped (their memory is handed out again).
     */
    method GetMem() returns (pos: int, available: nat)
      requires Valid()
      modifies this
      ensures Valid() && free == old(free)
      ensures blocks == old(blocks) && pending == []
      ensures pos == |blocks| && available == free
    {
      pending := [];
      pos := |blocks|;
      available := free;
    }

    /** Writes one block into the free memory (`*bt_block_mem++ = block`). */
    method Store(block: Block)
      requires Valid() && |pending| < free
      modifies this
      ensures Valid() && free == old(free)
      ensures blocks == old(blocks) && pending == old(pending) + [block]
    {
      pending := pending + [block];
    }

    /**
     * `wf_backtrace_buffer_add_used`: commits the first `used` written
     * blocks; a segment they fill up is replaced by a fresh one.
     */
    method AddUsed(used: nat)
      requires Valid() && used <= |pending| && used <= free
      modifies this
      ensures Valid()
      ensures blocks == old(blocks) + old(pending)[..used]
      ensures pending == old(pending)[used..]
      ensures free == if used == old(free) then segmentSize else old(free) - used
    {
      blocks := blocks + pending[..used];
      pending := pending[used..];
      free := if used == free then segmentSize else free - used;
    }
  }
}
