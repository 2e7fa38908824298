# Gap-affine wavefront compute step and packed match extension (WFA2-lib)

This project models two inner kernels of the WFA2-lib wavefront aligner and
proves what they compute.

**The gap-affine compute step** (`wavefront/wavefront_compute_affine.c`).
From the wavefronts of earlier scores (M at score s−x, M at s−o−e, I1 and
D1 at s−e), it computes the offsets of the new I1, D1 and M wavefronts on
every diagonal `k` of `[lo, hi]`:

- I1 = max(M[k−1], I1[k−1]) + 1;
- D1 = max(M[k+1], D1[k+1]), with no +1;
- M = max(D1, M_sub[k] + 1, I1).

The modelled pieces are:

- `ComputeAffine.ComputeIdm`: the plain kernel.
- `ComputeAffine.ComputeIdmPiggyback`: the piggyback kernel. It computes the same offsets. Each output diagonal also inherits the packed-CIGAR register and back-pointer of the source that wins, following the source's tie-break, and then records one INS, DEL or MISMS operation.
- `PiggybackOffload.OffloadSet`: the occupancy bookkeeping. It keeps a conservative bound on how full the output registers can be. When a bound reaches a full register, it sweeps that wavefront (`PiggybackOffload.OffloadWf`). The sweep stores every reached diagonal's half-full register into the backtrace pool and leaves a back-pointer to the stored block.
- `ComputeAffine.ComputeAffine`: the dispatcher. It handles the all-inputs-null short-circuit and the choice between the two kernels.

**The packed extend kernel** (`wavefront/wavefront_extend_kernels.h`).
`ExtendKernels.ExtendMatchesPacked` compares pattern and text eight
characters at a time, as little-endian 64-bit words. It finishes with the
trailing-zero count of the XOR of the first unequal pair. It is proved equal
to a naive per-character scan (`ExtendKernels.MatchRun`).

Data model:

- A wavefront (`Wavefronts.Wavefront`) is a class over three arrays: offsets, registers and back-pointers. The arrays are indexed by diagonal minus a base. The kernels update them in place.
- A register (`Pcigar.Register`) is the sequence of operations it holds.
- The backtrace pool (`BacktraceBuffer.BacktraceBuffer`) is a class holding:
  - the committed blocks;
  - the blocks written but not yet committed;
  - the room left in its current memory segment.
- The sweep is specified by the recursive function `PiggybackOffload.Sweep`. The methods are proved against it, and its properties are proved as lemmas.

## Model

All source paths are in the WFA2-lib repository.

| member | source | states |
|---|---|---|
| ComputeAffine.InsOffset | wavefront/wavefront_compute_affine.c:155-158 | the new I1 offset is one past one of its two sources and at least one past both |
| ComputeAffine.DelOffset | wavefront/wavefront_compute_affine.c:160-163 | the new D1 offset is one of its two sources and at least both: no +1 on the deletion side |
| ComputeAffine.MatchOffset | wavefront/wavefront_compute_affine.c:165-166 | the new M offset is one of D1, M_sub+1 or I1, and at least each of them |
| ComputeAffine.StepI1 | wavefront/wavefront_compute_affine.c:288-300 | the piggyback I1 cell has the plain kernel's offset and continues a source attaining it, with INS appended to its register and its back-pointer kept; on a tie the extend source wins |
| ComputeAffine.StepD1 | wavefront/wavefront_compute_affine.c:302-314 | the same for D1 with DEL and no offset increment; on a tie the extend source wins |
| ComputeAffine.StepM | wavefront/wavefront_compute_affine.c:316-333 | the M cell has the plain kernel's offset; its register and back-pointer come from M_sub when M_sub+1 attains the maximum, else from D1 when D1 attains it, else from I1; MISMS is appended |
| ComputeAffine.StepOccupancy | wavefront/wavefront_compute_affine.c:105-113 | if every source register is shorter than its wavefront's occupancy bound, the new I1, D1 and M registers are shorter than the bounds the offload step computes; when all source bounds are below a full register, every new register fits in one register |
| ComputeAffine.StepPaths | wavefront/wavefront_compute_affine.c:286-334 | the new I1 and D1 cells have the operation path of their winning source plus INS or DEL; the new M cell has the path of M at `k` plus MISMS when the mismatch wins, otherwise the path of the winning D1 or I1 source plus DEL or INS and then MISMS |
| ComputeAffine.IdmDiagonal | wavefront/wavefront_compute_affine.c:154-166 | one loop iteration establishes the offset recurrence at `k` and changes no other diagonal and nothing outside `[lo, hi]` |
| ComputeAffine.ComputeIdm | wavefront/wavefront_compute_affine.c:137-168 | every diagonal in `[lo, hi]` satisfies the I1/D1/M offset recurrence; the output arrays outside `[lo, hi]` are unchanged; only the three output offset arrays are written |
| ComputeAffine.PiggybackI1 | wavefront/wavefront_compute_affine.c:288-300 | writes the `StepI1` cell of its inputs at `k` and returns its offset; every other diagonal is unchanged |
| ComputeAffine.PiggybackD1 | wavefront/wavefront_compute_affine.c:302-314 | writes the `StepD1` cell of its inputs at `k` and returns its offset; every other diagonal is unchanged |
| ComputeAffine.PiggybackMSource | wavefront/wavefront_compute_affine.c:318-329 | the three overwrites leave the register and back-pointer of M_sub if it attains the maximum, else D1's, else I1's; nothing else changes |
| ComputeAffine.PiggybackM | wavefront/wavefront_compute_affine.c:316-333 | writes the `StepM` cell at `k`, reading the new I1 and D1 cells; every other diagonal is unchanged |
| ComputeAffine.PiggybackGaps | wavefront/wavefront_compute_affine.c:287-314 | writes the I1 and D1 cells at `k` and nothing else of the outputs |
| ComputeAffine.PiggybackDiagonal | wavefront/wavefront_compute_affine.c:286-334 | one loop iteration writes the recurrence's three cells at `k` and nothing else |
| ComputeAffine.PiggybackAdvance | wavefront/wavefront_compute_affine.c:286-334 | extends the prefix of diagonals that hold the recurrence's cells by one |
| ComputeAffine.PiggybackCells | wavefront/wavefront_compute_affine.c:284-334 | after the compute loop, the outputs on `[lo, hi]` hold the recurrence's cells, computed from the inputs as they were before; nothing outside `[lo, hi]` is written |
| ComputeAffine.ComputesOffsets | wavefront/wavefront_compute_affine.c:286-334 | the piggyback cells satisfy the plain kernel's offset recurrence, so both kernels compute the same offsets |
| ComputeAffine.PiggybackCompute | wavefront/wavefront_compute_affine.c:284-334 | the compute loop yields the plain kernel's offsets, and the registers and back-pointers the offload step starts from |
| ComputeAffine.OffloadComputed | wavefront/wavefront_compute_affine.c:335-336 | the offload leaves the offsets, and so the recurrence, as computed; the sweeps see the computed registers and back-pointers |
| ComputeAffine.ComputeIdmPiggyback | wavefront/wavefront_compute_affine.c:251-337 | same offsets as the plain kernel; offsets outside `[lo, hi]` unchanged; whether each output is null is unchanged; each output's occupancy bound as the offload sets it; each output's registers and back-pointers are those of its sweep (or of the computed cells when not swept); the pool grows by the I1, D1 and M sweeps' blocks in that order |
| ComputeAffine.ComputeAffine | wavefront/wavefront_compute_affine.c:341-370 | null output exactly when all four inputs are null, and then nothing is written; otherwise the piggyback kernel runs exactly when `bt_piggyback` is set, and the plain one otherwise; either way the offset recurrence holds on `[lo, hi]` and the output offsets outside `[lo, hi]` are unchanged; no kernel changes whether an output is null; the plain kernel leaves registers, back-pointers and the pool alone; after the piggyback kernel the occupancy bounds, the three sweeps (of the cells computed from the inputs as they were), the pool and the outputs' registers and back-pointers on `[lo, hi]` are as `ComputeAffine.ComputeIdmPiggyback` states |
| PiggybackOffload.GapOccupancy | wavefront/wavefront_compute_affine.c:105-110 | the I1 and D1 bound is one more than the larger source bound: it equals one of them plus one and exceeds both |
| PiggybackOffload.MatchOccupancy | wavefront/wavefront_compute_affine.c:111-113 | the M bound is one more than the largest of the M_sub, I1 and D1 bounds: it equals one of them plus one and exceeds all three |
| PiggybackOffload.OccupancyAfter | wavefront/wavefront_compute_affine.c:114-132 | a bound reaching a full register is reset to half a register, any other is kept; the kept bound is below a full register |
| PiggybackOffload.OccupancyAfterBounds | wavefront/wavefront_compute_affine.c:118-132 | the kept bound still bounds the reached registers after the sweep (or its absence) |
| PiggybackOffload.Sweep | wavefront/wavefront_compute_affine.c:68-84 | reference definition of the sweep, diagonal by diagonal in order: the registers and back-pointers after it (one per diagonal) and the blocks it appends; its meaning is stated by the `Sweep*` lemmas below |
| PiggybackOffload.SweepAt | wavefront/wavefront_compute_affine.c:68-84 | a reached diagonal with a half-full register ends with an empty register, pointing at a new block that holds its old register and back-pointer; any other diagonal is untouched |
| PiggybackOffload.SweepIncreasing | wavefront/wavefront_compute_affine.c:74-78 | block indices handed out by a sweep increase with the diagonal |
| PiggybackOffload.SweepBlocksOwned | wavefront/wavefront_compute_affine.c:72-78 | every appended block belongs to the offloaded diagonal that points to it |
| PiggybackOffload.SweepBlockCount | wavefront/wavefront_compute_affine.c:68-86 | the pool grows by exactly the number of offloaded diagonals |
| PiggybackOffload.SweepNothingToOffload | wavefront/wavefront_compute_affine.c:70 | with no reached, half-full register the sweep changes nothing |
| PiggybackOffload.SweepPreservesPaths | wavefront/wavefront_compute_affine.c:72-77 | the extended pool still chains backward and every diagonal's full operation path (stored blocks, then its register) is what it was |
| PiggybackOffload.OffloadPreservesPaths | wavefront/wavefront_compute_affine.c:114-132 | over the three sweeps of one offload, each continuing the pool where the previous one stopped, the final pool still chains backward and every diagonal of every output has the operation path it had before the offload, over the pool as it was |
| PiggybackOffload.SweepLeavesRoom | wavefront/wavefront_compute_affine.c:70-78 | after a sweep no reached diagonal's register is half full |
| PiggybackOffload.AdvanceCursor | wavefront/wavefront_compute_affine.c:78-83 | the cursor moves one block on; reaching `max_pos` commits the written blocks and fetches memory again, with no block lost or reordered |
| PiggybackOffload.OffloadDiagonal | wavefront/wavefront_compute_affine.c:70-84 | one loop iteration extends the completed prefix of the sweep by one diagonal and writes no other diagonal |
| PiggybackOffload.SweepDiagonals | wavefront/wavefront_compute_affine.c:67-85 | the loop leaves the wavefront holding the sweep of its old registers, back-pointers and offsets; the pool holds the old blocks followed by the new ones |
| PiggybackOffload.OffloadWf | wavefront/wavefront_compute_affine.c:53-87 | the pool gains exactly the sweep's blocks, all committed; the diagonals on `[lo, hi]` hold the sweep's registers and back-pointers; diagonals outside `[lo, hi]` are unchanged |
| PiggybackOffload.OffloadComponent | wavefront/wavefront_compute_affine.c:114-122 | one output's bound is stored, and the output is swept and its bound reset exactly when the bound reaches a full register; whether the output is null is unchanged |
| PiggybackOffload.OffloadTriple | wavefront/wavefront_compute_affine.c:118-132 | three outputs are handled in order, each sweep continuing the pool where the previous one stopped |
| PiggybackOffload.OffloadSet | wavefront/wavefront_compute_affine.c:88-133 | the I1, D1 and M bounds are computed by the max+1 recurrences and reset after a sweep; the I1, D1 and M outputs are swept, in that order, exactly when their bounds reach a full register; whether each output is null is unchanged |
| BacktraceBuffer.BacktraceBuffer.GetMem | wavefront/wavefront_compute_affine.c:63-65 | returns the global index of the next free block and the room left in the segment; uncommitted blocks are dropped |
| BacktraceBuffer.BacktraceBuffer.Store | wavefront/wavefront_compute_affine.c:72-74 | one block is written after the ones already written, within the free room |
| BacktraceBuffer.BacktraceBuffer.AddUsed | wavefront/wavefront_compute_affine.c:86 | commits the first `used` written blocks after the committed ones; a filled segment is replaced |
| BacktraceBuffer.HistoryAppend | wavefront/wavefront_compute_affine.c:72-73 | appending blocks to the pool leaves every existing back-pointer chain unchanged |
| ExtendKernels.MatchRun | wavefront/wavefront_extend_kernels.h:41-65 | the naive scan: every pair it passes is equal, and it stops at an unequal pair or at a buffer's end |
| ExtendKernels.XorZeroIffEqual | wavefront/wavefront_extend_kernels.h:49-50 | the XOR of two words is zero exactly when all eight character pairs are equal |
| ExtendKernels.CtzByteFrom | wavefront/wavefront_extend_kernels.h:60 | the bits of a byte from `q` up to the result are clear and, when the result is below 8, the bit at the result is set |
| ExtendKernels.CtzFrom | wavefront/wavefront_extend_kernels.h:60 | from bit `8*j` of the little-endian word, every bit below the result is clear, the bit at the result is set when it is below 64, and 64 means every byte from `j` on is zero |
| ExtendKernels.Ctz | wavefront/wavefront_extend_kernels.h:60 | `__builtin_ctzl`: every bit below the result is clear and the bit at the result is set; 64 only for the zero word |
| ExtendKernels.CtzLocatesByte | wavefront/wavefront_extend_kernels.h:60-61 | if the first nonzero byte of the XOR is byte `j`, the trailing-zero count divided by 8 is `j` |
| ExtendKernels.RunEndsAtMismatch | wavefront/wavefront_extend_kernels.h:50-58 | when the word holding the first mismatch is readable, the run ends at a real mismatch inside both buffers |
| ExtendKernels.ExtendedOffset | wavefront/wavefront_extend_kernels.h:49-62 | along diagonal `k`, every pair between the start and the scan's result is equal and the pair at the result differs |
| ExtendKernels.EqualBlockInsideRun | wavefront/wavefront_extend_kernels.h:50-58 | a word of equal pairs starting inside the run lies wholly inside it |
| ExtendKernels.MismatchBlock | wavefront/wavefront_extend_kernels.h:59-62 | on the first unequal word, the block start plus ctz/8 is exactly the run length, with ctz below 64 |
| ExtendKernels.ExtendMatchesPacked | wavefront/wavefront_extend_kernels.h:41-65 | the result equals the start plus the naive scan's run length, is at least the start, and is the start itself when the first pair differs |

## Left out

- The collaborators of `wavefront_compute_affine` are not part of this model: `wavefront_aligner_fetch_input`, `wavefront_compute_limits`, `wavefront_aligner_allocate_output(_null)`, `wavefront_aligner_init_ends` and `wavefront_aligner_trim_ends` (wavefront/wavefront_compute_affine.c:346-369).
  - The wavefront set, `lo`, `hi` and the allocated outputs are parameters.
  - Allocating the null output is reported as the `NullOutput` outcome.
- The `PCIGAR_*` bit packing is defined outside these files. A register is modelled as its operation sequence, and `PCIGAR_MAX_LENGTH` is taken as 16 (a 32-bit word, two bits per operation).
- Pcigar.IsHalfFull: `PCIGAR_IS_HALF_FULL` is defined outside these files. It is taken to mean "holds at least `PCIGAR_MAX_LENGTH/2` operations". Which diagonals a sweep offloads depends on this threshold, and so do the strict bounds of `ComputeAffine.StepOccupancy` and `PiggybackOffload.OccupancyAfterBounds`.
- The register's overflow behaviour is not modelled. A full packed word cannot take another operation, but the sequence here grows without limit. `ComputeAffine.StepOccupancy` shows that a register fits when its sources are strictly below their bounds.
- The `WAVEFRONT_V`/`WAVEFRONT_H` macros are defined elsewhere. They are modelled as v = offset − k and h = offset, which advance together with the offset.
- `wf_offset_t` is a 32-bit integer in the source. Offsets are unbounded here, and the null sentinel is any negative offset.
- The internals of the backtrace buffer's `get_mem`/`add_used` are not part of this model. The pool is a committed block sequence plus the room in the current segment.
- The commented-out alternative kernel (wavefront/wavefront_compute_affine.c:173-250) and the unused macro `WAVEFRONT_COMPUTE_BT_BUFFER_OFFLOAD` (38-52) are not modelled.
- The extend variants that are only declared (wavefront/wavefront_extend_kernels.h:69-96) are not modelled.
- Hints that do not change results are not modelled: `PRAGMA_LOOP_VECTORIZE`, `__builtin_expect`, `FORCE_INLINE` and unaligned `uint64_t*` loads. Words are read as little-endian.
- The offload stores each output's occupancy bound just before that output's own sweep, so after the previous output's sweep. The source stores all three bounds before the first sweep. No sweep reads the bounds, so the final state is the same.
- PiggybackOffload.OffloadWf: `max_pos` is kept fixed, as in the source. After the first segment rollover, every further store commits and fetches memory again; the contract states the resulting committed blocks, which are the same.
- ComputeAffine.ComputeIdmPiggyback: it states unchanged only the offsets outside `[lo, hi]`, not the registers and back-pointers there. `PiggybackOffload.OffloadWf` and `ComputeAffine.PiggybackCells` state those per step.
- ComputeAffine.StepOccupancy: it requires every source register to be strictly below its bound. After an offload this holds for reached diagonals (`PiggybackOffload.OccupancyAfterBounds`), but unreached diagonals are never swept. That the slack holds on every diagonal across compute steps is therefore not claimed.
- ExtendKernels.ExtendMatchesPacked: it requires the word holding the first mismatch to be readable in both buffers, which the caller guarantees by padding. The source performs no check.
