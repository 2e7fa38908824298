/**
 * The inner-most extend kernel: advances an offset along diagonal k while
 * pattern and text agree, comparing 8 characters at a time as one
 * little-endian 64-bit word, and finishing with a count of trailing zero
 * bits of the XOR of the first unequal pair of words.
 */
module ExtendKernels {

  type byte = bv8

  /** Pattern coordinate of `offset` on diagonal `k` (the diagonal is h - v). */
  function V(k: int, offset: int): int { offset - k }

  /** Text coordinate of `offset` on diagonal `k`. */
  function H(k: int, offset: int): int { offset }

  // ---------------------------------------------------------------------
  // 64-bit words, as their 8 bytes in little-endian order
  // ---------------------------------------------------------------------

  /**
   * A 64-bit word given by its bytes: byte `j` holds bits 8*j .. 8*j+7, so
   * byte 0 is the least significant one (little-endian memory order).
   */
  type Word = w: seq<byte> | |w| == 8 witness [0, 0, 0, 0, 0, 0, 0, 0]

  /** The word read at byte position `i` (the `uint64_t*` dereference). */
  function Load64(s: seq<byte>, i: int): Word
    requires 0 <= i && i + 8 <= |s|
  {
    s[i..i + 8]
  }

  /** Bitwise exclusive or of two words. */
  function Xor(a: Word, b: Word): Word
  {
    seq(8, j requires 0 <= j < 8 => a[j] ^ b[j])
  }

  /** The word is the integer 0. */
  predicate IsZero(w: Word)
  {
    forall j :: 0 <= j < 8 ==> w[j] == 0
  }

  /** Bit `q` of a byte is set. */
  predicate BitSet(b: byte, q: int)
    requires 0 <= q < 8
  {
    (b >> q) & 1 == 1
  }

  /** Trailing zero bits of a byte, scanning from bit `q` (8 when none is set). */
  function CtzByteFrom(b: byte, q: int): (r: int)
    requires 0 <= q <= 8
    ensures q <= r <= 8
    ensures forall q' :: q <= q' < r ==> !BitSet(b, q')
    ensures r < 8 ==> BitSet(b, r)
    decreases 8 - q
  {
    if q == 8 then 8
    else if BitSet(b, q) then q
    else CtzByteFrom(b, q + 1)
  }

  /** Bit `q` of a word: bit `q % 8` of byte `q / 8`. */
  predicate WordBit(w: Word, q: int)
    requires 0 <= q < 64
  {
    BitSet(w[q / 8], q % 8)
  }

  /**
   * Trailing zero bits of a word, scanning from byte `j`: whole zero bytes
   * count 8 bits each, then the low bits of the first nonzero byte.
   */
  function CtzFrom(w: Word, j: int): (r: int)
    requires 0 <= j <= 8
    ensures 8 * j <= r <= 64
    ensures forall q :: 8 * j <= q < r ==> !WordBit(w, q)
    ensures r < 64 ==> WordBit(w, r)
    ensures r == 64 ==> forall j' :: j <= j' < 8 ==> w[j'] == 0
    decreases 8 - j
  {
    if j == 8 then 64
    else if w[j] == 0 then
      ByteBitsClear(w, j);
      CtzFrom(w, j + 1)
    else
      NonzeroByteCtz(w[j]);
      ByteBits(w, j, CtzByteFrom(w[j], 0));
      8 * j + CtzByteFrom(w[j], 0)
  }

  /** The bits of byte `j` are the word bits `8 * j .. 8 * j + 7`. */
  lemma ByteBits(w: Word, j: int, c: int)
    requires 0 <= j < 8 && 0 <= c <= 8
    ensures forall q :: 8 * j <= q < 8 * j + c ==> q / 8 == j && q % 8 == q - 8 * j
  {
  }

  /** A zero byte contributes no set bit to the word. */
  lemma ByteBitsClear(w: Word, j: int)
    requires 0 <= j < 8 && w[j] == 0
    ensures forall q :: 8 * j <= q < 8 * j + 8 ==> !WordBit(w, q)
  {
    ByteBits(w, j, 8);
  }

  /**
   * `__builtin_ctzl`: the number of trailing zero bits of a word; 64 for the
   * zero word, for which the source leaves it undefined.
   */
  function Ctz(w: Word): (r: int)
    ensures 0 <= r <= 64
    ensures forall q :: 0 <= q < r ==> !WordBit(w, q)
    ensures r < 64 ==> WordBit(w, r)
    ensures r == 64 ==> IsZero(w)
  {
    CtzFrom(w, 0)
  }

  lemma XorAt(p: seq<byte>, t: seq<byte>, i: int, h: int, m: int)
    requires 0 <= i && i + 8 <= |p|
    requires 0 <= h && h + 8 <= |t|
    requires 0 <= m < 8
    ensures Xor(Load64(p, i), Load64(t, h))[m] == p[i + m] ^ t[h + m]
  {
  }

  /** The XOR of two loaded words is zero exactly when the 8 character pairs are equal. */
  lemma XorZeroIffEqual(p: seq<byte>, t: seq<byte>, i: int, h: int)
    requires 0 <= i && i + 8 <= |p|
    requires 0 <= h && h + 8 <= |t|
    ensures IsZero(Xor(Load64(p, i), Load64(t, h))) <==> forall q :: i <= q < i + 8 ==> p[q] == t[q - i + h]
  {
    var x := Xor(Load64(p, i), Load64(t, h));
    forall q | i <= q < i + 8
      ensures x[q - i] == 0 <==> p[q] == t[q - i + h]
    {
      XorAt(p, t, i, h, q - i);
      ByteXorZeroIffEqual(p[q], t[q - i + h]);
    }
  }

  lemma ByteXorZeroIffEqual(a: byte, b: byte)
    ensures a ^ b == 0 <==> a == b
  {
  }

  /** A nonzero byte has a set bit among its 8: its trailing zero count is below 8. */
  lemma NonzeroByteCtz(b: byte)
    requires b != 0
    ensures CtzByteFrom(b, 0) < 8
  {
    if CtzByteFrom(b, 0) == 8 {
      NoBitSetIsZero(b);
    }
  }

  lemma NoBitSetIsZero(b: byte)
    requires forall q :: 0 <= q < 8 ==> !BitSet(b, q)
    ensures b == 0
  {
    assert !BitSet(b, 0) && !BitSet(b, 1) && !BitSet(b, 2) && !BitSet(b, 3);
    assert !BitSet(b, 4) && !BitSet(b, 5) && !BitSet(b, 6) && !BitSet(b, 7);
  }

  /** Scanning from byte `i` skips the zero bytes below byte `j`. */
  lemma {:induction false} CtzFromSkip(w: Word, i: int, j: int)
    requires 0 <= i <= j <= 8
    requires forall j' :: i <= j' < j ==> w[j'] == 0
    ensures CtzFrom(w, i) == CtzFrom(w, j)
    decreases j - i
  {
    if i < j {
      CtzFromSkip(w, i + 1, j);
    }
  }

  /**
   * When bytes 0..j-1 of a word are zero and byte j is not, the word is
   * nonzero and its trailing zero count divided by 8 is j.
   */
  lemma CtzLocatesByte(w: Word, j: int)
    requires 0 <= j < 8
    requires forall j' :: 0 <= j' < j ==> w[j'] == 0
    requires w[j] != 0
    ensures !IsZero(w)
    ensures 0 <= Ctz(w) < 64
    ensures Ctz(w) / 8 == j
  {
    CtzFromSkip(w, 0, j);
    NonzeroByteCtz(w[j]);
  }

  // ---------------------------------------------------------------------
  // Reference: the naive per-character scan
  // ---------------------------------------------------------------------

  /**
   * Number of equal character pairs starting at pattern position `v` and
   * text position `h`, comparing one character at a time.
   */
  function MatchRun(p: seq<byte>, t: seq<byte>, v: nat, h: nat): (n: nat)
    requires v <= |p| && h <= |t|
    ensures v + n <= |p| && h + n <= |t|
    ensures forall i :: v <= i < v + n ==> p[i] == t[i - v + h]
    ensures v + n == |p| || h + n == |t| || p[v + n] != t[h + n]
    decreases |p| - v
  {
    if v < |p| && h < |t| && p[v] == t[h] then 1 + MatchRun(p, t, v + 1, h + 1) else 0
  }

  /**
   * The caller's guarantee (padded, sentinel-terminated buffers): the whole
   * 8-byte word holding the first mismatch is readable in both sequences.
   */
  predicate MismatchReadable(p: seq<byte>, t: seq<byte>, v: nat, h: nat)
  {
    v <= |p| && h <= |t| &&
    var n := MatchRun(p, t, v, h);
    v + n / 8 * 8 + 8 <= |p| && h + n / 8 * 8 + 8 <= |t|
  }

  /** Under the caller's guarantee the run ends at a genuine mismatch inside both buffers. */
  lemma RunEndsAtMismatch(p: seq<byte>, t: seq<byte>, v: nat, h: nat)
    requires MismatchReadable(p, t, v, h)
    ensures v + MatchRun(p, t, v, h) < |p| && h + MatchRun(p, t, v, h) < |t|
    ensures p[v + MatchRun(p, t, v, h)] != t[h + MatchRun(p, t, v, h)]
  {
    var n := MatchRun(p, t, v, h);
    assert n < n / 8 * 8 + 8;
  }

  /**
   * The naive scan read along diagonal `k`: the offsets it passes over hold
   * equal character pairs and the offset where it stops holds a mismatch.
   */
  lemma ExtendedOffset(p: seq<byte>, t: seq<byte>, k: int, offset: int)
    requires 0 <= V(k, offset) && 0 <= H(k, offset)
    requires MismatchReadable(p, t, V(k, offset), H(k, offset))
    ensures var r := offset + MatchRun(p, t, V(k, offset), H(k, offset));
      && (forall o :: offset <= o < r ==> 0 <= V(k, o) < |p| && 0 <= H(k, o) < |t|)
      && (forall o :: offset <= o < r ==> p[V(k, o)] == t[H(k, o)])
      && 0 <= V(k, r) < |p| && 0 <= H(k, r) < |t|
      && p[V(k, r)] != t[H(k, r)]
  {
    var v, h := V(k, offset), H(k, offset);
    var n := MatchRun(p, t, v, h);
    RunEndsAtMismatch(p, t, v, h);
    assert V(k, offset + n) == v + n && H(k, offset + n) == h + n;
    forall o | offset <= o < offset + n
      ensures 0 <= V(k, o) < |p| && 0 <= H(k, o) < |t| && p[V(k, o)] == t[H(k, o)]
    {
      var i := v + (o - offset);
      assert V(k, o) == i && H(k, o) == i - v + h;
      assert p[i] == t[i - v + h];
    }
  }

  // ---------------------------------------------------------------------
  // The packed kernel
  // ---------------------------------------------------------------------

  /**
   * A block of 8 equal character pairs that starts inside the match run
   * lies wholly inside it: the run is at least 8 longer than the block start.
   */
  lemma EqualBlockInsideRun(p: seq<byte>, t: seq<byte>, v: nat, h: nat, b: nat)
    requires MismatchReadable(p, t, v, h)
    requires 8 * b <= MatchRun(p, t, v, h)
    requires v + 8 * b + 8 <= |p| && h + 8 * b + 8 <= |t|
    requires IsZero(Xor(Load64(p, v + 8 * b), Load64(t, h + 8 * b)))
    ensures 8 * b + 8 <= MatchRun(p, t, v, h)
  {
    var n := MatchRun(p, t, v, h);
    XorZeroIffEqual(p, t, v + 8 * b, h + 8 * b);
    RunEndsAtMismatch(p, t, v, h);
    assert p[v + n] != t[v + n - (v + 8 * b) + (h + 8 * b)];
  }

  /**
   * On the block holding the first mismatch, the trailing zero count of the
   * XOR, divided by 8, is the number of equal characters left in the run.
   */
  lemma MismatchBlock(p: seq<byte>, t: seq<byte>, v: nat, h: nat, b: nat)
    requires MismatchReadable(p, t, v, h)
    requires 8 * b <= MatchRun(p, t, v, h)
    requires v + 8 * b + 8 <= |p| && h + 8 * b + 8 <= |t|
    requires !IsZero(Xor(Load64(p, v + 8 * b), Load64(t, h + 8 * b)))
    ensures 0 <= Ctz(Xor(Load64(p, v + 8 * b), Load64(t, h + 8 * b))) < 64
    ensures 8 * b + Ctz(Xor(Load64(p, v + 8 * b), Load64(t, h + 8 * b))) / 8 == MatchRun(p, t, v, h)
  {
    var n := MatchRun(p, t, v, h);
    var pb, tb := v + 8 * b, h + 8 * b;
    var cmp := Xor(Load64(p, pb), Load64(t, tb));
    XorZeroIffEqual(p, t, pb, tb);
    var j := n - 8 * b;
    assert j < 8;
    forall j' | 0 <= j' <= j
      ensures cmp[j'] == 0 <==> p[pb + j'] == t[tb + j']
    {
      XorAt(p, t, pb, tb, j');
      ByteXorZeroIffEqual(p[pb + j'], t[tb + j']);
    }
    forall j' | 0 <= j' < j
      ensures cmp[j'] == 0
    {
      assert p[v + (8 * b + j')] == t[v + (8 * b + j') - v + h];
    }
    CtzLocatesByte(cmp, j);
  }

  /**
   * Extends `offset` on diagonal `k` through the run of matching characters.
   * The result is the offset of the first mismatch, exactly as a naive
   * character-by-character scan finds it.
   */
  method ExtendMatchesPacked(pattern: seq<byte>, text: seq<byte>, k: int, offset: int) returns (r: int)
    requires 0 <= V(k, offset) && 0 <= H(k, offset)
    requires MismatchReadable(pattern, text, V(k, offset), H(k, offset))
    ensures r == offset + MatchRun(pattern, text, V(k, offset), H(k, offset))
    ensures r >= offset
    ensures pattern[V(k, offset)] != text[H(k, offset)] ==> r == offset
  {
    var v, h := V(k, offset), H(k, offset);
    ghost var n := MatchRun(pattern, text, v, h);
    r := offset;
    // Positions of the current pattern and text blocks
    var pBlock, tBlock := v, h;
    ghost var blocks := 0;
    // Compare 64-bit blocks
    var cmp := Xor(Load64(pattern, pBlock), Load64(text, tBlock));
    while IsZero(cmp)
      invariant 0 <= blocks && 8 * blocks <= n
      invariant r - offset == 8 * blocks
      invariant pBlock == v + 8 * blocks && tBlock == h + 8 * blocks
      invariant pBlock + 8 <= |pattern| && tBlock + 8 <= |text|
      invariant cmp == Xor(Load64(pattern, pBlock), Load64(text, tBlock))
      decreases n - 8 * blocks
    {
      EqualBlockInsideRun(pattern, text, v, h, blocks);
      // Increment offset (full block)
      r := r + 8;
      blocks := blocks + 1;
      pBlock, tBlock := pBlock + 8, tBlock + 8;
      cmp := Xor(Load64(pattern, pBlock), Load64(text, tBlock));
    }
    // Count equal characters
    MismatchBlock(pattern, text, v, h, blocks);
    var equalRightBits := Ctz(cmp);
    var equalChars := equalRightBits / 8;
    r := r + equalChars;
  }
}
