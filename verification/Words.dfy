/** 32-bit machine words, split the way the paging unit splits them:
    the upper twenty bits (a frame number) and the lower twelve (flags). */
module Words {

  const MAX_FRAMES := 0x10_0000
  const COUNT_LIMIT := 0x1_0000_0000

  type FrameNo = f: int | 0 <= f < 0x10_0000

  /** A word is determined by the pair: there is exactly one for each of the 2^32 values. */
  datatype Word = Word(frame: FrameNo, low: bv12)

  const ZERO := Word(0, 0)
  const MINUS_ONE := Word(0xF_FFFF, 0xFFF)

  /** `w & 0xfffff000` */
  function PageBase(w: Word): Word { w.(low := 0) }

  /** `w | bits`, for `bits` below 4096 */
  function Or(w: Word, bits: bv12): Word { w.(low := w.low | bits) }

  /** `w & ~bits`, for `bits` below 4096 */
  function Clear(w: Word, bits: bv12): Word { w.(low := w.low & !bits) }

  predicate Has(w: Word, bits: bv12) { w.low & bits != 0 }

  /** An `unsigned int` used as a counter. */
  type Count = c: int | 0 <= c < 0x1_0000_0000

  function Increment(c: Count): Count { if c == 0xFFFF_FFFF then 0 else c + 1 }

  function Decrement(c: Count): Count { if c == 0 then 0xFFFF_FFFF else c - 1 }

  /** The counter after `n` increments. */
  function Advance(c: Count, n: nat): Count { (c + n) % COUNT_LIMIT }

  lemma AdvanceStep(c: Count, n: nat)
    ensures Increment(Advance(c, n)) == Advance(c, n + 1)
  {
  }

  /** A wrapped counter ends below the number of increments. */
  lemma AdvanceWraps(c: Count, n: nat)
    ensures c + n < COUNT_LIMIT ==> Advance(c, n) == c + n
    ensures c + n >= COUNT_LIMIT ==> Advance(c, n) < n
  {
  }

  lemma AdvanceSum(c: Count, m: nat, n: nat)
    ensures Advance(Advance(c, m), n) == Advance(c, m + n)
  {
  }

  datatype Option<+T> = None | Some(value: T)
}
