/** The machine words of the C code, and one fact about integers. */
module Words {
  /** 32-bit unsigned arithmetic is modulo WORD. */
  const WORD := 0x1_0000_0000

  type byte = b: int | 0 <= b < 0x100
  type uint16 = v: int | 0 <= v < 0x1_0000
  type uint32 = v: int | 0 <= v < WORD

  /** A multiple of d strictly between -d and d is zero. */
  lemma Multiple(d: int, t: int)
    requires -d < d * t < d
    ensures t == 0
  {}
}
