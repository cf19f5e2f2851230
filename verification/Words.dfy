/** Machine words: `usize` on a 64-bit target, with release-profile (wrapping) arithmetic. */
module Words {
  const WORD: int := 0x1_0000_0000_0000_0000
  const HALF: int := 0x8000_0000_0000_0000

  type Word = w: int | 0 <= w < WORD
  type Signed = i: int | -HALF <= i < HALF
  type Byte = b: int | 0 <= b < 256

  /** `i as usize` for a signed 64-bit `i`. */
  function AsWord(i: Signed): (w: Word)
    ensures w == i % WORD
  {
    if i < 0 then i + WORD else i
  }

  /** The two's complement reading of a word: the inverse of `AsWord`. */
  function AsSigned(w: Word): (i: Signed)
    ensures AsWord(i) == w
  {
    if w < HALF then w else w - WORD
  }

  function WrappingAdd(a: Word, b: Word): (r: Word)
    ensures r == (a + b) % WORD
  {
    if a + b < WORD then a + b else a + b - WORD
  }

  function WrappingSub(a: Word, b: Word): (r: Word)
    ensures r == (a - b) % WORD
    ensures WrappingAdd(r, b) == a
  {
    if b <= a then a - b else a - b + WORD
  }

  /** Memory as the words read from it; every address is readable. */
  type Memory = map<Word, Word>

  function Load(m: Memory, a: Word): Word {
    if a in m then m[a] else 0
  }
}
