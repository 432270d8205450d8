/** The 32-bit machine the kernel is built for: `size_t`, `unsigned long`, `unsigned int`
    and pointers are all 32 bits wide. */
module Machine {

  /** A 32-bit unsigned machine word; an address is a word too, and 0 is the null pointer. */
  type Word = n: int | 0 <= n < 0x1_0000_0000

  const NULL: Word := 0

  type Byte = n: int | 0 <= n < 256

  /** The word an arithmetic result is cut down to: every `+`, `-` and `*` on words wraps. */
  function Wrap(x: int): (w: Word)
  {
    x % 0x1_0000_0000
  }

  /** The two's complement reading of a word, as the cast to `int` or `ssize_t` gives it. */
  function Signed(w: Word): (x: int)
  {
    if w < 0x8000_0000 then w else w - 0x1_0000_0000
  }

  /** What fits a word is not cut. */
  lemma WrapWord(x: int)
    requires 0 <= x < 0x1_0000_0000
    ensures Wrap(x) == x
  {
  }

  /** Cutting in between makes no difference. */
  lemma WrapAdd(x: int, y: int, z: int)
    ensures Wrap(Wrap(x + y) + z) == Wrap(x + y + z)
  {
  }
}
