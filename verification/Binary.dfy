/** Bytes, and what is left of a sequence of them at the end of a text. */
module Binary {

  type Byte = b: int | 0 <= b < 0x100

  /** An incomplete UTF-8 sequence: its bits so far and the number of missing bytes (negative: malformed). */
  datatype Partial = Partial(value: nat, remaining: int)

  /** A number in groups of six bits. */
  lemma {:induction false} SixBits(p: nat)
    ensures p == p / 64 * 64 + p % 64
    ensures p / 64 == p / 4096 * 64 + p / 64 % 64
    ensures p / 4096 == p / 262144 * 64 + p / 4096 % 64
  {
  }
}
