/**
 * Fixed-width machine words. A Rust `u32` is modelled as the sequence of its
 * 32 bits, least significant first: bit `p` of the word `w` is `w[p]`, so
 * `(1 << p) & w != 0` in the source reads `w[p]` here, and the bitwise
 * operators `|`, `&` and `^` act bit by bit.
 */
module Words {

  /** `size_of::<u32>() * 8`: the width of a secret and of a share's payload. */
  const W: nat := 32

  type Word = w: seq<bool> | |w| == W witness seq(W, _ => false)

  /** The word 0. */
  const Zero: Word := seq(W, _ => false)

  /** `a ^ b`. */
  function Xor(a: Word, b: Word): (r: Word)
    ensures forall p | 0 <= p < W :: r[p] == (a[p] != b[p])
  {
    seq(W, p requires 0 <= p < W => a[p] != b[p])
  }

  /** 2 to the power `k`. */
  function Pow2(k: nat): (r: nat)
    ensures r >= 1
  {
    if k == 0 then 1 else 2 * Pow2(k - 1)
  }

  /** The `u32` whose value is `v` modulo 2^32 (a numeric literal of the source): bit p is bit p of `v`. */
  function FromNat(v: nat): Word
  {
    seq(W, p requires 0 <= p < W => (v / Pow2(p)) % 2 == 1)
  }
}
