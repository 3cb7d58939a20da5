/** A 32-bit word as its bits, lowest first. */
module Masks {
  type Word = w: seq<bool> | |w| == 32 witness seq(32, _ => false)

  /** 1 shifted left by `j`. */
  function Bit(j: nat): Word
    requires j < 32
  {
    seq(32, k => k == j)
  }

  /** 1 shifted left by `n`, less one. */
  function Ones(n: nat): Word {
    seq(32, k => k < n)
  }

  function Or(v: Word, w: Word): Word { seq(32, k requires 0 <= k < 32 => v[k] || w[k]) }
  function And(v: Word, w: Word): Word { seq(32, k requires 0 <= k < 32 => v[k] && w[k]) }
  function Xor(v: Word, w: Word): Word { seq(32, k requires 0 <= k < 32 => v[k] != w[k]) }
  function Not(v: Word): Word { seq(32, k requires 0 <= k < 32 => !v[k]) }

  const ZERO: Word := seq(32, _ => false)
}
