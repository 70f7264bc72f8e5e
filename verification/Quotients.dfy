/** Division by the powers of two that fields of words and addresses are cut at, with the quotient named. */
module Quotients {
  lemma Over2(q: int, r: nat)
    requires r < 2
    ensures (2 * q + r) / 2 == q && (2 * q + r) % 2 == r
  {
  }

  lemma Over4(q: int, r: nat)
    requires r < 4
    ensures (4 * q + r) / 4 == q && (4 * q + r) % 4 == r
  {
  }

  lemma Over256(q: int, r: nat)
    requires r < 256
    ensures (256 * q + r) / 256 == q && (256 * q + r) % 256 == r
  {
  }

  lemma Over1024(q: int, r: nat)
    requires r < 1024
    ensures (1024 * q + r) / 1024 == q && (1024 * q + r) % 1024 == r
  {
  }

  lemma Over4096(q: int, r: nat)
    requires r < 4096
    ensures (4096 * q + r) / 4096 == q && (4096 * q + r) % 4096 == r
  {
  }

  /** By the size of a section. */
  lemma OverMega(q: int, r: nat)
    requires r < 0x10_0000
    ensures (0x10_0000 * q + r) / 0x10_0000 == q && (0x10_0000 * q + r) % 0x10_0000 == r
  {
  }

  lemma MegaShift(x: int, k: int)
    ensures (x + k * 0x10_0000) % 0x10_0000 == x % 0x10_0000
  {
    var q, r := x / 0x10_0000, x % 0x10_0000;
    assert x + k * 0x10_0000 == 0x10_0000 * (q + k) + r;
    OverMega(q + k, r);
  }
}
