/**
 * The key mixer of fast_hashmap.hpp (namespace `utils`): a left rotation of an
 * unsigned word and the two `hash32` overloads that pick a bucket.
 * C++ unsigned arithmetic wraps, so it is modelled on bit-vectors.
 */
module Mixer {

  /** `rotl<uint32_t>(n, c)`: the amount is masked to 0..31 first. */
  function Rotl32(n: bv32, c: bv32): bv32
  {
    var c := c & 31;
    (n << c) | (n >> ((-c) & 31))
  }

  /** `rotl<uint64_t>(n, c)` with a 32-bit amount, masked to 0..63. */
  function Rotl64(n: bv64, c: bv32): bv64
  {
    var c := c & 63;
    (n << c) | (n >> ((-c) & 63))
  }

  /** Only the low bits of the amount matter: 5 of them on 32 bits, 6 on 64 bits. */
  lemma RotlMasksAmount(n: bv32, m: bv64, c: bv32)
    ensures Rotl32(n, c) == Rotl32(n, c & 31)
    ensures Rotl64(m, c) == Rotl64(m, c & 63)
  {
  }

  /** Rotating by 13 and then by 19 restores the word: the rotation in Hash32 loses no bit. */
  lemma Rotl32Inverse(n: bv32)
    ensures Rotl32(Rotl32(n, 13), 19) == n
  {
  }

  /*
   * The shift-and-or formula is the machine left rotation for every amount
   * that survives the mask: 0..31 on 32 bits, 0..63 on 64 bits. With
   * RotlMasksAmount this covers every amount. The amounts are listed one by
   * one: a rotation by a symbolic amount is beyond the solver's budget, while
   * each fixed amount is a small bit-vector identity.
   */

  lemma Rotl32Rotates(n: bv32)
    ensures Rotl32(n, 0) == n.RotateLeft(0) && Rotl32(n, 1) == n.RotateLeft(1) && Rotl32(n, 2) == n.RotateLeft(2) && Rotl32(n, 3) == n.RotateLeft(3)
    ensures Rotl32(n, 4) == n.RotateLeft(4) && Rotl32(n, 5) == n.RotateLeft(5) && Rotl32(n, 6) == n.RotateLeft(6) && Rotl32(n, 7) == n.RotateLeft(7)
    ensures Rotl32(n, 8) == n.RotateLeft(8) && Rotl32(n, 9) == n.RotateLeft(9) && Rotl32(n, 10) == n.RotateLeft(10) && Rotl32(n, 11) == n.RotateLeft(11)
    ensures Rotl32(n, 12) == n.RotateLeft(12) && Rotl32(n, 13) == n.RotateLeft(13) && Rotl32(n, 14) == n.RotateLeft(14) && Rotl32(n, 15) == n.RotateLeft(15)
    ensures Rotl32(n, 16) == n.RotateLeft(16) && Rotl32(n, 17) == n.RotateLeft(17) && Rotl32(n, 18) == n.RotateLeft(18) && Rotl32(n, 19) == n.RotateLeft(19)
    ensures Rotl32(n, 20) == n.RotateLeft(20) && Rotl32(n, 21) == n.RotateLeft(21) && Rotl32(n, 22) == n.RotateLeft(22) && Rotl32(n, 23) == n.RotateLeft(23)
    ensures Rotl32(n, 24) == n.RotateLeft(24) && Rotl32(n, 25) == n.RotateLeft(25) && Rotl32(n, 26) == n.RotateLeft(26) && Rotl32(n, 27) == n.RotateLeft(27)
    ensures Rotl32(n, 28) == n.RotateLeft(28) && Rotl32(n, 29) == n.RotateLeft(29) && Rotl32(n, 30) == n.RotateLeft(30) && Rotl32(n, 31) == n.RotateLeft(31)
  {
  }

  lemma Rotl64Rotates0To15(m: bv64)
    ensures Rotl64(m, 0) == m.RotateLeft(0) && Rotl64(m, 1) == m.RotateLeft(1) && Rotl64(m, 2) == m.RotateLeft(2) && Rotl64(m, 3) == m.RotateLeft(3)
    ensures Rotl64(m, 4) == m.RotateLeft(4) && Rotl64(m, 5) == m.RotateLeft(5) && Rotl64(m, 6) == m.RotateLeft(6) && Rotl64(m, 7) == m.RotateLeft(7)
    ensures Rotl64(m, 8) == m.RotateLeft(8) && Rotl64(m, 9) == m.RotateLeft(9) && Rotl64(m, 10) == m.RotateLeft(10) && Rotl64(m, 11) == m.RotateLeft(11)
    ensures Rotl64(m, 12) == m.RotateLeft(12) && Rotl64(m, 13) == m.RotateLeft(13) && Rotl64(m, 14) == m.RotateLeft(14) && Rotl64(m, 15) == m.RotateLeft(15)
  {
  }

  lemma Rotl64Rotates16To31(m: bv64)
    ensures Rotl64(m, 16) == m.RotateLeft(16) && Rotl64(m, 17) == m.RotateLeft(17) && Rotl64(m, 18) == m.RotateLeft(18) && Rotl64(m, 19) == m.RotateLeft(19)
    ensures Rotl64(m, 20) == m.RotateLeft(20) && Rotl64(m, 21) == m.RotateLeft(21) && Rotl64(m, 22) == m.RotateLeft(22) && Rotl64(m, 23) == m.RotateLeft(23)
    ensures Rotl64(m, 24) == m.RotateLeft(24) && Rotl64(m, 25) == m.RotateLeft(25) && Rotl64(m, 26) == m.RotateLeft(26) && Rotl64(m, 27) == m.RotateLeft(27)
    ensures Rotl64(m, 28) == m.RotateLeft(28) && Rotl64(m, 29) == m.RotateLeft(29) && Rotl64(m, 30) == m.RotateLeft(30) && Rotl64(m, 31) == m.RotateLeft(31)
  {
  }

  lemma Rotl64Rotates32To47(m: bv64)
    ensures Rotl64(m, 32) == m.RotateLeft(32) && Rotl64(m, 33) == m.RotateLeft(33) && Rotl64(m, 34) == m.RotateLeft(34) && Rotl64(m, 35) == m.RotateLeft(35)
    ensures Rotl64(m, 36) == m.RotateLeft(36) && Rotl64(m, 37) == m.RotateLeft(37) && Rotl64(m, 38) == m.RotateLeft(38) && Rotl64(m, 39) == m.RotateLeft(39)
    ensures Rotl64(m, 40) == m.RotateLeft(40) && Rotl64(m, 41) == m.RotateLeft(41) && Rotl64(m, 42) == m.RotateLeft(42) && Rotl64(m, 43) == m.RotateLeft(43)
    ensures Rotl64(m, 44) == m.RotateLeft(44) && Rotl64(m, 45) == m.RotateLeft(45) && Rotl64(m, 46) == m.RotateLeft(46) && Rotl64(m, 47) == m.RotateLeft(47)
  {
  }

  lemma Rotl64Rotates48To63(m: bv64)
    ensures Rotl64(m, 48) == m.RotateLeft(48) && Rotl64(m, 49) == m.RotateLeft(49) && Rotl64(m, 50) == m.RotateLeft(50) && Rotl64(m, 51) == m.RotateLeft(51)
    ensures Rotl64(m, 52) == m.RotateLeft(52) && Rotl64(m, 53) == m.RotateLeft(53) && Rotl64(m, 54) == m.RotateLeft(54) && Rotl64(m, 55) == m.RotateLeft(55)
    ensures Rotl64(m, 56) == m.RotateLeft(56) && Rotl64(m, 57) == m.RotateLeft(57) && Rotl64(m, 58) == m.RotateLeft(58) && Rotl64(m, 59) == m.RotateLeft(59)
    ensures Rotl64(m, 60) == m.RotateLeft(60) && Rotl64(m, 61) == m.RotateLeft(61) && Rotl64(m, 62) == m.RotateLeft(62) && Rotl64(m, 63) == m.RotateLeft(63)
  {
  }

  /** `hash32(uint32_t k)`: multiply by 4111732 modulo 2^32, then rotate left by 13. */
  function Hash32(k: bv32): (h: bv32)
    ensures h == (4111732 * k).RotateLeft(13)
  {
    Rotl32(4111732 * k, 13)
  }

  /**
   * `hash32(uint64_t k)`: `rotl(k, 29) ^ k` computed on 64 bits; the `uint32_t`
   * return type keeps the low 32 bits.
   */
  function Hash64(k: bv64): (h: bv32)
    ensures h == ((k.RotateLeft(29) ^ k) & 0xFFFF_FFFF) as bv32
  {
    ((Rotl64(k, 29) ^ k) & 0xFFFF_FFFF) as bv32
  }

  /** The two bits the multiplier shifts out never reach the hash: Hash32 sees only the low 30 bits. */
  lemma Hash32Ignores2TopBits(k: bv32)
    ensures Hash32(k) == Hash32(k & 0x3FFF_FFFF)
  {
  }

  /** `h32 = hash(key) % size_` always names a bucket of the table. */
  function BucketOf(h: bv32, size: nat): (b: nat)
    requires size > 0
    ensures b < size
  {
    (h as int) % size
  }
}
