/** The bits of 8- and 16-bit machine words, numbered from the least significant one. */
module Words {

  /** How many values 8, 16 and 32 bits have. */
  const WORD8 := 0x100
  const WORD16 := 0x1_0000
  const WORD32 := 0x1_0000_0000

  // ----- bytes: a bit is tested with a mask, as the drivers do -----

  function Mask(k: nat): bv8
    requires k < 8
  {
    match k
    case 0 => 0x01 case 1 => 0x02 case 2 => 0x04 case 3 => 0x08
    case 4 => 0x10 case 5 => 0x20 case 6 => 0x40 case _ => 0x80
  }

  predicate BitOf(b: bv8, k: nat)
    requires k < 8
  {
    b & Mask(k) != 0
  }

  lemma MaskIsOneBit(k: nat)
    requires k < 8
    ensures Mask(k) != 0 && Mask(k) & (Mask(k) - 1) == 0
    ensures Mask(k) << 1 == if k < 7 then Mask(k + 1) else 0
  {
  }

  lemma OneBitXor(a: bv8, b: bv8, m: bv8)
    requires m & (m - 1) == 0
    ensures ((a ^ b) & m != 0) == ((a & m != 0) != (b & m != 0))
  {
  }

  lemma OneBitShiftRight(a: bv8, m: bv8, up: bv8)
    requires m << 1 == up
    ensures ((a >> 1) & m != 0) == (a & up != 0)
  {
  }

  lemma XorBit(a: bv8, b: bv8, k: nat)
    requires k < 8
    ensures BitOf(a ^ b, k) == (BitOf(a, k) != BitOf(b, k))
  {
    MaskIsOneBit(k);
    OneBitXor(a, b, Mask(k));
  }

  lemma ShiftRightBit(a: bv8, k: nat)
    requires k < 8
    ensures BitOf(a >> 1, k) == (k < 7 && BitOf(a, k + 1))
  {
    MaskIsOneBit(k);
    OneBitShiftRight(a, Mask(k), if k < 7 then Mask(k + 1) else 0);
  }

  /** The bits of a byte, bit 0 first. */
  function ByteBits(b: bv8): (bits: seq<bool>)
    ensures |bits| == 8
  {
    seq(8, k requires 0 <= k < 8 => BitOf(b, k))
  }

  lemma SetsAndClears(b: bv8, k: nat, j: nat)
    requires k < 8 && j < 8
    ensures BitOf(b | Mask(k), j) == (j == k || BitOf(b, j))
    ensures BitOf(b & !Mask(k), j) == (j != k && BitOf(b, j))
  {
  }

  lemma ZeroByte(b: bv8)
    ensures b == 0 <==> forall k :: 0 <= k < 8 ==> !BitOf(b, k)
  {
    if forall k :: 0 <= k < 8 ==> !BitOf(b, k) {
      assert !BitOf(b, 0) && !BitOf(b, 1) && !BitOf(b, 2) && !BitOf(b, 3);
      assert !BitOf(b, 4) && !BitOf(b, 5) && !BitOf(b, 6) && !BitOf(b, 7);
    }
  }

  lemma SameBits(a: bv8, b: bv8)
    requires forall k :: 0 <= k < 8 ==> BitOf(a, k) == BitOf(b, k)
    ensures a == b
  {
    var x := a ^ b;
    forall k | 0 <= k < 8 ensures !BitOf(x, k) {
      XorBit(a, b, k);
    }
    ZeroByte(x);
  }

  lemma ByteBitsInjective(a: bv8, b: bv8)
    requires ByteBits(a) == ByteBits(b)
    ensures a == b
  {
    forall k | 0 <= k < 8 ensures BitOf(a, k) == BitOf(b, k) {
      assert ByteBits(a)[k] == ByteBits(b)[k];
    }
    SameBits(a, b);
  }

  // ----- 16-bit words, as the sequence of their bits -----

  type Word16 = w: seq<bool> | |w| == 16 witness seq(16, _ => false)

  /** Bit k of n. */
  predicate BitOfNat(n: nat, k: nat) {
    if k == 0 then n % 2 == 1 else BitOfNat(n / 2, k - 1)
  }

  /** The word with the value n. */
  function Word(n: nat): Word16
    requires n < 0x1_0000
  {
    seq(16, k requires 0 <= k < 16 => BitOfNat(n, k))
  }

  function Widen(b: bv8): Word16 {
    seq(16, k requires 0 <= k < 16 => k < 8 && BitOf(b, k))
  }

  function ShiftRight(w: Word16, n: nat): Word16 {
    seq(16, k requires 0 <= k < 16 => k + n < 16 && w[k + n])
  }

  function ShiftLeft(w: Word16, n: nat): Word16 {
    seq(16, k requires 0 <= k < 16 => k >= n && w[k - n])
  }

  function Xor(a: Word16, b: Word16): Word16 {
    seq(16, k requires 0 <= k < 16 => a[k] != b[k])
  }

  function And(a: Word16, b: Word16): Word16 {
    seq(16, k requires 0 <= k < 16 => a[k] && b[k])
  }

  function Not(a: Word16): Word16 {
    seq(16, k requires 0 <= k < 16 => !a[k])
  }

  /** The value of the lowest n bits. */
  function LowValue(w: Word16, n: nat): (v: nat)
    requires n <= 16
  {
    if n == 0 then 0 else LowValue(w, n - 1) + if w[n - 1] then Power2(n - 1) else 0
  }

  function Power2(n: nat): nat {
    if n == 0 then 1 else 2 * Power2(n - 1)
  }

  lemma NibbleValue(w: Word16)
    ensures LowValue(w, 4) == (if w[0] then 1 else 0) + (if w[1] then 2 else 0) +
                              (if w[2] then 4 else 0) + (if w[3] then 8 else 0)
  {
    assert LowValue(w, 1) == if w[0] then 1 else 0;
    assert LowValue(w, 2) == (if w[0] then 1 else 0) + (if w[1] then 2 else 0);
    assert Power2(2) == 4 && Power2(3) == 8;
  }

  lemma NextNibble(n: nat, k: nat)
    requires k >= 4
    ensures BitOfNat(n, k) == BitOfNat(n / 16, k - 4)
  {
    assert BitOfNat(n, k) == BitOfNat(n / 2, k - 1) == BitOfNat(n / 2 / 2, k - 2);
    assert BitOfNat(n / 4, k - 2) == BitOfNat(n / 4 / 2, k - 3) == BitOfNat(n / 4 / 2 / 2, k - 4);
  }

  lemma NibbleBits(n: nat)
    ensures BitOfNat(n, 0) == (n % 2 == 1) && BitOfNat(n, 1) == (n / 2 % 2 == 1)
    ensures BitOfNat(n, 2) == (n / 2 / 2 % 2 == 1) && BitOfNat(n, 3) == (n / 2 / 2 / 2 % 2 == 1)
  {
    assert BitOfNat(n, 2) == BitOfNat(n / 2 / 2, 0);
    assert BitOfNat(n, 3) == BitOfNat(n / 2, 2) == BitOfNat(n / 2 / 2 / 2, 0);
  }

  lemma ByteMaskBits(k: nat)
    requires k < 16
    ensures Word(0xFF)[k] == (k < 8) && Word(0x0F)[k] == (k < 4)
  {
    NibbleBits(0xFF);
    NibbleBits(0x0F);
    if k >= 4 {
      NextNibble(0xFF, k);
      NextNibble(0x0F, k);
      ZeroBits(k - 4);
    }
    if k >= 8 {
      NextNibble(0xF, k - 4);
      ZeroBits(k - 8);
    }
  }

  lemma {:induction false} ZeroBits(k: nat)
    ensures !BitOfNat(0, k)
  {
    if k > 0 {
      ZeroBits(k - 1);
    }
  }
}
