/** The Dallas CRCs (components/crc/crc.cpp), each proved to be the remainder of a long division
    over GF(2), and the errors they detect. */
module Crc {
  import opened Words
  import opened Gf2Division

  // ----- machine words as polynomials: bit 0 holds the highest power -----

  /** The message bits in the order in which they enter the register. */
  function Bits(message: seq<bv8>): (bits: Poly)
    ensures |bits| == 8 * |message|
  {
    if message == [] then [] else ByteBits(message[0]) + Bits(message[1..])
  }

  lemma {:induction false} BitsConcat(a: seq<bv8>, b: seq<bv8>)
    ensures Bits(a + b) == Bits(a) + Bits(b)
  {
    if a == [] {
      assert a + b == b;
    } else {
      assert (a + b)[1..] == a[1..] + b;
      BitsConcat(a[1..], b);
    }
  }

  lemma BitsAppend(a: seq<bv8>, b: bv8)
    ensures Bits(a + [b]) == Bits(a) + ByteBits(b)
  {
    BitsConcat(a, [b]);
    assert Bits([b]) == ByteBits(b) + Bits([b][1..]);
  }

  lemma {:induction false} BitsInjective(a: seq<bv8>, b: seq<bv8>)
    requires |a| == |b| && Bits(a) == Bits(b)
    ensures a == b
  {
    if a != [] {
      assert Bits(a)[..8] == ByteBits(a[0]) && Bits(b)[..8] == ByteBits(b[0]);
      assert Bits(a)[8..] == Bits(a[1..]) && Bits(b)[8..] == Bits(b[1..]);
      ByteBitsInjective(a[0], b[0]);
      BitsInjective(a[1..], b[1..]);
    }
  }

  /** x^8 + x^5 + x^4 + 1 and x^16 + x^15 + x^2 + 1 without their leading terms. */
  const DIVISOR_8: Poly := [false, false, true, true, false, false, false, true]
  const DIVISOR_16: Poly := [true, false, false, false, false, false, false, false,
                             false, false, false, false, false, true, false, true]

  // ----- reference definitions -----

  /** The CRC8 of a message: the remainder of message * x^8 on division by x^8 + x^5 + x^4 + 1. */
  function Check8(message: seq<bv8>): (r: Poly)
    ensures |r| == 8
  {
    Remainder(Bits(message) + Zeros(8), DIVISOR_8)
  }

  /** The CRC16 started from `start`: the remainder of start * x^n + message * x^16, n bits long,
      on division by x^16 + x^15 + x^2 + 1. */
  function Check16(message: seq<bv8>, start: Poly): (r: Poly)
    requires |start| == 16
    ensures |r| == 16
  {
    Remainder(Combine(start, Bits(message)), DIVISOR_16)
  }

  lemma Check8Register(message: seq<bv8>)
    ensures Check8(message) == FeedAll(Zeros(8), Bits(message), DIVISOR_8)
  {
    RegisterIsRemainder(Zeros(8), Bits(message), DIVISOR_8);
    assert Combine(Zeros(8), Bits(message)) == Bits(message) + Zeros(8);
  }

  lemma Check16Register(message: seq<bv8>, start: Poly)
    requires |start| == 16
    ensures Check16(message, start) == FeedAll(start, Bits(message), DIVISOR_16)
  {
    RegisterIsRemainder(start, Bits(message), DIVISOR_16);
  }

  // ----- crc8Dallas -----

  lemma FeedAppend(c: Poly, bits: Poly, bit: bool, g: Poly)
    requires 0 < |c| == |g|
    ensures FeedAll(c, bits + [bit], g) == Feed(FeedAll(c, bits, g), bit, g)
  {
    FeedAllConcat(c, bits, [bit], g);
    assert [bit][1..] == [];
  }

  lemma FeedNext(c: Poly, bits: Poly, k: nat, g: Poly)
    requires 0 < |c| == |g| && k < |bits|
    ensures FeedAll(c, bits[..k + 1], g) == Feed(FeedAll(c, bits[..k], g), bits[k], g)
  {
    FeedAppend(c, bits[..k], bits[k], g);
    assert bits[..k + 1] == bits[..k] + [bits[k]];
  }

  /** Shift right, then add 0x8C if the bit shifted out differs from the message bit. */
  function Shift8(crc: bv8, mix: bool): bv8 {
    if mix then (crc >> 1) ^ 0x8C else crc >> 1
  }

  lemma Divisor8Bits(k: nat)
    requires k < 8
    ensures BitOf(0x8C, k) == DIVISOR_8[k]
  {
  }

  lemma Shift8Feeds(crc: bv8, bit: bool)
    ensures ByteBits(Shift8(crc, BitOf(crc, 0) != bit)) == Feed(ByteBits(crc), bit, DIVISOR_8)
  {
    var mix := BitOf(crc, 0) != bit;
    var left, right := ByteBits(Shift8(crc, mix)), Feed(ByteBits(crc), bit, DIVISOR_8);
    forall k | 0 <= k < 8 ensures left[k] == right[k] {
      ShiftRightBit(crc, k);
      XorBit(crc >> 1, 0x8C, k);
      Divisor8Bits(k);
      FeedAt(ByteBits(crc), bit, DIVISOR_8, k);
    }
  }

  /** One byte: eight rounds of shifting message and register (crc.cpp:53-59). */
  method Crc8Byte(start: bv8, byte: bv8) returns (crc: bv8)
    ensures ByteBits(crc) == FeedAll(ByteBits(start), ByteBits(byte), DIVISOR_8)
  {
    crc := start;
    var inByte := byte;
    ghost var bits := ByteBits(byte);
    var i := 8;
    assert bits[..0] == [];
    while i != 0
      invariant 0 <= i <= 8
      invariant ByteBits(crc) == FeedAll(ByteBits(start), bits[..8 - i], DIVISOR_8)
      invariant HoldsRest(inByte, bits, 8 - i)
    {
      FeedNext(ByteBits(start), bits, 8 - i, DIVISOR_8);
      crc := Crc8Bit(crc, inByte);
      ShiftsOut(inByte, bits, 8 - i);
      inByte := inByte >> 1;
      i := i - 1;
    }
    assert bits[..8] == bits;
  }

  method Crc8Bit(start: bv8, inByte: bv8) returns (crc: bv8)
    ensures ByteBits(crc) == Feed(ByteBits(start), BitOf(inByte, 0), DIVISOR_8)
  {
    crc := start;
    var mix := (crc ^ inByte) & 0x01;
    MixBit(crc, inByte);
    Shift8Feeds(crc, BitOf(inByte, 0));
    crc := crc >> 1;
    if mix != 0 {
      crc := crc ^ 0x8C;
    }
  }

  /** The low bits of b are the ones of `bits` from position n on. */
  ghost predicate HoldsRest(b: bv8, bits: Poly, n: nat)
    requires n <= 8 == |bits|
  {
    forall k :: n <= k < 8 ==> BitOf(b, k - n) == bits[k]
  }

  lemma ShiftsOut(b: bv8, bits: Poly, n: nat)
    requires n < 8 == |bits| && HoldsRest(b, bits, n)
    ensures BitOf(b, 0) == bits[n] && HoldsRest(b >> 1, bits, n + 1)
  {
    forall k | n + 1 <= k < 8 ensures BitOf(b >> 1, k - (n + 1)) == bits[k] {
      ShiftRightBit(b, k - (n + 1));
    }
  }

  lemma MixBit(crc: bv8, inByte: bv8)
    ensures ((crc ^ inByte) & 0x01 != 0) == (BitOf(crc, 0) != BitOf(inByte, 0))
  {
    XorBit(crc, inByte, 0);
  }

  method Crc8Dallas(addr: seq<bv8>, len: nat) returns (crc: bv8)
    requires len <= |addr| && len < 0x100
    ensures ByteBits(crc) == Check8(addr[..len])
  {
    crc := 0;
    assert ByteBits(0) == Zeros(8);
    var k := 0;
    while k < len
      invariant 0 <= k <= len
      invariant ByteBits(crc) == FeedAll(Zeros(8), Bits(addr[..k]), DIVISOR_8)
    {
      FeedAllConcat(Zeros(8), Bits(addr[..k]), ByteBits(addr[k]), DIVISOR_8);
      BitsAppend(addr[..k], addr[k]);
      assert addr[..k + 1] == addr[..k] + [addr[k]];
      crc := Crc8Byte(crc, addr[k]);
      k := k + 1;
    }
    Check8Register(addr[..len]);
  }

  // ----- crc16Dallas -----

  /** The odd parities of the 16 nibbles. */
  const ODD_PARITY: seq<nat> := [0, 1, 1, 0, 1, 0, 0, 1, 1, 0, 0, 1, 0, 1, 1, 0]

  /** Parity of the low byte, nibble by nibble from the table (crc.cpp:82). */
  predicate OddByte(cdata: Word16) {
    NibbleValue(And(cdata, Word(0x0F)));
    NibbleValue(ShiftRight(cdata, 4));
    ODD_PARITY[LowValue(And(cdata, Word(0x0F)), 4)] != ODD_PARITY[LowValue(ShiftRight(cdata, 4), 4)]
  }

  /** Parity of the first n coefficients. */
  function Parity(p: Poly, n: nat): bool
    requires n <= |p|
  {
    if n == 0 then false else p[n - 1] != Parity(p, n - 1)
  }

  lemma NibbleParity(w: Word16)
    ensures LowValue(w, 4) < 16
    ensures (ODD_PARITY[LowValue(w, 4)] == 1) == ((w[0] != w[1]) != (w[2] != w[3]))
    ensures ODD_PARITY[LowValue(w, 4)] <= 1
  {
    NibbleValue(w);
  }

  lemma TableParity(cdata: Word16, l: Poly)
    requires |l| == 8 && cdata == l + Zeros(8)
    ensures OddByte(cdata) == Parity(l, 8)
  {
    var low, high := And(cdata, Word(0x0F)), ShiftRight(cdata, 4);
    assert forall k :: 0 <= k < 4 ==> low[k] == l[k] by {
      forall k | 0 <= k < 4 ensures low[k] == l[k] {
        ByteMaskBits(k);
      }
    }
    NibbleParity(low);
    NibbleParity(high);
    SpelledParity(l);
  }

  lemma SpelledParity(l: Poly)
    requires |l| == 8
    ensures Parity(l, 8) ==
            (((l[0] != l[1]) != (l[2] != l[3])) != ((l[4] != l[5]) != (l[6] != l[7])))
  {
    assert Parity(l, 1) == l[0];
    assert Parity(l, 2) == (l[1] != Parity(l, 1));
    assert Parity(l, 4) == (l[3] != (l[2] != Parity(l, 2)));
    assert Parity(l, 6) == (l[5] != (l[4] != Parity(l, 4)));
  }

  /** Coefficient j after n <= 8 message bits b have entered the register c: the start bits moved
      down, plus the mixed-in parities that came in at x^15, x^2 and 1 and moved along. */
  ghost function AfterBits(c: Poly, b: Poly, n: nat, j: nat): bool
    requires |c| == 16 && |b| == 8 && n <= 8 && j < 16
  {
    var l := Sum(c[..8], b);
    var top := j == 0 && n > 0 && Parity(l, n);
    var low2 := 0 <= n + j - 14 < n && Parity(l, n + j - 13);
    var low0 := 0 <= n + j - 16 < n && Parity(l, n + j - 15);
    At(c, j + n) != (top != (low2 != low0))
  }

  lemma AfterBitsStep(c: Poly, b: Poly, n: nat, j: nat)
    requires |c| == 16 && |b| == 8 && 0 < n <= 8 && j < 16
    ensures AfterBits(c, b, n, j) ==
            ((j < 15 && AfterBits(c, b, n - 1, j + 1)) !=
             ((AfterBits(c, b, n - 1, 0) != b[n - 1]) && DIVISOR_16[j]))
  {
    var l := Sum(c[..8], b);
    assert l[n - 1] == (c[n - 1] != b[n - 1]);
    assert Parity(l, n) == (l[n - 1] != Parity(l, n - 1));
  }

  lemma {:induction false} PrefixFeeds(c: Poly, b: Poly, n: nat)
    requires |c| == 16 && |b| == 8 && n <= 8
    ensures forall j :: 0 <= j < 16 ==> FeedAll(c, b[..n], DIVISOR_16)[j] == AfterBits(c, b, n, j)
  {
    if n == 0 {
      assert b[..0] == [];
    } else {
      PrefixFeeds(c, b, n - 1);
      var s := FeedAll(c, b[..n - 1], DIVISOR_16);
      assert b[..n] == b[..n - 1] + [b[n - 1]];
      FeedAppend(c, b[..n - 1], b[n - 1], DIVISOR_16);
      forall j | 0 <= j < 16 ensures Feed(s, b[n - 1], DIVISOR_16)[j] == AfterBits(c, b, n, j) {
        FeedAt(s, b[n - 1], DIVISOR_16, j);
        assert s[0] == AfterBits(c, b, n - 1, 0);
        assert j < 15 ==> s[j + 1] == AfterBits(c, b, n - 1, j + 1);
        AfterBitsStep(c, b, n, j);
      }
    }
  }

  /** Coefficient j of what the table step computes, in terms of the bits that went in. */
  ghost function TableBit(c: Poly, l: Poly, j: nat): bool
    requires |c| == 16 && |l| == 8
  {
    ((At(c, j + 8) != ((j == 0 || j == 14 || j == 15) && Parity(l, 8))) != At(l, j - 6)) != At(l, j - 7)
  }

  /** One byte by the parity table (crc.cpp:78-88). */
  function TableStep(crc: Word16, byte: bv8): Word16 {
    var cdata := And(Xor(Widen(byte), crc), Word(0xFF));
    var shifted := ShiftRight(crc, 8);
    var mixed := if OddByte(cdata) then Xor(shifted, Word(0xC001)) else shifted;
    var cdata6 := ShiftLeft(cdata, 6);
    Xor(Xor(mixed, cdata6), ShiftLeft(cdata6, 1))
  }

  lemma TableConstant(k: nat)
    requires k < 16
    ensures Word(0xC001)[k] == (k == 0 || k == 14 || k == 15)
  {
    if k >= 4 {
      NextNibble(0xC001, k);
    }
    if k >= 8 {
      NextNibble(0xC00, k - 4);
    }
    if k >= 12 {
      NextNibble(0xC0, k - 8);
    }
    NibbleBits(0xC001);
    NibbleBits(0xC00);
    NibbleBits(0xC0);
    NibbleBits(0xC);
  }

  lemma TableStepBit(crc: Word16, byte: bv8, j: nat)
    requires j < 16
    ensures TableStep(crc, byte)[j] == TableBit(crc, Sum(crc[..8], ByteBits(byte)), j)
  {
    var l := Sum(crc[..8], ByteBits(byte));
    var cdata := And(Xor(Widen(byte), crc), Word(0xFF));
    forall k | 0 <= k < 16 ensures cdata[k] == (l + Zeros(8))[k] {
      ByteMaskBits(k);
    }
    assert cdata == l + Zeros(8);
    TableParity(cdata, l);
    TableConstant(j);
  }

  lemma TableBitIsAfterBits(c: Poly, b: Poly, j: nat)
    requires |c| == 16 && |b| == 8 && j < 16
    ensures TableBit(c, Sum(c[..8], b), j) == AfterBits(c, b, 8, j)
  {
    var l := Sum(c[..8], b);
    if 6 <= j <= 14 {
      assert j >= 7 ==> Parity(l, j - 6) == (l[j - 7] != Parity(l, j - 7));
      assert j <= 13 ==> Parity(l, j - 5) == (l[j - 6] != Parity(l, j - 6));
    }
  }

  /** The parity table does in one step what eight bits of long division do. */
  lemma TableStepFeeds(crc: Word16, byte: bv8)
    ensures TableStep(crc, byte) == FeedAll(crc, ByteBits(byte), DIVISOR_16)
  {
    var b := ByteBits(byte);
    PrefixFeeds(crc, b, 8);
    assert b[..8] == b;
    var left, right := TableStep(crc, byte), FeedAll(crc, b, DIVISOR_16);
    forall j | 0 <= j < 16 ensures left[j] == right[j] {
      TableStepBit(crc, byte, j);
      TableBitIsAfterBits(crc, b, j);
    }
  }

  method Crc16Dallas(input: seq<bv8>, len: nat, start: Word16) returns (crc: Word16)
    requires len <= |input| && len < 0x1_0000
    ensures crc == Check16(input[..len], start)
  {
    crc := start;
    assert Bits(input[..0]) == [];
    for i := 0 to len
      invariant crc == FeedAll(start, Bits(input[..i]), DIVISOR_16)
    {
      FeedAllConcat(start, Bits(input[..i]), ByteBits(input[i]), DIVISOR_16);
      BitsAppend(input[..i], input[i]);
      assert input[..i + 1] == input[..i] + [input[i]];
      TableStepFeeds(crc, input[i]);
      crc := Crc16Byte(crc, input[i]);
    }
    Check16Register(input[..len], start);
  }

  method Crc16Byte(start: Word16, byte: bv8) returns (crc: Word16)
    ensures crc == TableStep(start, byte)
  {
    crc := start;
    var cdata := Widen(byte);
    cdata := And(Xor(cdata, crc), Word(0xFF));
    crc := ShiftRight(crc, 8);
    if OddByte(cdata) {
      crc := Xor(crc, Word(0xC001));
    }
    cdata := ShiftLeft(cdata, 6);
    crc := Xor(crc, cdata);
    cdata := ShiftLeft(cdata, 1);
    crc := Xor(crc, cdata);
  }

  /** The two stored bytes, low byte first, are the inverted CRC16 of the message. */
  ghost predicate Accepts(message: seq<bv8>, inverted: seq<bv8>, start: Word16)
    requires |inverted| >= 2
  {
    ByteBits(inverted[0]) + ByteBits(inverted[1]) == Not(Check16(message, start))
  }

  method CheckCrc16Dallas(input: seq<bv8>, len: nat, inverted: seq<bv8>, start: Word16) returns (ok: bool)
    requires len <= |input| && len < 0x1_0000 && |inverted| >= 2
    ensures ok <==> Accepts(input[..len], inverted, start)
  {
    var crc := Crc16Dallas(input, len, start);
    crc := Not(crc);
    ok := And(crc, Word(0xFF)) == Widen(inverted[0]) && ShiftRight(crc, 8) == Widen(inverted[1]);
    BytesOfWord(crc, inverted[0], inverted[1]);
  }

  lemma BytesOfWord(w: Word16, low: bv8, high: bv8)
    ensures And(w, Word(0xFF)) == Widen(low) && ShiftRight(w, 8) == Widen(high) <==>
            ByteBits(low) + ByteBits(high) == w
  {
    forall k | 0 <= k < 16 ensures Word(0xFF)[k] == (k < 8) {
      ByteMaskBits(k);
    }
    var both := ByteBits(low) + ByteBits(high);
    if And(w, Word(0xFF)) == Widen(low) && ShiftRight(w, 8) == Widen(high) {
      forall k | 0 <= k < 16 ensures both[k] == w[k] {
        if k < 8 {
          assert And(w, Word(0xFF))[k] == Widen(low)[k];
        } else {
          assert ShiftRight(w, 8)[k - 8] == Widen(high)[k - 8];
        }
      }
    }
    if both == w {
      assert And(w, Word(0xFF)) == Widen(low);
      assert ShiftRight(w, 8) == Widen(high);
    }
  }

  // ----- error detection -----

  /** An error burst of up to 8 bits, anywhere in the message, changes the CRC8. */
  lemma Crc8DetectsBurst(a: seq<bv8>, b: seq<bv8>, before: Poly, burst: Poly, wrong: Poly, after: Poly)
    requires Bits(a) == before + burst + after && Bits(b) == before + wrong + after
    requires |burst| == |wrong| <= 8 && burst != wrong
    ensures Check8(a) != Check8(b)
  {
    Check8Register(a);
    Check8Register(b);
    BurstDetected(Zeros(8), before, burst, wrong, after, DIVISOR_8);
  }

  /** An error burst of up to 16 bits makes the comparison with the stored CRC16 fail. */
  lemma Crc16DetectsBurst(a: seq<bv8>, b: seq<bv8>, inverted: seq<bv8>, start: Word16,
                          before: Poly, burst: Poly, wrong: Poly, after: Poly)
    requires Bits(a) == before + burst + after && Bits(b) == before + wrong + after
    requires |burst| == |wrong| <= 16 && burst != wrong
    requires |inverted| >= 2 && Accepts(a, inverted, start)
    ensures !Accepts(b, inverted, start)
  {
    Check16Register(a, start);
    Check16Register(b, start);
    BurstDetected(start, before, burst, wrong, after, DIVISOR_16);
    var k :| 0 <= k < 16 && Check16(a, start)[k] != Check16(b, start)[k];
    assert Not(Check16(a, start))[k] != Not(Check16(b, start))[k];
  }

  lemma BitsAround(before: seq<bv8>, middle: seq<bv8>, after: seq<bv8>)
    ensures Bits(before + middle + after) == Bits(before) + Bits(middle) + Bits(after)
  {
    BitsConcat(before + middle, after);
    BitsConcat(before, middle);
  }

  /** A corruption confined to one byte changes the CRC8 and, also when it is spread over two
      neighbouring bytes, makes the CRC16 check fail. */
  lemma CorruptedBytesDetected(before: seq<bv8>, right: seq<bv8>, wrong: seq<bv8>, after: seq<bv8>,
                               inverted: seq<bv8>, start: Word16)
    requires |right| == |wrong| <= 2 && right != wrong && |inverted| >= 2
    ensures |right| == 1 ==> Check8(before + right + after) != Check8(before + wrong + after)
    ensures Accepts(before + right + after, inverted, start) ==>
              !Accepts(before + wrong + after, inverted, start)
  {
    BitsAround(before, right, after);
    BitsAround(before, wrong, after);
    if Bits(right) == Bits(wrong) {
      BitsInjective(right, wrong);
    }
    var a, b := before + right + after, before + wrong + after;
    if |right| == 1 {
      Crc8DetectsBurst(a, b, Bits(before), Bits(right), Bits(wrong), Bits(after));
    }
    if Accepts(a, inverted, start) {
      Crc16DetectsBurst(a, b, inverted, start, Bits(before), Bits(right), Bits(wrong), Bits(after));
    }
  }

  /** A message followed by one byte has CRC8 zero exactly when that byte is the message's CRC8. */
  lemma OwnCrc8Cancels(message: seq<bv8>, crc: bv8)
    ensures Check8(message + [crc]) == Zeros(8) <==> ByteBits(crc) == Check8(message)
  {
    var c := Check8(message);
    BitsAppend(message, crc);
    Check8Register(message);
    Check8Register(message + [crc]);
    FeedAllConcat(Zeros(8), Bits(message), ByteBits(crc), DIVISOR_8);
    OwnRemainderCancels(c, DIVISOR_8);
    if ByteBits(crc) != c {
      WindowInjective(c, ByteBits(crc), c, DIVISOR_8);
    }
  }

  /** Splitting a message and handing the first part's CRC16 on as the start value changes nothing. */
  lemma Crc16Chains(a: seq<bv8>, b: seq<bv8>, start: Word16)
    ensures Check16(a + b, start) == Check16(b, Check16(a, start))
  {
    BitsConcat(a, b);
    Check16Register(a, start);
    Check16Register(a + b, start);
    Check16Register(b, Check16(a, start));
    FeedAllConcat(start, Bits(a), Bits(b), DIVISOR_16);
  }
}
