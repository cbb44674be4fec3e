/** Polynomials over GF(2) as sequences of coefficients, highest power first, their schoolbook
    long division, and the shift register that computes its remainder bit by bit. */
module Gf2Division {

  type Poly = seq<bool>

  function Zeros(n: nat): (z: Poly)
    ensures |z| == n && forall i :: 0 <= i < n ==> !z[i]
  {
    seq(n, _ => false)
  }

  function Sum(a: Poly, b: Poly): (c: Poly)
    requires |a| == |b|
    ensures |c| == |a| && forall i :: 0 <= i < |a| ==> c[i] == (a[i] != b[i])
  {
    seq(|a|, i requires 0 <= i < |a| => a[i] != b[i])
  }

  /** One division step: the divisor is subtracted when the leading coefficient is 1. */
  function Cancel(p: Poly, g: Poly): (q: Poly)
    requires |p| > |g|
    ensures |q| == |p| - 1
  {
    if p[0] then Sum(p[1..|g| + 1], g) + p[|g| + 1..] else p[1..]
  }

  /** Remainder of p on division by x^w + g, where w = |g|: while p is too long, cancel its leading
      coefficient. */
  function Remainder(p: Poly, g: Poly): (r: Poly)
    requires |p| >= |g|
    ensures |r| == |g|
    decreases |p|
  {
    if |p| == |g| then p else Remainder(Cancel(p, g), g)
  }

  /** One message bit goes into the register c. */
  function Feed(c: Poly, bit: bool, g: Poly): (c': Poly)
    requires 0 < |c| == |g|
    ensures |c'| == |g|
  {
    var shifted := c[1..] + [false];
    if c[0] != bit then Sum(shifted, g) else shifted
  }

  function FeedAll(c: Poly, bits: Poly, g: Poly): (c': Poly)
    requires 0 < |c| == |g|
    ensures |c'| == |g|
    decreases |bits|
  {
    if bits == [] then c else FeedAll(Feed(c, bits[0], g), bits[1..], g)
  }

  /** c * x^|bits| + bits * x^|c| */
  function Combine(c: Poly, bits: Poly): (p: Poly)
    ensures |p| == |c| + |bits|
  {
    Sum(c + Zeros(|bits|), bits + Zeros(|c|))
  }

  /** Coefficient i of p, taking missing ones as 0. */
  predicate At(p: Poly, i: int) {
    0 <= i < |p| && p[i]
  }

  lemma CombineAt(c: Poly, bits: Poly, i: nat)
    requires i < |c| + |bits|
    ensures Combine(c, bits)[i] == (At(c, i) != At(bits, i))
  {
    assert (c + Zeros(|bits|))[i] == At(c, i);
    assert (bits + Zeros(|c|))[i] == At(bits, i);
  }

  lemma FeedAt(c: Poly, bit: bool, g: Poly, i: nat)
    requires 0 < |c| == |g| && i < |g|
    ensures Feed(c, bit, g)[i] == (At(c, i + 1) != ((c[0] != bit) && g[i]))
  {
    assert (c[1..] + [false])[i] == At(c, i + 1);
  }

  lemma CancelAt(p: Poly, g: Poly, i: nat)
    requires |p| > |g| && i < |p| - 1
    ensures Cancel(p, g)[i] == (p[i + 1] != (p[0] && At(g, i)))
  {
  }

  lemma CombineStep(c: Poly, bits: Poly, g: Poly)
    requires 0 < |c| == |g| && bits != []
    ensures Cancel(Combine(c, bits), g) == Combine(Feed(c, bits[0], g), bits[1..])
  {
    var p, c' := Combine(c, bits), Feed(c, bits[0], g);
    var left, right := Cancel(p, g), Combine(c', bits[1..]);
    forall i | 0 <= i < |left| ensures left[i] == right[i] {
      CombineAt(c, bits, 0);
      CombineAt(c, bits, i + 1);
      CancelAt(p, g, i);
      CombineAt(c', bits[1..], i);
      assert At(bits[1..], i) == At(bits, i + 1);
      if i < |g| {
        FeedAt(c, bits[0], g, i);
      }
    }
  }

  /** The register holds the remainder of its start value, moved past the message, plus the message
      times x^w; from a zero register that is the remainder of message * x^w. */
  lemma {:induction false} RegisterIsRemainder(c: Poly, bits: Poly, g: Poly)
    requires 0 < |c| == |g|
    ensures FeedAll(c, bits, g) == Remainder(Combine(c, bits), g)
    decreases |bits|
  {
    if bits == [] {
      assert Combine(c, bits) == c;
    } else {
      RegisterIsRemainder(Feed(c, bits[0], g), bits[1..], g);
      CombineStep(c, bits, g);
    }
  }

  lemma {:induction false} FeedAllConcat(c: Poly, a: Poly, b: Poly, g: Poly)
    requires 0 < |c| == |g|
    ensures FeedAll(c, a + b, g) == FeedAll(FeedAll(c, a, g), b, g)
    decreases |a|
  {
    if a == [] {
      assert a + b == b;
    } else {
      assert (a + b)[1..] == a[1..] + b;
      FeedAllConcat(Feed(c, a[0], g), a[1..], b, g);
    }
  }

  /** With a divisor whose constant term is 1 the register never forgets: two different registers
      fed with the same bit stay different. */
  lemma FeedInjective(c: Poly, d: Poly, bit: bool, g: Poly)
    requires 0 < |c| == |d| == |g| && g[|g| - 1]
    requires Feed(c, bit, g) == Feed(d, bit, g)
    ensures c == d
  {
    var w := |g|;
    FeedAt(c, bit, g, w - 1);
    FeedAt(d, bit, g, w - 1);
    forall i | 0 <= i < w ensures c[i] == d[i] {
      if i > 0 {
        FeedAt(c, bit, g, i - 1);
        FeedAt(d, bit, g, i - 1);
      }
    }
  }

  lemma {:induction false} FeedAllInjective(c: Poly, d: Poly, bits: Poly, g: Poly)
    requires 0 < |c| == |d| == |g| && g[|g| - 1]
    requires FeedAll(c, bits, g) == FeedAll(d, bits, g)
    ensures c == d
    decreases |bits|
  {
    if bits != [] {
      FeedAllInjective(Feed(c, bits[0], g), Feed(d, bits[0], g), bits[1..], g);
      FeedInjective(c, d, bits[0], g);
    }
  }

  lemma FeedShiftsSum(c: Poly, bits: Poly, g: Poly)
    requires 0 < |c| == |g| && 0 < |bits| <= |g|
    ensures Feed(Sum(c, bits + Zeros(|g| - |bits|)), false, g) ==
            Sum(Feed(c, bits[0], g), bits[1..] + Zeros(|g| - |bits| + 1))
  {
    var s := Sum(c, bits + Zeros(|g| - |bits|));
    var left, right := Feed(s, false, g), Sum(Feed(c, bits[0], g), bits[1..] + Zeros(|g| - |bits| + 1));
    forall i | 0 <= i < |g| ensures left[i] == right[i] {
      FeedAt(s, false, g, i);
      FeedAt(c, bits[0], g, i);
      assert At(s, i + 1) == (At(c, i + 1) != At(bits, i + 1));
      assert (bits[1..] + Zeros(|g| - |bits| + 1))[i] == At(bits, i + 1);
    }
  }

  /** Bits fed into a register act like the same bits added to its upper end beforehand. */
  lemma {:induction false} FeedAsSum(c: Poly, bits: Poly, g: Poly)
    requires 0 < |c| == |g| && |bits| <= |g|
    ensures FeedAll(c, bits, g) ==
            FeedAll(Sum(c, bits + Zeros(|g| - |bits|)), Zeros(|bits|), g)
    decreases |bits|
  {
    var n := |bits|;
    var s := Sum(c, bits + Zeros(|g| - n));
    if n == 0 {
      assert s == c;
    } else {
      var rest := bits[1..];
      FeedAsSum(Feed(c, bits[0], g), rest, g);
      assert Zeros(n)[1..] == Zeros(n - 1);
      FeedShiftsSum(c, bits, g);
    }
  }

  /** Any error burst no longer than the register changes the result, wherever it sits. */
  lemma BurstDetected(c: Poly, before: Poly, burst: Poly, wrong: Poly, after: Poly, g: Poly)
    requires 0 < |c| == |g| && g[|g| - 1]
    requires |burst| == |wrong| <= |g| && burst != wrong
    ensures FeedAll(c, before + burst + after, g) != FeedAll(c, before + wrong + after, g)
  {
    var s := FeedAll(c, before, g);
    FeedAllConcat(c, before + burst, after, g);
    FeedAllConcat(c, before, burst, g);
    FeedAllConcat(c, before + wrong, after, g);
    FeedAllConcat(c, before, wrong, g);
    WindowInjective(s, burst, wrong, g);
    if FeedAll(FeedAll(s, burst, g), after, g) == FeedAll(FeedAll(s, wrong, g), after, g) {
      FeedAllInjective(FeedAll(s, burst, g), FeedAll(s, wrong, g), after, g);
    }
  }

  lemma WindowInjective(s: Poly, burst: Poly, wrong: Poly, g: Poly)
    requires 0 < |s| == |g| && g[|g| - 1]
    requires |burst| == |wrong| <= |g| && burst != wrong
    ensures FeedAll(s, burst, g) != FeedAll(s, wrong, g)
  {
    FeedAsSum(s, burst, g);
    FeedAsSum(s, wrong, g);
    var pad := Zeros(|g| - |burst|);
    var a, b := Sum(s, burst + pad), Sum(s, wrong + pad);
    if FeedAll(a, Zeros(|burst|), g) == FeedAll(b, Zeros(|burst|), g) {
      FeedAllInjective(a, b, Zeros(|burst|), g);
      SumCancels(s, burst, wrong, pad);
    }
  }

  lemma SumCancels(s: Poly, a: Poly, b: Poly, pad: Poly)
    requires |a| == |b| && |s| == |a| + |pad|
    requires Sum(s, a + pad) == Sum(s, b + pad)
    ensures a == b
  {
    forall i | 0 <= i < |a| ensures a[i] == b[i] {
      assert (a + pad)[i] == a[i] && (b + pad)[i] == b[i];
      assert Sum(s, a + pad)[i] == Sum(s, b + pad)[i];
    }
  }

  /** A message followed by its own remainder leaves remainder zero. */
  lemma {:induction false} OwnRemainderCancels(c: Poly, g: Poly)
    requires 0 < |c| == |g|
    ensures FeedAll(c, c, g) == Zeros(|g|)
  {
    FeedAsSum(c, c, g);
    assert Sum(c, c + Zeros(0)) == Zeros(|g|);
    ZerosStay(|g|, g);
  }

  lemma {:induction false} ZerosStay(n: nat, g: Poly)
    requires 0 < |g|
    ensures FeedAll(Zeros(|g|), Zeros(n), g) == Zeros(|g|)
  {
    if n > 0 {
      assert Feed(Zeros(|g|), false, g) == Zeros(|g|);
      assert Zeros(n)[1..] == Zeros(n - 1);
      ZerosStay(n - 1, g);
    }
  }
}
