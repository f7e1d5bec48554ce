/**
 A bit-level reading of the resize triple of the signed policy.

 This module is an ASSUMPTION of the model, not code of the policy: the code
 that consumes `(keep, extend, sign_extend)` lives in the generic integer layer,
 which is not part of this model. It is assumed here to build the resized value
 from the `keep` lowest bits of the old value followed by `extend` copies of the
 old sign bit (or of a zero bit when `sign_extend` is false). Bits are listed
 low bit first and read as two's complement.

 Under that reading the lemmas below show what the triple achieves: the new
 value has exactly the requested width and the old sign; growing keeps the
 signed value; shrinking keeps it whenever it is representable in the new width;
 and growing then shrinking back gives the original bits.
 */
module SignedBits {
  import opened SignedInt

  /** Bits of a value, least significant first. */
  type Bits = seq<bool>

  function Pow2(n: nat): (r: nat)
    ensures r >= 1
  {
    if n == 0 then 1 else 2 * Pow2(n - 1)
  }

  function BitValue(b: bool): nat {
    if b then 1 else 0
  }

  /** The bits read as an unsigned number. */
  function Unsigned(bits: Bits): nat {
    if bits == [] then 0 else BitValue(bits[0]) + 2 * Unsigned(bits[1..])
  }

  /** The most significant bit. */
  function SignBit(bits: Bits): bool
    requires |bits| >= 1
  {
    bits[|bits| - 1]
  }

  /** The bits read as a two's-complement signed number. */
  function SignedValue(bits: Bits): int
    requires |bits| >= 1
  {
    Unsigned(bits[..|bits| - 1]) - BitValue(SignBit(bits)) * Pow2(|bits| - 1)
  }

  /** `n` copies of the bit `b`. */
  function Fill(b: bool, n: nat): (r: Bits)
    ensures |r| == n
    ensures forall i :: 0 <= i < n ==> r[i] == b
  {
    seq(n, _ => b)
  }

  /** The assumed consumer of a resize triple (see the module comment). */
  function ApplyResize(bits: Bits, c: ResizeConfiguration): (r: Bits)
    requires |bits| >= 1 && c.keep <= |bits|
    ensures |r| == c.keep + c.extend
    ensures forall i :: 0 <= i < c.keep ==> r[i] == bits[i]
    ensures forall i :: c.keep <= i < |r| ==> r[i] == (c.signExtend && SignBit(bits))
  {
    bits[..c.keep] + Fill(c.signExtend && SignBit(bits), c.extend)
  }

  /**
   A signed value resized by the signed policy: it has the requested width,
   the old sign bit on top, and below it the old low bits up to the smaller width.
   */
  function Resize(bits: Bits, newSize: nat): (r: Bits)
    requires |bits| >= 1 && newSize >= 1
    ensures |r| == newSize
    ensures SignBit(r) == SignBit(bits)
    ensures forall i :: 0 <= i < Min(newSize, |bits|) - 1 ==> r[i] == bits[i]
    ensures forall i :: Min(newSize, |bits|) - 1 <= i < newSize ==> r[i] == SignBit(bits)
  {
    ApplyResize(bits, Signed.ResizeConfig(|bits|, newSize))
  }

  lemma {:induction false} UnsignedBound(s: Bits)
    ensures Unsigned(s) < Pow2(|s|)
  {
    if s != [] {
      UnsignedBound(s[1..]);
    }
  }

  /** Appending a bit on top adds its weight. */
  lemma {:induction false} UnsignedAppend(s: Bits, b: bool)
    ensures Unsigned(s + [b]) == Unsigned(s) + BitValue(b) * Pow2(|s|)
  {
    if s != [] {
      assert (s + [b])[1..] == s[1..] + [b];
      UnsignedAppend(s[1..], b);
    }
  }

  /** The arithmetic step of `UnsignedSplit`: one more low bit doubles the weight of the high part. */
  lemma SplitStep(b: int, lo: int, hi: int, p: int, t: int)
    requires t == lo + p * hi
    ensures b + 2 * t == (b + 2 * lo) + (2 * p) * hi
  {
  }

  /** The low `k` bits and the high bits of a number, weighted. */
  lemma {:induction false} UnsignedSplit(s: Bits, k: nat)
    requires k <= |s|
    ensures Unsigned(s) == Unsigned(s[..k]) + Pow2(k) * Unsigned(s[k..])
  {
    if k > 0 {
      var t := s[1..];
      assert s[..k][1..] == t[..k - 1];
      assert s[k..] == t[k - 1..];
      UnsignedSplit(t, k - 1);
      SplitStep(BitValue(s[0]), Unsigned(t[..k - 1]), Unsigned(t[k - 1..]), Pow2(k - 1), Unsigned(t));
    }
  }

  /** A two's-complement value of `n` bits lies in [-2^(n-1), 2^(n-1)). */
  lemma SignedValueRange(bits: Bits)
    requires |bits| >= 1
    ensures -(Pow2(|bits| - 1) as int) <= SignedValue(bits) < Pow2(|bits| - 1)
  {
    UnsignedBound(bits[..|bits| - 1]);
  }

  /** The value is negative exactly when the sign bit is set. */
  lemma SignedNegativeIffSignBit(bits: Bits)
    requires |bits| >= 1
    ensures SignedValue(bits) < 0 <==> SignBit(bits)
  {
    UnsignedBound(bits[..|bits| - 1]);
  }

  /** Repeating the sign bit once more does not change the value. */
  lemma SignExtendOnce(bits: Bits)
    requires |bits| >= 1
    ensures SignedValue(bits + [SignBit(bits)]) == SignedValue(bits)
  {
    var n := |bits|;
    var s := SignBit(bits);
    assert (bits + [s])[..n] == bits;
    assert bits == bits[..n - 1] + [s];
    UnsignedAppend(bits[..n - 1], s);
  }

  /** Repeating the sign bit any number of times does not change the value. */
  lemma {:induction false} SignExtendPreservesValue(bits: Bits, k: nat)
    requires |bits| >= 1
    ensures SignedValue(bits + Fill(SignBit(bits), k)) == SignedValue(bits)
  {
    if k > 0 {
      var s := SignBit(bits);
      var shorter := bits + Fill(s, k - 1);
      assert bits + Fill(s, k) == shorter + [s];
      assert SignBit(shorter) == s;
      SignExtendOnce(shorter);
      SignExtendPreservesValue(bits, k - 1);
    } else {
      assert bits + Fill(SignBit(bits), 0) == bits;
    }
  }

  /** Growing a signed value keeps its value. */
  lemma ResizeGrowPreservesValue(bits: Bits, newSize: nat)
    requires |bits| >= 1 && newSize >= |bits|
    ensures SignedValue(Resize(bits, newSize)) == SignedValue(bits)
  {
    var n := |bits|;
    assert Resize(bits, newSize) == bits + Fill(SignBit(bits), newSize - n);
    SignExtendPreservesValue(bits, newSize - n);
  }

  /** Under the signed policy, shrinking keeps the sign bit and the low bits below the new sign bit. */
  lemma ResizeShrinkValue(bits: Bits, newSize: nat)
    requires 1 <= newSize <= |bits|
    ensures SignedValue(Resize(bits, newSize))
            == Unsigned(bits[..newSize - 1]) - BitValue(SignBit(bits)) * Pow2(newSize - 1)
  {
    assert Resize(bits, newSize)[..newSize - 1] == bits[..newSize - 1];
  }

  lemma {:induction false} Pow2Add(a: nat, b: nat)
    ensures Pow2(a + b) == Pow2(a) * Pow2(b)
  {
    if b > 0 {
      Pow2Add(a, b - 1);
    }
  }

  /** `p * a <= p * b` for a non-negative `p` and `a <= b`. */
  lemma MulMonotone(p: int, a: int, b: int)
    requires p >= 0 && a <= b
    ensures p * a <= p * b
  {
    assert p * b - p * a == p * (b - a);
  }

  /**
   The arithmetic core of shrinking a non-negative value: if `lo + p * hi` is
   below `p`, the high part `hi` is zero.
   */
  lemma ShrinkNonNegative(lo: int, hi: int, p: int)
    requires 0 <= lo < p && 0 <= hi
    requires lo + p * hi < p
    ensures hi == 0
  {
    if hi > 0 {
      MulMonotone(p, 1, hi);
    }
  }

  /**
   The arithmetic core of shrinking a negative value: if `lo + p * hi - p * q`
   is at least `-p`, with `hi < q`, the high part `hi` is `q - 1`, all ones.
   */
  lemma ShrinkNegative(lo: int, hi: int, p: int, q: int)
    requires 0 <= lo < p && 0 <= hi < q
    requires -p <= lo + p * hi - p * q
    ensures hi == q - 1
    ensures lo + p * hi - p * q == lo - p
  {
    if hi < q - 1 {
      MulMonotone(p, hi, q - 2);
    }
    assert p * (q - 1) == p * q - p;
  }

  /**
   The arithmetic of shrinking: an `n`-bit value `v` whose low part `u` splits
   as `lo + p * hi`, with sign weight `w == p * q`, equals the shrunk value `r`
   that keeps only `lo` and the sign, when `v` is representable with weight `p`.
   */
  lemma ShrinkArithmetic(lo: int, hi: int, p: int, q: int, u: int, w: int, b: int, v: int, r: int)
    requires 0 <= lo < p && 0 <= hi < q
    requires u == lo + p * hi && w == p * q
    requires b == 0 || b == 1
    requires v == u - b * w && r == lo - b * p
    requires -p <= v < p
    ensures r == v
  {
    if b == 1 {
      ShrinkNegative(lo, hi, p, q);
    } else {
      ShrinkNonNegative(lo, hi, p);
    }
  }

  /** Shrinking keeps the value whenever it is representable in the new width. */
  lemma ResizeShrinkPreservesRepresentable(bits: Bits, newSize: nat)
    requires 1 <= newSize <= |bits|
    requires -(Pow2(newSize - 1) as int) <= SignedValue(bits) < Pow2(newSize - 1)
    ensures SignedValue(Resize(bits, newSize)) == SignedValue(bits)
  {
    var n, m := |bits|, newSize;
    var low := bits[..n - 1];
    assert low[..m - 1] == bits[..m - 1];
    UnsignedSplit(low, m - 1);
    UnsignedBound(bits[..m - 1]);
    UnsignedBound(low[m - 1..]);
    Pow2Add(m - 1, n - m);
    ResizeShrinkValue(bits, m);
    ShrinkArithmetic(Unsigned(bits[..m - 1]), Unsigned(low[m - 1..]), Pow2(m - 1), Pow2(n - m),
                     Unsigned(low), Pow2(n - 1), BitValue(SignBit(bits)),
                     SignedValue(bits), SignedValue(Resize(bits, m)));
  }

  /** Resizing keeps the value whenever it is representable in the new width; growing always does. */
  lemma ResizePreservesRepresentable(bits: Bits, newSize: nat)
    requires |bits| >= 1 && newSize >= 1
    requires -(Pow2(newSize - 1) as int) <= SignedValue(bits) < Pow2(newSize - 1)
    ensures SignedValue(Resize(bits, newSize)) == SignedValue(bits)
  {
    if newSize >= |bits| {
      ResizeGrowPreservesValue(bits, newSize);
    } else {
      ResizeShrinkPreservesRepresentable(bits, newSize);
    }
  }

  /** Resizing never changes whether the value is negative. */
  lemma ResizePreservesSign(bits: Bits, newSize: nat)
    requires |bits| >= 1 && newSize >= 1
    ensures SignedValue(Resize(bits, newSize)) < 0 <==> SignedValue(bits) < 0
  {
    SignedNegativeIffSignBit(bits);
    SignedNegativeIffSignBit(Resize(bits, newSize));
  }

  /** Resizing to the same width gives back the same bits. */
  lemma ResizeSameWidthIdentity(bits: Bits)
    requires |bits| >= 1
    ensures Resize(bits, |bits|) == bits
  {
  }

  /** Going through a width at least as large as the original is the same as resizing directly. */
  lemma ResizeThroughWider(bits: Bits, mid: nat, newSize: nat)
    requires |bits| >= 1 && newSize >= 1 && mid >= |bits|
    ensures Resize(Resize(bits, mid), newSize) == Resize(bits, newSize)
  {
  }

  /** Growing a value and shrinking it back to its width restores its bits. */
  lemma ResizeGrowShrinkRoundTrip(bits: Bits, wider: nat)
    requires |bits| >= 1 && wider >= |bits|
    ensures Resize(Resize(bits, wider), |bits|) == bits
  {
    ResizeThroughWider(bits, wider, |bits|);
    ResizeSameWidthIdentity(bits);
  }

  /**
   A shrink gives the same bits as keeping the low `newSize` bits exactly when
   the bit at the new sign position already equals the old sign bit.
   */
  lemma ShrinkMatchesTruncationIff(bits: Bits, newSize: nat)
    requires 1 <= newSize <= |bits|
    ensures Resize(bits, newSize) == bits[..newSize] <==> bits[newSize - 1] == SignBit(bits)
  {
    var r := Resize(bits, newSize);
    if bits[newSize - 1] == SignBit(bits) {
      assert forall i :: 0 <= i < newSize ==> r[i] == bits[..newSize][i];
    } else {
      assert r[newSize - 1] != bits[..newSize][newSize - 1];
    }
  }

  /**
   Shrinking is not wrap-around truncation: 3 on 4 bits resized to 2 bits keeps
   the sign and gives 1, whereas the low 2 bits alone read -1.
   */
  lemma ShrinkKeepsSignNotWrapAround()
    ensures var bits := [true, true, false, false];
      && SignedValue(bits) == 3
      && Resize(bits, 2) == [true, false]
      && SignedValue(Resize(bits, 2)) == 1
      && SignedValue(bits[..2]) == -1
  {
    var bits := [true, true, false, false];
    assert bits[..3] == [true, true, false];
    assert Unsigned([false]) == 0;
    assert Unsigned([true, false]) == 1;
    assert Unsigned([true, true, false]) == 3;
    assert Resize(bits, 2) == [true, false];
    assert Resize(bits, 2)[..1] == [true];
    assert Unsigned([true]) == 1;
    assert bits[..2][..1] == [true];
  }
}
