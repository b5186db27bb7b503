/** Compact difficulty bits, targets, work, and the octet-wise proof-of-work check. */
module Pow {
  import opened Bytes

  datatype PowError = NegativeTarget | ZeroTarget | Overflow

  /** `n` moved left by `k` octets. */
  function ShiftUp(n: nat, k: nat): nat {
    n * Exp256(k)
  }

  /** `n` moved right by `k` octets, what falls off being lost. */
  function ShiftDown(n: nat, k: nat): nat {
    QuotientIsNat(n, Exp256(k));
    n / Exp256(k)
  }

  lemma QuotientIsNat(n: nat, d: nat)
    requires d > 0
    ensures n / d >= 0
  {
  }

  /** The 32-bit form in which a header carries its target. */
  type Bits = n: nat | n < 0x1_0000_0000

  function Exp256(k: nat): (p: nat)
    ensures p >= 1
  {
    if k == 0 then 1 else 256 * Exp256(k - 1)
  }

  lemma {:induction false} Exp256Sum(a: nat, b: nat)
    ensures Exp256(a + b) == Exp256(a) * Exp256(b)
  {
    if a > 0 {
      Exp256Sum(a - 1, b);
      assert Exp256(a) * Exp256(b) == 256 * (Exp256(a - 1) * Exp256(b));
    }
  }

  lemma {:induction false} Exp256Grows(a: nat, b: nat)
    requires a <= b
    ensures Exp256(a) <= Exp256(b)
    decreases b
  {
    if a < b { Exp256Grows(a, b - 1); }
  }

  const TWO_256: nat := Exp256(32)

  // ------------------------------------------------------------ compact form

  predicate SignBit(bits: Bits) { bits / 0x80_0000 % 2 == 1 }

  function Exponent(bits: Bits): nat { bits / 0x100_0000 }

  function Mantissa(bits: Bits): nat { bits % 0x80_0000 }

  function CompactToTarget(bits: Bits): Result<nat, PowError> {
    if SignBit(bits) then Err(NegativeTarget)
    else if Mantissa(bits) == 0 then Err(ZeroTarget)
    else
      var target := if Exponent(bits) <= 3 then ShiftDown(Mantissa(bits), 3 - Exponent(bits))
                    else ShiftUp(Mantissa(bits), Exponent(bits) - 3);
      if target == 0 then Err(ZeroTarget)
      else if target >= TWO_256 then Err(Overflow)
      else Ok(target)
  }

  /** Number of octets in the shortest big-endian form of `n`. */
  function OctetLength(n: nat): nat {
    if n == 0 then 0 else 1 + OctetLength(n / 256)
  }

  lemma {:induction false} OctetLengthBounds(n: nat)
    requires n > 0
    ensures OctetLength(n) > 0 && Exp256(OctetLength(n) - 1) <= n < Exp256(OctetLength(n))
  {
    if n >= 256 { OctetLengthBounds(n / 256); }
  }

  lemma {:induction false} OctetLengthUnique(n: nat, len: nat)
    requires len > 0 && Exp256(len - 1) <= n < Exp256(len)
    ensures OctetLength(n) == len
  {
    OctetLengthBounds(n);
    if OctetLength(n) < len { Exp256Grows(OctetLength(n), len - 1); }
    if OctetLength(n) > len { Exp256Grows(len, OctetLength(n) - 1); }
  }

  /** The three most significant octets of a target, as the encoder reads them off. */
  function Head(target: nat): nat
    requires target > 0
  {
    var len := OctetLength(target);
    if len <= 3 then ShiftUp(target, 3 - len) else ShiftDown(target, len - 3)
  }

  lemma SmallPowers()
    ensures Exp256(0) == 1 && Exp256(1) == 256 && Exp256(2) == 0x1_0000 && Exp256(3) == 0x100_0000
  {
  }

  /** A target of more than three octets is its head and a rest smaller than one `Exp256(len - 3)`. */
  lemma LongHead(target: nat)
    requires OctetLength(target) > 3
    ensures target > 0 && 0x1_0000 <= Head(target) < 0x100_0000
    ensures var unit := Exp256(OctetLength(target) - 3);
      Head(target) * unit <= target < (Head(target) + 1) * unit
  {
    hide Exp256;
    var len := OctetLength(target);
    OctetLengthBounds(target);
    var unit := Exp256(len - 3);
    Exp256Sum(2, len - 3);
    Exp256Sum(3, len - 3);
    SmallPowers();
    DivideBounds(target, unit);
    QuotientBetween(target, unit, 0x1_0000, 0x100_0000);
  }

  lemma ShortHead(target: nat)
    requires 0 < OctetLength(target) <= 3
    ensures target > 0 && 0x1_0000 <= Head(target) < 0x100_0000
    ensures var len := OctetLength(target);
      Head(target) == (if len == 3 then target else if len == 2 then 256 * target else 0x1_0000 * target)
  {
    OctetLengthBounds(target);
    SmallPowers();
    var len := OctetLength(target);
    assert Head(target) == target * Exp256(3 - len);
    hide Exp256, OctetLength, Head;
  }

  lemma HeadBounds(target: nat)
    requires target > 0
    ensures OctetLength(target) > 0 && 0x1_0000 <= Head(target) < 0x100_0000
  {
    hide *;
    OctetLengthBounds(target);
    if OctetLength(target) > 3 { LongHead(target); } else { ShortHead(target); }
  }

  lemma QuotientBetween(n: nat, d: nat, lo: nat, hi: nat)
    requires d > 0 && lo * d <= n < hi * d
    ensures lo <= n / d < hi
  {
    DivideBounds(n, d);
    if n / d < lo { MulMonotone(n / d + 1, lo, d); }
    if n / d >= hi { MulMonotone(hi, n / d, d); }
  }

  lemma MulMonotone(a: int, b: int, k: nat)
    requires a <= b
    ensures a * k <= b * k
  {
  }

  lemma DivideBounds(n: nat, d: nat)
    requires d > 0
    ensures n / d * d <= n < (n / d + 1) * d
  {
  }

  lemma QuotientIs(n: nat, d: nat, q: nat)
    requires d > 0 && q * d <= n < (q + 1) * d
    ensures n / d == q
  {
    DivideBounds(n, d);
    if n / d < q { MulMonotone(n / d + 1, q, d); }
    if n / d > q { MulMonotone(q + 1, n / d, d); }
  }

  function TargetToCompact(target: nat): (bits: Bits)
    requires target < TWO_256
  {
    if target == 0 then 0
    else
      HeadBounds(target);
      LengthBelow(target);
      var len, head := OctetLength(target), Head(target);
      if head >= 0x80_0000 then (len + 1) * 0x100_0000 + head / 256 else len * 0x100_0000 + head
  }

  /**
   The compact form in numbers: the exponent is the number of octets that hold
   twice the target, and the mantissa is the target's part above the last
   octets that the exponent leaves out.
   */
  lemma CompactIsNormal(target: nat)
    requires 0 < target < TWO_256
    ensures var bits := TargetToCompact(target);
      var (e, m) := (bits / 0x100_0000, bits % 0x100_0000);
      && 1 <= e && Exp256(e - 1) <= 2 * target < Exp256(e)
      && m * Exp256(e) <= target * 0x100_0000 < (m + 1) * Exp256(e)
  {
    hide Exp256, OctetLength, Head;
    HeadBounds(target);
    LengthBelow(target);
    var len, head := OctetLength(target), Head(target);
    OctetLengthBounds(target);
    HeadInNumbers(target);
    NextPower(len);
    NextPower(len - 1);
    var unit := Exp256(len);
    if head >= 0x80_0000 {
      FieldsOf(len + 1, head / 256);
      OctetLess(head, unit, target * 0x100_0000);
      MulMonotone(0x80_0000, head, unit);
    } else {
      FieldsOf(len, head);
      MulMonotone(head + 1, 0x80_0000, unit);
    }
  }

  lemma FieldsOf(e: nat, m: nat)
    requires m < 0x100_0000
    ensures (e * 0x100_0000 + m) / 0x100_0000 == e && (e * 0x100_0000 + m) % 0x100_0000 == m
  {
  }

  lemma OctetLess(head: nat, unit: nat, n: nat)
    requires head * unit <= n < (head + 1) * unit
    ensures head / 256 * (256 * unit) <= n < (head / 256 + 1) * (256 * unit)
  {
    var m := head / 256;
    MulMonotone(256 * m, head, unit);
    MulMonotone(head + 1, 256 * (m + 1), unit);
    assert m * (256 * unit) == 256 * m * unit && (m + 1) * (256 * unit) == 256 * (m + 1) * unit;
  }

  lemma HeadInNumbers(target: nat)
    requires target > 0 && OctetLength(target) > 0
    ensures var unit := Exp256(OctetLength(target));
      Head(target) * unit <= target * 0x100_0000 < (Head(target) + 1) * unit
  {
    hide Exp256, Head, OctetLength;
    var len, head := OctetLength(target), Head(target);
    SmallPowers();
    if len > 3 {
      LongHead(target);
      Exp256Sum(3, len - 3);
      ThreeOctetsUp(head, Exp256(len - 3), target);
    } else {
      ShortHead(target);
    }
  }

  lemma ThreeOctetsUp(head: nat, unit: nat, target: nat)
    requires head * unit <= target < (head + 1) * unit
    ensures head * (0x100_0000 * unit) <= target * 0x100_0000 < (head + 1) * (0x100_0000 * unit)
  {
    assert head * (0x100_0000 * unit) == head * unit * 0x100_0000;
    assert (head + 1) * (0x100_0000 * unit) == (head + 1) * unit * 0x100_0000;
  }

  lemma LengthBelow(target: nat)
    requires 0 < target < TWO_256
    ensures OctetLength(target) <= 32
  {
    hide Exp256, OctetLength;
    OctetLengthBounds(target);
    if OctetLength(target) > 32 { Exp256Grows(32, OctetLength(target) - 1); }
  }

  /** The number bits stand for: the mantissa times 256 to the exponent, three octets cut off at the end. */
  function ScaledMantissa(bits: Bits): nat {
    ShiftDown(Mantissa(bits) * Exp256(Exponent(bits)), 3)
  }

  function InRange(n: nat): Result<nat, PowError> {
    if n == 0 then Err(ZeroTarget) else if n >= TWO_256 then Err(Overflow) else Ok(n)
  }

  /** Shifting down below three octets of exponent, or up above, comes to one formula. */
  lemma CompactIsScaled(bits: Bits)
    ensures CompactToTarget(bits) == if SignBit(bits) then Err(NegativeTarget) else InRange(ScaledMantissa(bits))
  {
    hide Exp256, SignBit, Exponent, Mantissa, ShiftUp, ShiftDown;
    var m, e := Mantissa(bits), Exponent(bits);
    if e <= 3 { ScaledDown(m, e); } else { ScaledUp(m, e); }
    NothingScaled(e);
  }

  lemma ScaledDown(m: nat, e: nat)
    requires e <= 3
    ensures ShiftDown(m * Exp256(e), 3) == ShiftDown(m, 3 - e)
  {
    hide Exp256;
    Exp256Sum(e, 3 - e);
    CommonFactor(m, Exp256(3 - e), Exp256(e));
  }

  lemma ScaledUp(m: nat, e: nat)
    requires e > 3
    ensures ShiftDown(m * Exp256(e), 3) == ShiftUp(m, e - 3)
  {
    hide Exp256;
    var up, three := Exp256(e - 3), Exp256(3);
    Exp256Sum(e - 3, 3);
    assert m * (up * three) == m * up * three;
    CommonFactor(m * up, 1, three);
  }

  lemma NothingScaled(e: nat)
    ensures ShiftDown(0 * Exp256(e), 3) == 0
  {
    hide Exp256;
    QuotientIs(0, Exp256(3), 0);
  }

  lemma CommonFactor(n: nat, d: nat, k: nat)
    requires d > 0 && k > 0
    ensures k * d > 0 && n * k / (k * d) == n / d
  {
    var q := n / d;
    MulMonotone(1, k, d);
    DivideBounds(n, d);
    Rebracket(q, d, k);
    Rebracket(q + 1, d, k);
    MulMonotone(q * d, n, k);
    StrictlyScaled(n, (q + 1) * d, k);
    QuotientIs(n * k, k * d, q);
  }

  lemma Rebracket(q: nat, d: nat, k: nat)
    ensures q * d * k == q * (k * d)
  {
  }

  lemma StrictlyScaled(a: nat, b: nat, k: nat)
    requires a < b && k > 0
    ensures a * k < b * k
  {
  }

  /** The decoder, with its running target. */
  method DecodeCompact(bits: Bits) returns (r: Result<nat, PowError>)
    ensures r == CompactToTarget(bits)
    ensures r == if SignBit(bits) then Err(NegativeTarget) else InRange(ScaledMantissa(bits))
  {
    hide Exp256, ScaledMantissa;
    CompactIsScaled(bits);
    if SignBit(bits) {
      return Err(NegativeTarget);
    }
    var exponent, mantissa := Exponent(bits), Mantissa(bits);
    if mantissa == 0 {
      return Err(ZeroTarget);
    }
    var target := mantissa;
    if exponent <= 3 {
      target := ShiftDown(target, 3 - exponent);
    } else {
      target := ShiftUp(target, exponent - 3);
    }
    if target == 0 {
      return Err(ZeroTarget);
    }
    if target >= TWO_256 {
      return Err(Overflow);
    }
    return Ok(target);
  }

  /** The encoder, with its running exponent and mantissa. */
  method EncodeCompact(target: nat) returns (bits: Bits)
    requires target < TWO_256
    ensures bits == TargetToCompact(target)
    ensures target == 0 ==> bits == 0
    ensures target > 0 ==> IsBestBelow(bits, target)
  {
    hide Exp256, OctetLength, ShiftUp, ShiftDown, IsBestBelow;
    if target > 0 { EncodingIsBestBelow(target); }
    if target == 0 {
      return 0;
    }
    HeadBounds(target);
    LengthBelow(target);
    var exponent := OctetLength(target);
    var mantissa := if exponent <= 3 then ShiftUp(target, 3 - exponent) else ShiftDown(target, exponent - 3);
    if mantissa / 0x80_0000 % 2 == 1 {
      mantissa := mantissa / 256;
      exponent := exponent + 1;
    }
    bits := exponent * 0x100_0000 + mantissa;
  }

  /** What the encoder keeps of a target: its head, less the last octet when the head's top bit is set. */
  function Kept(target: nat): nat
    requires target > 0
  {
    var len, head := OctetLength(target), Head(target);
    if len <= 3 then
      if len == 3 && head >= 0x80_0000 then target / 256 * 256 else target
    else if head >= 0x80_0000 then ShiftUp(head / 256, len - 2)
    else ShiftUp(head, len - 3)
  }

  lemma BitsFields(e: nat, m: nat)
    requires e < 0x100 && 0 < m < 0x80_0000
    ensures var bits: Bits := e * 0x100_0000 + m;
      !SignBit(bits) && Exponent(bits) == e && Mantissa(bits) == m
  {
  }

  lemma DecodeEncodedIsKept(target: nat)
    requires 0 < target < TWO_256
    ensures CompactToTarget(TargetToCompact(target)) == Ok(Kept(target))
    ensures 0 < Kept(target) <= target && 0x8000 * (target - Kept(target)) < Kept(target)
  {
    hide Exp256, SignBit, Exponent, Mantissa, Head;
    HeadBounds(target);
    if OctetLength(target) > 3 { DecodeLong(target); } else { DecodeShort(target); }
  }

  lemma DecodeLong(target: nat)
    requires 3 < OctetLength(target) && target < TWO_256
    ensures target > 0 && CompactToTarget(TargetToCompact(target)) == Ok(Kept(target))
    ensures 0 < Kept(target) <= target && 0x8000 * (target - Kept(target)) < Kept(target)
  {
    hide Exp256, SignBit, Exponent, Mantissa, Head, OctetLength;
    LongHead(target);
    LengthBelow(target);
    var len, head := OctetLength(target), Head(target);
    var unit := Exp256(len - 3);
    if head >= 0x80_0000 {
      BitsFields(len + 1, head / 256);
      NextPower(len - 3);
      KeptIsClose(target, head / 256, 256 * unit, head, unit);
    } else {
      BitsFields(len, head);
      KeptIsClose(target, head, unit, head, unit);
    }
  }

  lemma DecodeShort(target: nat)
    requires 0 < OctetLength(target) <= 3 && 0 < target < TWO_256
    ensures CompactToTarget(TargetToCompact(target)) == Ok(Kept(target))
    ensures 0 < Kept(target) <= target && 0x8000 * (target - Kept(target)) < Kept(target)
  {
    hide Exp256, SignBit, Exponent, Mantissa, Head, OctetLength;
    ShortHead(target);
    SmallPowers();
    var len, head := OctetLength(target), Head(target);
    if head >= 0x80_0000 { BitsFields(len + 1, head / 256); } else { BitsFields(len, head); }
  }

  lemma NextPower(k: nat)
    ensures Exp256(k + 1) == 256 * Exp256(k)
  {
  }

  lemma KeptIsClose(target: nat, m: nat, step: nat, head: nat, unit: nat)
    requires unit >= 1 && m >= 0x8000 && head * unit <= target < (head + 1) * unit
    requires (m == head && step == unit) || (m == head / 256 && step == 256 * unit)
    ensures 0 < m * step <= target && 0x8000 * (target - m * step) < m * step
  {
    assert m * step <= target < (m + 1) * step by {
      if step == 256 * unit {
        assert m * step == 256 * m * unit;
        assert (m + 1) * step == (256 * m + 256) * unit;
        MulMonotone(256 * m, head, unit);
        MulMonotone(head + 1, 256 * m + 256, unit);
      }
    }
    assert (m + 1) * step == m * step + step;
    MulMonotone(0x8000, m, step);
  }

  /** The octets of the head that survive. */
  function KeptHead(head: nat): nat {
    if head >= 0x80_0000 then head / 256 * 256 else head
  }

  lemma KeptKeepsShape(target: nat)
    requires 0 < target < TWO_256
    ensures Kept(target) > 0 && OctetLength(Kept(target)) == OctetLength(target)
    ensures Head(Kept(target)) == KeptHead(Head(target))
  {
    hide Exp256, OctetLength, CompactToTarget, TargetToCompact;
    var len, head := OctetLength(target), Head(target);
    HeadBounds(target);
    OctetLengthBounds(target);
    DecodeEncodedIsKept(target);
    SmallPowers();
    var kept := Kept(target);
    if len > 3 {
      hide Head, Kept;
      LongKept(target);
      HeadOfMultiple(KeptHead(head), len);
    } else {
      ShortHead(target);
      OctetLengthUnique(kept, len);
    }
  }

  lemma LongKept(target: nat)
    requires OctetLength(target) > 3
    ensures target > 0 && Kept(target) == KeptHead(Head(target)) * Exp256(OctetLength(target) - 3)
  {
    hide Exp256, Head, OctetLength;
    LongHead(target);
    var m, unit := Head(target) / 256, Exp256(OctetLength(target) - 3);
    NextPower(OctetLength(target) - 3);
    assert m * (256 * unit) == m * 256 * unit;
  }

  lemma HeadOfMultiple(q: nat, len: nat)
    requires len > 3 && 0x1_0000 <= q < 0x100_0000
    ensures var n := q * Exp256(len - 3); n > 0 && OctetLength(n) == len && Head(n) == q
  {
    hide Exp256, OctetLength;
    var unit := Exp256(len - 3);
    var n := q * unit;
    Exp256Sum(2, len - 3);
    Exp256Sum(3, len - 3);
    SmallPowers();
    MulMonotone(0x1_0000, q, unit);
    MulMonotone(q + 1, 0x100_0000, unit);
    assert (q + 1) * unit == n + unit;
    OctetLengthUnique(n, len);
    QuotientIs(n, unit, q);
  }

  /**
   The compact codec. Decoding an encoded target loses less than one part in
   2^15 and never gains, and what is left encodes to the very same bits.
   */
  lemma CompactRoundTrip(target: nat)
    requires 0 < target < TWO_256
    ensures match CompactToTarget(TargetToCompact(target))
            case Err(_) => false
            case Ok(kept) => 0 < kept <= target && 0x8000 * (target - kept) < kept &&
                             TargetToCompact(kept) == TargetToCompact(target)
  {
    hide Exp256, OctetLength, Head, Kept, CompactToTarget;
    DecodeEncodedIsKept(target);
    KeptKeepsShape(target);
  }

  /** The bits decode to the largest target, of all that any bits stand for, that is not above `target`. */
  ghost predicate IsBestBelow(bits: Bits, target: nat) {
    && CompactToTarget(bits).Ok? && CompactToTarget(bits).value <= target
    && forall other: Bits :: CompactToTarget(other).Ok? && CompactToTarget(other).value <= target ==>
         CompactToTarget(other).value <= CompactToTarget(bits).value
  }

  lemma EncodingIsBestBelow(target: nat)
    requires 0 < target < TWO_256
    ensures IsBestBelow(TargetToCompact(target), target)
  {
    hide Exp256, OctetLength, Head, CompactToTarget, TargetToCompact;
    CompactRoundTrip(target);
    var bits := TargetToCompact(target);
    var kept := CompactToTarget(bits).value;
    forall other: Bits | CompactToTarget(other).Ok? && CompactToTarget(other).value <= target
      ensures CompactToTarget(other).value <= kept
    {
      var t := CompactToTarget(other).value;
      DecodedTargetIsExact(other);
      if kept < t {
        CompactMonotone(kept, t);
        CompactMonotone(t, target);
      }
    }
  }

  /** Encoding keeps the order of targets. */
  lemma CompactMonotone(a: nat, b: nat)
    requires a <= b < TWO_256
    ensures TargetToCompact(a) <= TargetToCompact(b)
  {
    hide Exp256, OctetLength, Head;
    if a > 0 {
      HeadBounds(a);
      HeadBounds(b);
      LengthMonotone(a, b);
      if OctetLength(a) == OctetLength(b) { HeadMonotone(a, b); }
    }
  }

  lemma LengthMonotone(a: nat, b: nat)
    requires 0 < a <= b
    ensures OctetLength(a) <= OctetLength(b)
  {
    hide Exp256, OctetLength;
    OctetLengthBounds(a);
    OctetLengthBounds(b);
    if OctetLength(a) > OctetLength(b) { Exp256Grows(OctetLength(b), OctetLength(a) - 1); }
  }

  lemma HeadMonotone(a: nat, b: nat)
    requires 0 < a <= b && OctetLength(a) == OctetLength(b)
    ensures Head(a) <= Head(b)
  {
    hide Exp256, OctetLength, Head;
    OctetLengthBounds(a);
    if OctetLength(a) > 3 {
      LongHead(a);
      LongHead(b);
      if Head(a) > Head(b) { MulMonotone(Head(b) + 1, Head(a), Exp256(OctetLength(a) - 3)); }
    } else {
      ShortHead(a);
      ShortHead(b);
    }
  }

  /** A target that some bits decode to survives the round trip whole. */
  lemma DecodedTargetIsExact(bits: Bits)
    requires CompactToTarget(bits).Ok?
    ensures var target := CompactToTarget(bits).value;
      0 < target < TWO_256 && CompactToTarget(TargetToCompact(target)) == Ok(target)
  {
    hide Exp256, OctetLength, Head, Kept, TargetToCompact;
    var target := CompactToTarget(bits).value;
    var e, m := Exponent(bits), Mantissa(bits);
    DecodeEncodedIsKept(target);
    if e <= 3 {
      SmallPowers();
      assert target < 0x80_0000;
      SmallIsKept(target);
    } else {
      assert target == m * Exp256(e - 3);
      OctetLengthBounds(target);
      if OctetLength(target) > 3 {
        LongMultipleIsKept(target, m, e - 3);
      } else {
        ShortMultipleIsKept(target, m, e - 3);
      }
    }
  }

  lemma SmallIsKept(target: nat)
    requires 0 < target < 0x80_0000
    ensures Kept(target) == target
  {
    OctetLengthBounds(target);
    if OctetLength(target) > 3 { SmallPowers(); Exp256Grows(3, OctetLength(target) - 1); }
    if OctetLength(target) == 3 { ShortHead(target); }
  }

  lemma ShortMultipleIsKept(target: nat, m: nat, k: nat)
    requires 0 < OctetLength(target) <= 3 && 0 < m < 0x80_0000 && target == m * Exp256(k)
    ensures target > 0 && Kept(target) == target
  {
    hide Exp256, OctetLength;
    ShortHead(target);
    SmallPowers();
    if k > 0 {
      NextPower(k - 1);
      MultipleOf256(m, Exp256(k - 1));
    }
  }

  lemma MultipleOf256(m: nat, unit: nat)
    ensures m * (256 * unit) / 256 * 256 == m * (256 * unit)
  {
    assert m * (256 * unit) == 256 * (m * unit);
  }

  lemma MultipleLength(target: nat, m: nat, k: nat)
    requires 0 < m < 0x80_0000 && target == m * Exp256(k) && target > 0
    ensures OctetLength(target) <= k + 3
  {
    hide Exp256, OctetLength;
    SmallPowers();
    Exp256Sum(3, k);
    MulMonotone(m + 1, 0x100_0000, Exp256(k));
    assert (m + 1) * Exp256(k) == target + Exp256(k);
    OctetLengthBounds(target);
    if OctetLength(target) > k + 3 { Exp256Grows(3 + k, OctetLength(target) - 1); }
  }

  lemma SplitMultiple(m: nat, a: nat, b: nat)
    ensures m * Exp256(a + b) == m * Exp256(a) * Exp256(b)
  {
    hide Exp256;
    Exp256Sum(a, b);
    assert m * (Exp256(a) * Exp256(b)) == m * Exp256(a) * Exp256(b);
  }

  lemma KeptMultiple(m: nat, spare: nat)
    requires m < 0x80_0000
    ensures KeptHead(m * Exp256(spare)) == m * Exp256(spare)
  {
    hide Exp256;
    if spare > 0 {
      NextPower(spare - 1);
      assert m * (256 * Exp256(spare - 1)) == 256 * (m * Exp256(spare - 1));
    } else {
      SmallPowers();
    }
  }

  lemma LongMultipleIsKept(target: nat, m: nat, k: nat)
    requires OctetLength(target) > 3 && 0 < m < 0x80_0000 && target == m * Exp256(k)
    ensures target > 0 && Kept(target) == target
  {
    hide *;
    LongHead(target);
    MultipleLength(target, m, k);
    LongKept(target);
    var spare := k - (OctetLength(target) - 3);
    SplitMultiple(m, spare, OctetLength(target) - 3);
    HeadOfExact(target, m * Exp256(spare));
    KeptMultiple(m, spare);
  }

  lemma HeadOfExact(target: nat, q: nat)
    requires OctetLength(target) > 3 && target == q * Exp256(OctetLength(target) - 3)
    ensures target > 0 && Head(target) == q
  {
    hide Exp256, OctetLength;
    LongHead(target);
    var unit := Exp256(OctetLength(target) - 3);
    assert (q + 1) * unit == q * unit + unit;
    QuotientIs(target, unit, q);
  }

  // ------------------------------------------------------- octet-wise check

  /** The number a big-endian octet string stands for. */
  function BigEndian(s: Bytes): nat {
    if s == [] then 0 else 256 * BigEndian(s[..|s| - 1]) + s[|s| - 1] as int
  }

  function ToBigEndian(n: nat, len: nat): (s: Bytes)
    ensures |s| == len
  {
    if len == 0 then [] else ToBigEndian(n / 256, len - 1) + [n % 256]
  }

  /** Octet strings compared as the source language compares slices. */
  predicate LexLe(a: Bytes, b: Bytes) {
    a == [] || (b != [] && (a[0] < b[0] || (a[0] == b[0] && LexLe(a[1..], b[1..]))))
  }

  lemma {:induction false} ToBigEndianValue(n: nat, len: nat)
    requires n < Exp256(len)
    ensures BigEndian(ToBigEndian(n, len)) == n
  {
    if len > 0 {
      ToBigEndianValue(n / 256, len - 1);
      var s := ToBigEndian(n, len);
      assert s[..|s| - 1] == ToBigEndian(n / 256, len - 1);
    }
  }

  lemma {:induction false} BigEndianBound(s: Bytes)
    ensures BigEndian(s) < Exp256(|s|)
  {
    if s != [] { BigEndianBound(s[..|s| - 1]); }
  }

  lemma OneOctetUp(a: nat, k: nat, x: nat)
    ensures 256 * (a * Exp256(k) + x) == a * Exp256(k + 1) + 256 * x
  {
    var p := Exp256(k);
    assert Exp256(k + 1) == 256 * p;
    assert a * (256 * p) == 256 * (a * p);
  }

  lemma {:induction false} BigEndianHead(s: Bytes)
    requires s != []
    ensures BigEndian(s) == s[0] as int * Exp256(|s| - 1) + BigEndian(s[1..])
  {
    if |s| == 1 {
      assert s[..0] == s[1..] && Exp256(0) == 1;
    } else {
      hide Exp256;
      var front := s[..|s| - 1];
      BigEndianHead(front);
      assert front[1..] == s[1..][..|s| - 2];
      OneOctetUp(s[0] as int, |s| - 2, BigEndian(front[1..]));
    }
  }

  /** On strings of one length, slice order is the order of the numbers they stand for. */
  lemma {:induction false} LexLeIsNumeric(a: Bytes, b: Bytes)
    requires |a| == |b|
    ensures LexLe(a, b) <==> BigEndian(a) <= BigEndian(b)
    decreases |a|
  {
    if a != [] {
      hide Exp256, BigEndian;
      BigEndianHead(a);
      BigEndianHead(b);
      BigEndianBound(a[1..]);
      BigEndianBound(b[1..]);
      LexLeIsNumeric(a[1..], b[1..]);
      DigitDecides(a[0] as int, b[0] as int, BigEndian(a[1..]), BigEndian(b[1..]), Exp256(|a| - 1));
    }
  }

  lemma DigitDecides(a: nat, b: nat, x: nat, y: nat, unit: nat)
    requires x < unit && y < unit
    ensures a * unit + x <= b * unit + y <==> a < b || (a == b && x <= y)
  {
    if a < b { MulMonotone(a + 1, b, unit); assert (a + 1) * unit == a * unit + unit; }
    if b < a { MulMonotone(b + 1, a, unit); assert (b + 1) * unit == b * unit + unit; }
  }

  lemma {:induction false} BigEndianShift(s: Bytes, zeros: Bytes)
    requires forall i :: 0 <= i < |zeros| ==> zeros[i] == 0
    ensures BigEndian(s + zeros) == BigEndian(s) * Exp256(|zeros|)
    decreases |zeros|
  {
    if zeros == [] {
      assert s + zeros == s;
    } else {
      var front := zeros[..|zeros| - 1];
      BigEndianShift(s, front);
      assert (s + zeros)[..|s + zeros| - 1] == s + front;
      assert BigEndian(s) * (256 * Exp256(|front|)) == 256 * (BigEndian(s) * Exp256(|front|));
    }
  }

  lemma {:induction false} LeadingZeros(zeros: Bytes, s: Bytes)
    requires forall i :: 0 <= i < |zeros| ==> zeros[i] == 0
    ensures BigEndian(zeros + s) == BigEndian(s)
    decreases |zeros| + |s|
  {
    if s != [] {
      assert (zeros + s)[..|zeros + s| - 1] == zeros + s[..|s| - 1];
      LeadingZeros(zeros, s[..|s| - 1]);
    } else if zeros != [] {
      assert (zeros + s)[..|zeros + s| - 1] == zeros[..|zeros| - 1] + s;
      LeadingZeros(zeros[..|zeros| - 1], s);
    }
  }

  /** `mantissa` needs more octets than the exponent leaves room for: the bits stand for a zero target. */
  predicate ShiftsToZero(bits: Bits) {
    !SignBit(bits) && Mantissa(bits) != 0 && Exponent(bits) <= 3 && ShiftDown(Mantissa(bits), 3 - Exponent(bits)) == 0
  }

  /** Such bits: one mantissa octet too low for its exponent. */
  lemma MantissaCanShiftToZero()
    ensures ShiftsToZero(0x0100_0001) && CompactToTarget(0x0100_0001) == Err(ZeroTarget)
  {
    SmallPowers();
  }

  /** The octets of a target, written straight into a buffer without big-number arithmetic. */
  method TargetBytesFromCompact(bits: Bits) returns (r: Result<Bytes, PowError>)
    ensures r.Ok? ==> |r.value| == 32
    ensures match CompactToTarget(bits)
            case Ok(target) => r.Ok? && BigEndian(r.value) == target
            case Err(e) => if ShiftsToZero(bits) then r.Ok? && BigEndian(r.value) == 0 else r == Err(e)
  {
    hide Exp256, BigEndian, ToBigEndian, Exponent;
    if SignBit(bits) {
      return Err(NegativeTarget);
    }
    var exponent, mantissa := Exponent(bits), Mantissa(bits);
    if mantissa == 0 {
      return Err(ZeroTarget);
    }
    if exponent > 32 {
      var target := DecodeCompact(bits);
      match target {
        case Err(e) => return Err(e);
        case Ok(t) =>
          ToBigEndianValue(t, 32);
          return Ok(ToBigEndian(t, 32));
      }
    }
    var out := new byte[32](_ => 0);
    if exponent <= 3 {
      var target := ShiftDown(mantissa, 3 - exponent);
      SmallPowers();
      var tail := ToBigEndian(target, 4);
      forall i | 0 <= i < 4 { out[28 + i] := tail[i]; }
      LowTargetBytes(out[..], target);
    } else {
      var offset := 32 - exponent;
      out[offset] := mantissa / 0x1_0000;
      out[offset + 1] := mantissa / 0x100 % 0x100;
      out[offset + 2] := mantissa % 0x100;
      HighTargetBytes(out[..], offset, mantissa);
      TargetFits(mantissa, exponent - 3);
    }
    return Ok(out[..]);
  }

  /** Zeros but for the last four octets, which hold the target. */
  lemma LowTargetBytes(s: Bytes, target: nat)
    requires |s| == 32 && s[28..] == ToBigEndian(target, 4) && target < 0x100_0000
    requires forall i :: 0 <= i < 28 ==> s[i] == 0
    ensures BigEndian(s) == target < TWO_256
  {
    hide BigEndian, ToBigEndian, Exp256;
    assert s == s[..28] + s[28..];
    SmallPowers();
    NextPower(3);
    ToBigEndianValue(target, 4);
    LeadingZeros(s[..28], s[28..]);
    Exp256Grows(4, 32);
  }

  /** Zeros but for the three octets of the mantissa. */
  lemma HighTargetBytes(s: Bytes, offset: nat, mantissa: nat)
    requires |s| == 32 && offset <= 29 && mantissa < 0x100_0000
    requires s[offset..offset + 3] == [mantissa / 0x1_0000, mantissa / 0x100 % 0x100, mantissa % 0x100]
    requires forall i :: 0 <= i < offset || offset + 3 <= i < 32 ==> s[i] == 0
    ensures BigEndian(s) == mantissa * Exp256(29 - offset)
  {
    hide BigEndian, Exp256;
    var middle, zeros := s[offset..offset + 3], s[offset + 3..];
    assert s == s[..offset] + (middle + zeros);
    ThreeOctets(middle, mantissa);
    LeadingZeros(s[..offset], middle + zeros);
    BigEndianShift(middle, zeros);
  }

  lemma ThreeOctets(s: Bytes, n: nat)
    requires n < 0x100_0000 && s == [n / 0x1_0000, n / 0x100 % 0x100, n % 0x100]
    ensures BigEndian(s) == n
  {
    var s2, s1 := s[..2], s[..1];
    assert s2[..1] == s1 && s1[..0] == [];
    assert BigEndian(s1) == n / 0x1_0000;
    assert BigEndian(s2) == n / 0x100;
  }

  lemma TargetFits(m: nat, k: nat)
    requires 0 < m < 0x80_0000 && k <= 29
    ensures 0 < m * Exp256(k) < TWO_256
  {
    hide Exp256;
    SmallPowers();
    Exp256Sum(3, k);
    Exp256Grows(3 + k, 32);
    assert m * Exp256(k) < 0x100_0000 * Exp256(k) by {
      MulMonotone(m + 1, 0x100_0000, Exp256(k));
      assert (m + 1) * Exp256(k) == m * Exp256(k) + Exp256(k);
    }
    MulMonotone(1, m, Exp256(k));
  }

  /** A hash meets its bits exactly when, read as a 256-bit number, it is at most the target they stand for. */
  method VerifyPow(hash: Hash, bits: Bits) returns (r: Result<bool, PowError>)
    ensures r == PowCheck(hash, bits)
  {
    hide Exp256;
    var bytes := TargetBytesFromCompact(bits);
    match bytes {
      case Err(e) => return Err(e);
      case Ok(b) =>
        LexLeIsNumeric(hash, b);
        return Ok(LexLe(hash, b));
    }
  }

  function PowCheck(hash: Hash, bits: Bits): Result<bool, PowError> {
    if ShiftsToZero(bits) then Ok(BigEndian(hash) == 0)
    else
      match CompactToTarget(bits)
      case Ok(target) => Ok(BigEndian(hash) <= target)
      case Err(e) => Err(e)
  }

  // --------------------------------------------------------- work and target

  function WorkForTarget(target: nat): Result<nat, PowError> {
    if target == 0 then Err(ZeroTarget) else Ok(TWO_256 / (target + 1))
  }

  function TargetForWork(work: nat): Result<nat, PowError> {
    if work == 0 || TWO_256 / work == 0 then Err(ZeroTarget) else Ok(TWO_256 / work - 1)
  }

  /** The work a header's bits stand for. */
  function WorkFromBits(bits: Bits): Result<nat, PowError> {
    match CompactToTarget(bits)
    case Err(e) => Err(e)
    case Ok(target) => WorkForTarget(target)
  }

  lemma QuotientAtLeast(n: nat, d: nat, q: nat)
    requires d > 0
    ensures q <= n / d <==> q * d <= n
  {
    DivideBounds(n, d);
    if q <= n / d { MulMonotone(q, n / d, d); } else { MulMonotone(n / d + 1, q, d); }
  }

  /** `q` is `n` over `d`, rounded down. */
  ghost predicate IsFloor(q: nat, n: int, d: nat) {
    q * d <= n < (q + 1) * d
  }

  /** The target that some work asks for: one less than 2^256 over the work. */
  ghost predicate IsTargetFor(target: nat, work: nat) {
    IsFloor(target + 1, TWO_256, work)
  }

  lemma FloorIs(q: nat, n: nat, d: nat)
    requires d > 0
    ensures IsFloor(q, n, d) <==> n / d == q
  {
    DivideBounds(n, d);
    if IsFloor(q, n, d) { QuotientIs(n, d, q); }
  }

  /** The work of a target is 2^256 over one more than the target; the target for some work is one less than 2^256 over
      the work. Both are rounded down. */
  lemma WorkIsFloor(n: nat, r: nat)
    ensures TWO_256 == 0x1_0000000000000000_0000000000000000_0000000000000000_0000000000000000
    ensures WorkForTarget(n) == Ok(r) <==> n > 0 && IsFloor(r, TWO_256, n + 1)
    ensures TargetForWork(n) == Ok(r) <==> n > 0 && IsTargetFor(r, n)
  {
    PowersOf256();
    hide Exp256;
    FloorIs(r, TWO_256, n + 1);
    if n > 0 { FloorIs(r + 1, TWO_256, n); }
  }

  lemma PowersOf256()
    ensures Exp256(32) == 0x1_0000000000000000_0000000000000000_0000000000000000_0000000000000000
  {
    assert Exp256(4) == 0x1_0000_0000;
    hide Exp256;
    Exp256Sum(4, 4);
    Exp256Sum(8, 8);
    Exp256Sum(16, 16);
  }

  /**
   Work and target determine each other as well as rounding allows: a target
   is worth at least `work` exactly when it lies at or below the target `work` asks for.
   */
  lemma WorkTargetGalois(target: nat, work: nat)
    requires 0 < target && 0 < work <= TWO_256
    ensures TargetForWork(work).Ok?
    ensures work <= WorkForTarget(target).value <==> target <= TargetForWork(work).value
  {
    hide Exp256;
    QuotientAtLeast(TWO_256, target + 1, work);
    QuotientAtLeast(TWO_256, work, target + 1);
    QuotientAtLeast(TWO_256, work, 1);
    assert work * (target + 1) == (target + 1) * work;
  }

  lemma WorkIsPositive(target: nat)
    requires 0 < target < TWO_256
    ensures 1 <= WorkForTarget(target).value < TWO_256
  {
    hide Exp256;
    QuotientAtLeast(TWO_256, target + 1, 1);
    QuotientAtLeast(TWO_256, target + 1, TWO_256);
    assert TWO_256 * (target + 1) == TWO_256 * target + TWO_256;
    MulMonotone(1, target, TWO_256);
  }

  lemma WorkAntitone(a: nat, b: nat)
    requires 0 < a <= b
    ensures WorkForTarget(b).value <= WorkForTarget(a).value
  {
    hide Exp256;
    var w := WorkForTarget(b).value;
    QuotientAtLeast(TWO_256, b + 1, w);
    QuotientAtLeast(TWO_256, a + 1, w);
    MulMonotone(a + 1, b + 1, w);
    assert w * (a + 1) == (a + 1) * w && w * (b + 1) == (b + 1) * w;
  }

  lemma TargetAntitone(a: nat, b: nat)
    requires 0 < a <= b && TargetForWork(b).Ok?
    ensures TargetForWork(a).Ok? && TargetForWork(b).value <= TargetForWork(a).value
  {
    hide Exp256;
    var q := TWO_256 / b;
    QuotientAtLeast(TWO_256, b, q);
    QuotientAtLeast(TWO_256, a, q);
    MulMonotone(a, b, q);
    assert q * a == a * q && q * b == b * q;
  }

  /** Through work and back a target never shrinks, and its work is unchanged. */
  lemma WorkRoundTrip(target: nat)
    requires 0 < target < TWO_256
    ensures var work := WorkForTarget(target).value;
      && TargetForWork(work).Ok? && target <= TargetForWork(work).value < TWO_256
      && WorkForTarget(TargetForWork(work).value) == Ok(work)
  {
    hide Exp256;
    var work := WorkForTarget(target).value;
    WorkIsPositive(target);
    WorkTargetGalois(target, work);
    var back := TargetForWork(work).value;
    WorkTargetGalois(back, work);
    WorkAntitone(target, back);
    QuotientAtLeast(TWO_256, work, TWO_256 + 1);
    MulMonotone(1, work, TWO_256 + 1);
  }
}
