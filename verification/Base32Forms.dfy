/** Which texts decode to given octets: the encoding in either case, and for some lengths one more zero digit. */
module Base32Forms {
  import opened Bytes
  import opened Base32

  const ZERO_DIGIT: byte := 48

  /** Digits in lower case, all else as it is. */
  function InLowerCase(text: Bytes): (lower: Bytes)
    ensures |lower| == |text|
  {
    if text == [] then [] else [LowerDigit(text[0])] + InLowerCase(text[1..])
  }

  function LowerDigit(c: byte): byte {
    match Value(c) case Some(v) => Digit(v) case None => c
  }

  lemma {:induction false} CaseDoesNotMatter(text: Bytes, pending: nat, bits: nat)
    requires bits < 8 && pending < Power(bits)
    ensures DecodeFrom(InLowerCase(text), pending, bits) == DecodeFrom(text, pending, bits)
    decreases |text|
  {
    hide Power, Digit, Quot, Rem;
    PowerFacts();
    if text != [] {
      var lower := InLowerCase(text);
      assert lower[1..] == InLowerCase(text[1..]);
      match Value(text[0]) {
        case None =>
        case Some(v) =>
          DigitValue(v);
          var all := pending * 32 + v;
          if bits + 5 < 8 {
            PendingGrows(pending, v, bits);
            CaseDoesNotMatter(text[1..], all, bits + 5);
          } else {
            CaseDoesNotMatter(text[1..], Rem(all, bits - 3), bits - 3);
          }
      }
    }
  }

  lemma PendingGrows(pending: nat, v: nat, bits: nat)
    requires bits < 3 && pending < Power(bits) && v < 32
    ensures pending * 32 + v < Power(bits + 5)
  {
  }

  lemma {:induction false} DecodedLength(text: Bytes, pending: nat, bits: nat)
    requires bits < 8 && pending < Power(bits) && DecodeFrom(text, pending, bits).Some?
    ensures |DecodeFrom(text, pending, bits).value| == (5 * |text| + bits) / 8
    decreases |text|
  {
    hide Power, Quot, Rem;
    if text != [] {
      var all := pending * 32 + Value(text[0]).value;
      if bits + 5 < 8 {
        PendingGrows(pending, Value(text[0]).value, bits);
        DecodedLength(text[1..], all, bits + 5);
      } else {
        DecodedLength(text[1..], Rem(all, bits - 3), bits - 3);
      }
    }
  }

  lemma {:induction false} EncodedLength(input: Bytes, pending: nat, bits: nat)
    requires bits < 5 && pending < Power(bits)
    ensures |EncodeFrom(input, pending, bits)| == (8 * |input| + bits + 4) / 5
    decreases |input|
  {
    hide Digit;
    if input != [] {
      var all := pending * 256 + input[0] as int;
      var rest := Rem(all, bits + 3);
      if bits + 3 < 5 {
        EncodedLength(input[1..], rest, bits + 3);
      } else {
        EncodedLength(input[1..], Rem(rest, bits - 2), bits - 2);
      }
    }
  }

  /** Texts of one length that decode alike have the same digits, and began with the same bits pending. */
  lemma {:induction false} SameLengthSameDigits(a: Bytes, b: Bytes, p: nat, q: nat, bits: nat)
    requires bits < 8 && p < Power(bits) && q < Power(bits) && |a| == |b|
    requires DecodeFrom(a, p, bits).Some? && DecodeFrom(a, p, bits) == DecodeFrom(b, q, bits)
    ensures p == q && InLowerCase(a) == InLowerCase(b)
    decreases |a|
  {
    hide Power, Quot, Rem, Digit;
    if a != [] {
      var v, w := Value(a[0]).value, Value(b[0]).value;
      if bits + 5 < 8 {
        PendingGrows(p, v, bits);
        PendingGrows(q, w, bits);
        SameLengthSameDigits(a[1..], b[1..], p * 32 + v, q * 32 + w, bits + 5);
      } else {
        var x, y := DecodeFrom(a, p, bits).value, DecodeFrom(b, q, bits).value;
        assert x[1..] == DecodeFrom(a[1..], Rem(p * 32 + v, bits - 3), bits - 3).value;
        assert y[1..] == DecodeFrom(b[1..], Rem(q * 32 + w, bits - 3), bits - 3).value;
        SameLengthSameDigits(a[1..], b[1..], Rem(p * 32 + v, bits - 3), Rem(q * 32 + w, bits - 3), bits - 3);
        SameParts(p * 32 + v, q * 32 + w, bits - 3);
      }
    }
  }

  lemma SameParts(m: nat, n: nat, k: nat)
    requires k <= 12 && Quot(m, k) == Quot(n, k) && Rem(m, k) == Rem(n, k)
    ensures m == n
  {
    var d := Power(k);
    assert m == d * (m / d) + m % d && n == d * (n / d) + n % d;
  }

  lemma ZeroDigitAlone(bits: nat)
    requires bits < 8 && 0 < Power(bits)
    ensures bits < 3 ==> DecodeFrom([ZERO_DIGIT], 0, bits) == Some([])
  {
    PendingGrows(0, 0, bits % 3);
    assert Value(ZERO_DIGIT) == Some(0) && [ZERO_DIGIT][1..] == [];
  }

  lemma OneOctetLess(n: nat)
    requires n >= 8
    ensures (n - 8) % 8 == n % 8
  {
  }

  /** One more zero digit adds nothing, unless it fills up an octet. */
  lemma {:induction false} ZeroDigitAppended(text: Bytes, pending: nat, bits: nat)
    requires bits < 8 && pending < Power(bits) && DecodeFrom(text, pending, bits).Some?
    requires (5 * |text| + bits) % 8 < 3
    ensures DecodeFrom(text + [ZERO_DIGIT], pending, bits) == DecodeFrom(text, pending, bits)
    decreases |text|
  {
    hide Power, Quot, Rem, Value;
    if text == [] {
      assert text + [ZERO_DIGIT] == [ZERO_DIGIT];
      ZeroDigitAlone(bits);
    } else {
      var more := text + [ZERO_DIGIT];
      assert more[0] == text[0] && more[1..] == text[1..] + [ZERO_DIGIT];
      ValueFits(text[0]);
      var all := pending * 32 + Value(text[0]).value;
      if bits + 5 < 8 {
        PendingGrows(pending, Value(text[0]).value, bits);
        ZeroDigitAppended(text[1..], all, bits + 5);
      } else {
        OneOctetLess(5 * |text| + bits);
        ZeroDigitAppended(text[1..], Rem(all, bits - 3), bits - 3);
      }
    }
  }

  /** Whether the encoding leaves room for one more digit: for 0, 1 or 3 octets above a multiple of 5. */
  predicate HasRoom(x: Bytes) {
    5 * |Encode(x)| < 8 * |x| + 3
  }

  lemma {:induction false} EncodingIsLower(x: Bytes, pending: nat, bits: nat)
    requires bits < 5 && pending < Power(bits)
    ensures InLowerCase(EncodeFrom(x, pending, bits)) == EncodeFrom(x, pending, bits)
    decreases |x|
  {
    hide Digit, InLowerCase;
    NothingIsLower();
    if x == [] {
      if bits > 0 {
        LowerDigitFirst(pending * Power(5 - bits), []);
        assert EncodeFrom(x, pending, bits) == [Digit(pending * Power(5 - bits))] + [];
      }
    } else {
      var all := pending * 256 + x[0] as int;
      var rest := Rem(all, bits + 3);
      if bits + 3 < 5 {
        EncodingIsLower(x[1..], rest, bits + 3);
        LowerDigitFirst(Quot(all, bits + 3), EncodeFrom(x[1..], rest, bits + 3));
      } else {
        var tail := EncodeFrom(x[1..], Rem(rest, bits - 2), bits - 2);
        EncodingIsLower(x[1..], Rem(rest, bits - 2), bits - 2);
        LowerDigitFirst(Quot(rest, bits - 2), tail);
        LowerDigitFirst(Quot(all, bits + 3), [Digit(Quot(rest, bits - 2))] + tail);
      }
    }
  }

  lemma NothingIsLower()
    ensures InLowerCase([]) == []
  {
  }

  lemma LowerDigitFirst(v: nat, rest: Bytes)
    requires v < 32
    ensures InLowerCase([Digit(v)] + rest) == [Digit(v)] + InLowerCase(rest)
  {
    DigitValue(v);
    assert ([Digit(v)] + rest)[1..] == rest;
  }

  lemma {:induction false} LowerCaseConcat(a: Bytes, b: Bytes)
    ensures InLowerCase(a + b) == InLowerCase(a) + InLowerCase(b)
  {
    hide LowerDigit;
    if a == [] {
      assert a + b == b;
    } else {
      LowerCaseConcat(a[1..], b);
      var lower: Bytes := [LowerDigit(a[0])];
      assert (a + b)[1..] == a[1..] + b && (a + b)[0] == a[0];
      assert lower + (InLowerCase(a[1..]) + InLowerCase(b)) == lower + InLowerCase(a[1..]) + InLowerCase(b);
    }
  }

  /**
   Exactly the texts that decode to `x`: its encoding, digits in either case,
   and with room for it one zero digit more. So an octet string whose length
   leaves room, such as a hash of twenty octets, has two lower-case texts.
   */
  lemma DecodesIff(text: Bytes, x: Bytes)
    ensures Decode(text) == Some(x) <==>
      InLowerCase(text) == Encode(x) || (HasRoom(x) && InLowerCase(text) == Encode(x) + [ZERO_DIGIT])
  {
    hide Encode, DecodeFrom, InLowerCase, Power;
    PowerFacts();
    var code := Encode(x);
    DecodeEncoded(x);
    EncodeLengthIs(x);
    CaseDoesNotMatter(text, 0, 0);
    EncodingOfWholeIsLower(x);
    LowerCaseConcat(code, [ZERO_DIGIT]);
    ZeroIsLower();
    if HasRoom(x) {
      RoomLeft(|x|);
      ZeroDigitAppended(code, 0, 0);
    }
    if Decode(text) == Some(x) {
      DecodedLength(text, 0, 0);
      LengthsFit(|text|, |x|);
      if |text| == |code| {
        SameLengthSameDigits(text, code, 0, 0, 0);
      } else {
        SameLengthSameDigits(text, code + [ZERO_DIGIT], 0, 0, 0);
      }
    }
  }

  lemma RoomLeft(n: nat)
    requires 5 * ((8 * n + 4) / 5) < 8 * n + 3
    ensures 5 * ((8 * n + 4) / 5) % 8 < 3
  {
  }

  lemma LengthsFit(digits: nat, n: nat)
    requires n == 5 * digits / 8
    ensures digits == (8 * n + 4) / 5 || (digits == (8 * n + 4) / 5 + 1 && 5 * ((8 * n + 4) / 5) < 8 * n + 3)
  {
  }

  lemma EncodeLengthIs(x: Bytes)
    ensures |Encode(x)| == (8 * |x| + 4) / 5
  {
    EncodedLength(x, 0, 0);
  }

  lemma EncodingOfWholeIsLower(x: Bytes)
    ensures InLowerCase(Encode(x)) == Encode(x)
  {
    EncodingIsLower(x, 0, 0);
  }

  lemma ZeroIsLower()
    ensures InLowerCase([ZERO_DIGIT]) == [ZERO_DIGIT]
  {
    assert [ZERO_DIGIT][1..] == [];
  }

  // ------------------------------------------------------- texts as numbers

  ghost function Two(k: nat): (p: nat)
    ensures p > 0
  {
    if k == 0 then 1 else 2 * Two(k - 1)
  }

  /** 0 to 9, then A to V in either case. */
  ghost predicate IsDigit(c: byte) {
    48 <= c <= 57 || 65 <= c <= 86 || 97 <= c <= 118
  }

  ghost function DigitOf(c: byte): (v: nat)
    requires IsDigit(c)
    ensures v < 32
  {
    if c <= 57 then c - 48 else if c <= 86 then c - 55 else c - 87
  }

  ghost predicate AllDigits(text: Bytes) {
    forall c :: c in text ==> IsDigit(c)
  }

  /** The text as a number of base 32, highest digit first. */
  ghost function TextNumber(text: Bytes): nat
    requires AllDigits(text)
  {
    if text == [] then 0 else DigitOf(text[0]) * Two(5 * (|text| - 1)) + TextNumber(text[1..])
  }

  /** Octets as a number of base 256, highest octet first. */
  ghost function OctetNumber(x: Bytes): nat {
    if x == [] then 0 else x[0] as int * Two(8 * (|x| - 1)) + OctetNumber(x[1..])
  }

  lemma {:induction false} TwoSum(a: nat, b: nat)
    ensures Two(a + b) == Two(a) * Two(b)
  {
    if a > 0 {
      TwoSum(a - 1, b);
      assert 2 * (Two(a - 1) * Two(b)) == 2 * Two(a - 1) * Two(b);
    }
  }

  lemma TwoIsPower(k: nat)
    requires k <= 8
    ensures Two(k) == Power(k)
  {
    assert Two(0) == 1 && Two(1) == 2 && Two(2) == 4 && Two(3) == 8;
    assert Two(4) == 16 && Two(5) == 32 && Two(6) == 64 && Two(7) == 128 && Two(8) == 256;
  }

  lemma {:induction false} OctetNumberBound(x: Bytes)
    ensures OctetNumber(x) < Two(8 * |x|)
  {
    if x != [] {
      var m := 8 * (|x| - 1);
      OctetNumberBound(x[1..]);
      TwoSum(8, m);
      TwoIsPower(8);
      LeadBound(x[0] as int, 256, Two(m), OctetNumber(x[1..]));
    }
  }

  lemma {:induction false} TextNumberBound(text: Bytes)
    requires AllDigits(text)
    ensures TextNumber(text) < Two(5 * |text|)
  {
    if text != [] {
      var m := 5 * (|text| - 1);
      TextNumberBound(text[1..]);
      TwoSum(5, m);
      TwoIsPower(5);
      LeadBound(DigitOf(text[0]), 32, Two(m), TextNumber(text[1..]));
    }
  }

  lemma LeadBound(lead: nat, base: nat, unit: nat, low: nat)
    requires lead < base && low < unit
    ensures lead * unit + low < base * unit
  {
    MulUpTo(unit, lead + 1, base);
    assert (lead + 1) * unit == lead * unit + unit;
  }

  lemma SameLead(a: nat, b: nat, unit: nat, low: nat, low': nat)
    requires low < unit && low' < unit
    ensures a * unit + low == b * unit + low' <==> a == b && low == low'
  {
    if a < b { LeadBound(a, b, unit, low); }
    if b < a { LeadBound(b, a, unit, low'); }
  }

  /** Pending bits in front of the text's own, and behind the octets what bits are left over. */
  ghost predicate NumbersAgree(text: Bytes, pending: nat, bits: nat, x: Bytes)
    requires AllDigits(text)
  {
    && |x| == (bits + 5 * |text|) / 8
    && pending * Two(5 * |text|) + TextNumber(text) == OctetNumber(x) * Two((bits + 5 * |text|) % 8)
  }

  lemma NextDigit(text: Bytes, pending: nat, bits: nat, x: Bytes)
    requires text != [] && AllDigits(text)
    ensures AllDigits(text[1..])
    ensures NumbersAgree(text, pending, bits, x) <==>
            NumbersAgree(text[1..], pending * 32 + DigitOf(text[0]), bits + 5, x)
  {
    var m := 5 * (|text| - 1);
    var v := DigitOf(text[0]);
    TwoSum(5, m);
    TwoIsPower(5);
    assert bits + 5 * |text| == bits + 5 + m;
    Distribute(pending, v, Two(m));
    hide Two;
  }

  lemma Distribute(p: nat, v: nat, unit: nat)
    ensures (p * 32 + v) * unit == p * (32 * unit) + v * unit
  {
  }

  /** An octet's worth of pending bits is the first octet. */
  lemma NextOctet(text: Bytes, all: nat, bits: nat, x: Bytes)
    requires AllDigits(text) && 8 <= bits < 16 && all < Two(bits) && x != []
    ensures var unit := Two(bits - 8);
      NumbersAgree(text, all, bits, x) <==>
        x[0] as int == all / unit && NumbersAgree(text, all % unit, bits - 8, x[1..])
  {
    var (t, n) := (5 * |text|, bits + 5 * |text|);
    var (m, k) := (n / 8 - 1, n % 8);
    OctetOff(n);
    if |x| == n / 8 {
      assert bits - 8 + t == 8 * m + k;
      assert OctetNumber(x) == x[0] as int * Two(8 * m) + OctetNumber(x[1..]);
      hide Two, TextNumber, OctetNumber;
      TwoSum(bits - 8, t);
      TwoSum(8 * m, k);
      TextNumberBound(text);
      OctetNumberBound(x[1..]);
      OctetSplits(all, Two(bits - 8), Two(t), TextNumber(text), x[0] as int, OctetNumber(x[1..]), Two(8 * m), Two(k));
    }
  }

  lemma OctetOff(n: nat)
    requires n >= 8
    ensures (n - 8) / 8 == n / 8 - 1 && (n - 8) % 8 == n % 8 && n == 8 * (n / 8) + n % 8
  {
  }

  lemma OctetSplits(all: nat, unit: nat, up: nat, text: nat, first: nat, rest: nat, octets: nat, spare: nat)
    requires unit > 0 && spare > 0 && text < up && rest < octets && unit * up == octets * spare
    ensures all * up + text == (first * octets + rest) * spare <==>
      first == all / unit && all % unit * up + text == rest * spare
  {
    var (q, r) := (all / unit, all % unit);
    assert all == q * unit + r;
    LeadBound(r, unit, up, text);
    MulUpTo(spare, rest + 1, octets);
    assert (rest + 1) * spare == rest * spare + spare;
    SplitLead(q, unit, r, up, text);
    SplitProduct(first, octets, rest, spare);
    SameLead(q, first, unit * up, r * up + text, rest * spare);
  }

  lemma SplitLead(q: nat, unit: nat, r: nat, up: nat, low: nat)
    ensures (q * unit + r) * up + low == q * (unit * up) + (r * up + low)
  {
    assert (q * unit + r) * up == q * unit * up + r * up;
    assert q * unit * up == q * (unit * up);
  }

  lemma SplitProduct(a: nat, unit: nat, low: nat, up: nat)
    ensures (a * unit + low) * up == a * (unit * up) + low * up
  {
    assert (a * unit + low) * up == a * unit * up + low * up;
    assert a * unit * up == a * (unit * up);
  }

  lemma ValueIs(c: byte)
    ensures Value(c) == if IsDigit(c) then Some(DigitOf(c)) else None
  {
  }

  lemma {:induction false} DecodeFromIff(text: Bytes, pending: nat, bits: nat, x: Bytes)
    requires bits < 8 && pending < Power(bits)
    ensures DecodeFrom(text, pending, bits) == Some(x) <==>
      AllDigits(text) && NumbersAgree(text, pending, bits, x)
    decreases |text|
  {
    if text == [] {
      NothingLeft(pending, bits, x);
    } else {
      ValueIs(text[0]);
      assert text == [text[0]] + text[1..];
      if IsDigit(text[0]) {
        assert AllDigits(text) <==> AllDigits(text[1..]);
        var all := pending * 32 + DigitOf(text[0]);
        TwoIsPower(bits);
        PendingIsShort(pending, DigitOf(text[0]), bits);
        if AllDigits(text) { NextDigit(text, pending, bits, x); }
        if bits + 5 < 8 {
          TwoIsPower(bits + 5);
          DecodeFromIff(text[1..], all, bits + 5, x);
        } else {
          TwoIsPower(bits - 3);
          if x != [] {
            DecodeFromIff(text[1..], Rem(all, bits - 3), bits - 3, x[1..]);
            if AllDigits(text) { NextOctet(text[1..], all, bits + 5, x); }
            assert x == [x[0]] + x[1..];
          }
        }
      }
    }
  }

  lemma NothingLeft(pending: nat, bits: nat, x: Bytes)
    requires bits < 8
    ensures NumbersAgree([], pending, bits, x) <==> x == [] && pending == 0
  {
    assert Two(0) == 1;
  }

  lemma PendingIsShort(pending: nat, v: nat, bits: nat)
    requires pending < Two(bits) && v < 32
    ensures pending * 32 + v < Two(bits + 5)
  {
    TwoSum(bits, 5);
    TwoIsPower(5);
  }

  /**
   Decoding in numbers: digits only, five bits each and eight to an octet, the
   bits left over at the end all zero.
   */
  lemma DecodesAsNumber(text: Bytes, x: Bytes)
    ensures Decode(text) == Some(x) <==>
      && AllDigits(text) && |x| == 5 * |text| / 8
      && TextNumber(text) == OctetNumber(x) * Two(5 * |text| % 8)
  {
    DecodeFromIff(text, 0, 0, x);
  }
}
