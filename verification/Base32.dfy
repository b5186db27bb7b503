/** Unpadded base32hex, as two loops over 32-bit accumulators that let their high bits drop off. */
module Base32 {
  import opened Bytes

  const U32: nat := 0x1_0000_0000

  /** 2^k for the shifts that occur. */
  function Power(k: nat): (p: nat)
    requires k <= 12
    ensures p > 0
  {
    match k
    case 0 => 1 case 1 => 2 case 2 => 4 case 3 => 8 case 4 => 16 case 5 => 32 case 6 => 64
    case 7 => 128 case 8 => 256 case 9 => 512 case 10 => 1024 case 11 => 2048 case 12 => 4096
  }

  /** `n >> k`. */
  function Quot(n: nat, k: nat): nat
    requires k <= 12
  {
    n / Power(k)
  }

  /** The lowest `k` bits of `n`. */
  function Rem(n: nat, k: nat): (r: nat)
    requires k <= 12
    ensures r < Power(k)
  {
    n % Power(k)
  }

  /** The digit for a value below 32: `0` to `9`, then `a` to `v`. */
  function Digit(v: nat): byte
    requires v < 32
  {
    if v < 10 then 48 + v else 87 + v
  }

  /** The value of a digit, in either case. */
  function Value(c: byte): Option<nat> {
    if 48 <= c <= 57 then Some(c - 48)
    else if 97 <= c <= 118 then Some(c - 97 + 10)
    else if 65 <= c <= 86 then Some(c - 65 + 10)
    else None
  }

  // ---------------------------------------------- with exact pending bits

  /** The digits for `input` when `pending`, of `bits` bits, is still to be written. */
  function EncodeFrom(input: Bytes, pending: nat, bits: nat): Bytes
    requires bits < 5 && pending < Power(bits)
    decreases |input|
  {
    if input == [] then
      if bits > 0 then [Digit(pending * Power(5 - bits))] else []
    else
      var all := pending * 256 + input[0] as int;
      var rest := Rem(all, bits + 3);
      [Digit(Quot(all, bits + 3))] +
      if bits + 3 < 5 then EncodeFrom(input[1..], rest, bits + 3)
      else [Digit(Quot(rest, bits - 2))] + EncodeFrom(input[1..], Rem(rest, bits - 2), bits - 2)
  }

  function Encode(input: Bytes): Bytes {
    EncodeFrom(input, 0, 0)
  }

  /** The octets of `text` after `pending`, of `bits` bits. */
  function DecodeFrom(text: Bytes, pending: nat, bits: nat): Option<Bytes>
    requires bits < 8 && pending < Power(bits)
    decreases |text|
  {
    if text == [] then (if pending != 0 then None else Some([]))
    else
      match Value(text[0])
      case None => None
      case Some(v) =>
        var all := pending * 32 + v;
        if bits + 5 < 8 then DecodeFrom(text[1..], all, bits + 5)
        else
          match DecodeFrom(text[1..], Rem(all, bits - 3), bits - 3)
          case None => None
          case Some(rest) => Some([Quot(all, bits - 3)] + rest)
  }

  function Decode(text: Bytes): Option<Bytes> {
    DecodeFrom(text, 0, 0)
  }

  lemma MulUpTo(k: nat, a: int, b: int)
    requires a <= b
    ensures k * a <= k * b
  {
  }

  lemma RemainderIs(n: int, d: nat, k: int, r: nat)
    requires r < d && n == d * k + r
    ensures n % d == r && n / d == k
  {
    var q := n / d;
    assert n == d * q + n % d;
    assert d * (q + 1) == d * q + d && d * (k + 1) == d * k + d;
    if q < k { MulUpTo(d, q + 1, k); }
    if q > k { MulUpTo(d, k + 1, q); }
  }

  /** Taking `c` digits of base `b` off the top commutes with forgetting what is above them. */
  lemma SplitRemainder(n: nat, b: nat, c: nat)
    requires b > 0 && c > 0
    ensures b * c > 0
    ensures n / b % c == n % (b * c) / b && n % b == n % (b * c) % b
  {
    MulUpTo(b, 1, c);
    var q, r := n / (b * c), n % (b * c);
    var s, u := r / b, r % b;
    assert n == b * c * q + r && r == b * s + u;
    assert b * c * q == b * (c * q);
    assert b * (c * q + s) == b * (c * q) + b * s;
    RemainderIs(n, b, c * q + s, u);
    if s >= c { MulUpTo(b, c, s); }
    RemainderIs(c * q + s, c, q, s);
  }

  /** Shifting and losing whole multiples of `w * p * m` leaves the remainder below `w * p` alone. */
  lemma ShiftRemainder(n: nat, w: nat, p: nat, m: nat, value: nat)
    requires w > 0 && p > 0 && w * p * m == U32 && value < w
    ensures w * p > 0
    ensures (n * w % U32 + value) % (w * p) == n % p * w + value
  {
    MulUpTo(w, 1, p);
    var q, r := n / p, n % p;
    var t := n * w / U32;
    assert n == p * q + r;
    assert n * w == w * p * q + w * r by { assert (p * q + r) * w == p * q * w + r * w; assert p * q * w == w * p * q; }
    assert n * w % U32 == n * w - t * U32;
    assert t * U32 == w * p * (m * t) by { assert w * p * m * t == w * p * (m * t); }
    assert w * p * q - w * p * (m * t) == w * p * (q - m * t);
    MulUpTo(w, r + 1, p);
    assert w * (r + 1) == w * r + w;
    RemainderIs(n * w % U32 + value, w * p, q - m * t, w * r + value);
  }

  lemma DigitValue(v: nat)
    requires v < 32
    ensures Value(Digit(v)) == Some(v)
  {
  }

  /** Five bits out of `low` and the octet `x`: what goes to the digit, and what the decoder makes of it. */
  lemma OctetSplit(bits: nat, high: nat, low: nat, x: nat)
    requires 0 < bits < 5 && low < Power(bits) && high < Power(8 - bits) && x < 256
    ensures var first := Quot(low * 256 + x, bits + 3);
      && first < 32 && Rem(low * 256 + x, bits + 3) == Rem(x, bits + 3)
      && Quot(high * 32 + first, 5 - bits) == high * Power(bits) + low < 256
      && Rem(high * 32 + first, 5 - bits) == Quot(x, bits + 3)
  {
    match bits {
      case 1 => assert (low * 256 + x) / 16 == low * 16 + x / 16;
      case 2 => assert (low * 256 + x) / 32 == low * 8 + x / 32;
      case 3 => assert (low * 256 + x) / 64 == low * 4 + x / 64;
      case 4 => assert (low * 256 + x) / 128 == low * 2 + x / 128;
    }
  }

  /** Five more bits out of what is left of the octet. */
  lemma RestSplit(bits: nat, x: nat)
    requires 2 <= bits < 5 && x < 256
    ensures var rest := Rem(x, bits + 3);
      && Quot(rest, bits - 2) < 32 && Rem(rest, bits - 2) == Rem(x, bits - 2)
      && Quot(x, bits + 3) * 32 + Quot(rest, bits - 2) == Quot(x, bits - 2)
  {
    match bits {
      case 2 => assert x / 32 * 32 + x % 32 == x;
      case 3 => assert x / 64 * 32 + x % 64 / 2 == x / 2 && x % 64 % 2 == x % 2;
      case 4 => assert x / 128 * 32 + x % 128 / 4 == x / 4 && x % 128 % 4 == x % 4;
    }
  }

  lemma QuotientParts(x: nat, bits: nat)
    requires bits <= 7 && x < 256
    ensures Quot(x, bits) * Power(bits) + Rem(x, bits) == x
    ensures Quot(x, bits) < Power(8 - bits) && Rem(x, bits) < Power(bits)
  {
    match bits {
      case 0 => case 1 => case 2 => case 3 => case 4 => case 5 => case 6 => case 7 =>
    }
  }

  /** One step of the encoder in the middle of an octet. */
  lemma EncodeStep(input: Bytes, low: nat, bits: nat)
    requires input != [] && 0 < bits < 5 && low < Power(bits)
    ensures var x := input[0] as int;
      var first := Quot(low * 256 + x, bits + 3);
      && first < 32
      && EncodeFrom(input, low, bits) == [Digit(first)] +
           if bits == 1 then EncodeFrom(input[1..], Rem(x, 4), 4)
           else [Digit(Quot(Rem(x, bits + 3), bits - 2))] + EncodeFrom(input[1..], Rem(x, bits - 2), bits - 2)
  {
    OctetSplit(bits, 0, low, input[0] as int);
    if bits > 1 { RestSplit(bits, input[0] as int); }
  }

  /** One step of the decoder. */
  lemma DecodeStep(v: nat, text: Bytes, pending: nat, bits: nat)
    requires v < 32 && bits < 8 && pending < Power(bits)
    ensures var all := pending * 32 + v;
      DecodeFrom([Digit(v)] + text, pending, bits) ==
      if bits < 3 then DecodeFrom(text, all, bits + 5)
      else Ahead([Quot(all, bits - 3)], DecodeFrom(text, Rem(all, bits - 3), bits - 3))
  {
    DigitValue(v);
    assert ([Digit(v)] + text)[1..] == text;
  }

  /** An octet from its top bits and its lowest `bits` ones. */
  function Octet(high: nat, low: nat, bits: nat): (octet: byte)
    requires 0 < bits < 5 && low < Power(bits) && high < Power(8 - bits)
  {
    OctetSplit(bits, high, low, 0);
    high * Power(bits) + low
  }

  /** The step, given that the rest of the input decodes. */
  lemma DecodeStepOne(input: Bytes, high: nat, low: nat)
    requires input != [] && low < Power(1) && high < Power(7)
    requires var x := input[0] as int;
      DecodeFrom(EncodeFrom(input[1..], Rem(x, 4), 4), Quot(x, 4), 4) == Some(input)
    ensures DecodeFrom(EncodeFrom(input, low, 1), high, 7) == Some([Octet(high, low, 1)] + input)
  {
    hide EncodeFrom, DecodeFrom, Digit;
    var x := input[0] as int;
    OctetSplit(1, high, low, x);
    EncodeStep(input, low, 1);
    DecodeStep(Quot(low * 256 + x, 4), EncodeFrom(input[1..], Rem(x, 4), 4), high, 7);
  }

  /** Two digits: the first completes an octet, the second is put aside, or completes another. */
  lemma TwoDigits(tail: Bytes, high: nat, bits: nat, first: nat, second: nat, octet: byte, top: nat)
    requires 1 < bits < 5 && high < Power(8 - bits) && first < 32 && second < 32
    requires Quot(high * 32 + first, 5 - bits) == octet as int
    requires Rem(high * 32 + first, 5 - bits) == top < Power(5 - bits)
    requires bits == 2 ==> top * 32 + second < 256
    ensures DecodeFrom([Digit(first)] + ([Digit(second)] + tail), high, 8 - bits) ==
            Ahead([octet], if bits == 2 then Ahead([top * 32 + second], DecodeFrom(tail, 0, 0))
                           else DecodeSecond(tail, top, bits, second))
  {
    hide DecodeFrom, Digit;
    DecodeStep(first, [Digit(second)] + tail, high, 8 - bits);
    DecodeStep(second, tail, top, 5 - bits);
  }

  function DecodeSecond(tail: Bytes, top: nat, bits: nat, second: nat): Option<Bytes>
    requires 2 < bits < 5 && top < Power(5 - bits) && second < 32
  {
    DecodeFrom(tail, top * 32 + second, 10 - bits)
  }

  lemma OctetDecodes(high: nat, low: nat, bits: nat, x: nat)
    requires 0 < bits < 5 && low < Power(bits) && high < Power(8 - bits) && x < 256
    ensures var first := Quot(low * 256 + x, bits + 3);
      && first < 32
      && Quot(high * 32 + first, 5 - bits) == Octet(high, low, bits) as int
      && Rem(high * 32 + first, 5 - bits) == Quot(x, bits + 3)
  {
    hide Power;
    OctetSplit(bits, high, low, x);
  }

  /** The second digit of an octet: what it is made of, and what it leaves. */
  lemma SecondDigit(bits: nat, x: nat)
    requires 1 < bits < 5 && x < 256
    ensures var second := Quot(Rem(x, bits + 3), bits - 2);
      && second < 32 && Quot(x, bits + 3) < Power(5 - bits)
      && Quot(x, bits + 3) * 32 + second == Quot(x, bits - 2)
      && Rem(x, bits - 2) < Power(bits - 2)
    ensures bits == 2 ==> Rem(x, bits - 2) == 0 && Quot(x, bits - 2) == x
  {
    RestSplit(bits, x);
    QuotientParts(x, bits + 3);
  }

  lemma DecodeStepMore(input: Bytes, high: nat, low: nat, bits: nat)
    requires input != [] && 1 < bits < 5 && low < Power(bits) && high < Power(8 - bits)
    requires var x := input[0] as int;
      var tail := EncodeFrom(input[1..], Rem(x, bits - 2), bits - 2);
      if bits == 2 then DecodeFrom(tail, 0, 0) == Some(input[1..])
      else Quot(x, bits - 2) < Power(10 - bits) && DecodeFrom(tail, Quot(x, bits - 2), 10 - bits) == Some(input)
    ensures DecodeFrom(EncodeFrom(input, low, bits), high, 8 - bits) == Some([Octet(high, low, bits)] + input)
  {
    hide EncodeFrom, DecodeFrom, Digit, Octet, Power, Quot, Rem;
    var x := input[0] as int;
    SecondDigit(bits, x);
    OctetDecodes(high, low, bits, x);
    EncodeStep(input, low, bits);
    var first := Quot(low * 256 + x, bits + 3);
    var second := Quot(Rem(x, bits + 3), bits - 2);
    var tail := EncodeFrom(input[1..], Rem(x, bits - 2), bits - 2);
    assert [Digit(first)] + ([Digit(second)] + tail) == [Digit(first)] + [Digit(second)] + tail;
    TwoDigits(tail, high, bits, first, second, Octet(high, low, bits), Quot(x, bits + 3));
    assert [x] + input[1..] == input;
  }

  /**
   The decoder lags behind the encoder by the bits of one octet: `high` are the
   bits it has seen of it, `low` the ones the encoder still holds back.
   */
  lemma {:induction false} DecodeEncodedFrom(input: Bytes, high: nat, low: nat, bits: nat)
    requires 0 < bits < 5 && low < Power(bits) && high < Power(8 - bits)
    ensures DecodeFrom(EncodeFrom(input, low, bits), high, 8 - bits) == Some([Octet(high, low, bits)] + input)
    decreases |input|
  {
    hide EncodeFrom, DecodeFrom, Digit, Power, Octet, Quot, Rem;
    PowerFacts();
    if input == [] {
      DecodeLast(high, low, bits);
    } else {
      var x := input[0] as int;
      assert [input[0]] + input[1..] == input;
      if bits == 1 {
        OctetWhole(x, 4);
        DecodeEncodedFrom(input[1..], Quot(x, 4), Rem(x, 4), 4);
        DecodeStepOne(input, high, low);
      } else {
        if bits == 2 {
          DecodeEncoded(input[1..]);
        } else {
          OctetWhole(x, bits - 2);
          DecodeEncodedFrom(input[1..], Quot(x, bits - 2), Rem(x, bits - 2), bits - 2);
        }
        DecodeStepMore(input, high, low, bits);
      }
    }
  }

  lemma OctetWhole(x: byte, bits: nat)
    requires 0 < bits < 5
    ensures Quot(x as int, bits) < Power(8 - bits) && Rem(x as int, bits) < Power(bits)
    ensures Octet(Quot(x as int, bits), Rem(x as int, bits), bits) == x
  {
    QuotientParts(x as int, bits);
  }

  /** The last digit, padded with zero bits. */
  lemma DecodeLast(high: nat, low: nat, bits: nat)
    requires 0 < bits < 5 && low < Power(bits) && high < Power(8 - bits)
    ensures DecodeFrom(EncodeFrom([], low, bits), high, 8 - bits) == Some([Octet(high, low, bits)] + [])
  {
    hide Digit;
    OctetSplit(bits, high, low, 0);
    DigitOfLow(bits, low);
    DecodeStep(low * Power(5 - bits), [], high, 8 - bits);
    assert [Digit(low * Power(5 - bits))] + [] == EncodeFrom([], low, bits);
    assert DecodeFrom([], 0, 5 - bits) == Some([]);
  }

  lemma DigitOfLow(bits: nat, low: nat)
    requires 0 < bits < 5 && low < Power(bits)
    ensures low * 256 / Power(bits + 3) == low * Power(5 - bits) < 32
  {
    match bits {
      case 1 => case 2 => case 3 => case 4 =>
    }
  }

  /** Decoding what was encoded gives it back, for every octet string. */
  lemma {:induction false} DecodeEncoded(input: Bytes)
    ensures Decode(Encode(input)) == Some(input)
    decreases |input|
  {
    hide EncodeFrom, DecodeFrom, Quot, Rem, Octet, Power, Digit;
    PowerFacts();
    NothingLeft();
    if input != [] {
      var x := input[0] as int;
      EncodeFirst(input);
      OctetWhole(x, 3);
      DecodeStep(Quot(x, 3), EncodeFrom(input[1..], Rem(x, 3), 3), 0, 0);
      DecodeEncodedFrom(input[1..], Quot(x, 3), Rem(x, 3), 3);
      assert [input[0]] + input[1..] == input;
    }
  }

  lemma NothingLeft()
    ensures Decode(Encode([])) == Some([])
  {
  }

  lemma EncodeFirst(input: Bytes)
    requires input != []
    ensures var x := input[0] as int;
      && Quot(x, 3) < 32
      && Encode(input) == [Digit(Quot(x, 3))] + EncodeFrom(input[1..], Rem(x, 3), 3)
  {
  }

  // ------------------------------------------------- with 32-bit accumulators

  /** The encoder: five bits at a time off the top of the pending ones; what is above them is stale. */
  method EncodeNoPad(input: Bytes) returns (out: Bytes)
    ensures out == Encode(input)
  {
    hide Power, Digit, EncodeFrom, Flush, Rem, Quot;
    out := [];
    var buffer, bits := 0, 0;
    FlushStart(input);
    assert input[0..] == input && out + Encode(input) == Encode(input);
    PowerFacts();
    for k := 0 to |input|
      invariant 0 <= buffer < U32 && 0 <= bits < 5
      invariant Encode(input) == out + Flush(input[k..], Rem(buffer, bits), bits)
    {
      ghost var pending := Rem(buffer, bits);
      assert input[k..][0] == input[k] && input[k..][1..] == input[k + 1..];
      FlushStep(input[k..], pending, bits);
      buffer, bits := ShiftIn(buffer, bits, 8, input[k] as int);
      while bits >= 5
        invariant 0 <= buffer < U32 && 0 <= bits <= 12
        invariant Encode(input) == out + Flush(input[k + 1..], Rem(buffer, bits), bits)
      {
        FlushOne(input[k + 1..], Rem(buffer, bits), bits);
        var index := TopDigit(buffer, bits);
        ghost var rest := Flush(input[k + 1..], Rem(buffer, bits - 5), bits - 5);
        assert out + ([Digit(index)] + rest) == out + [Digit(index)] + rest;
        out := out + [Digit(index)];
        bits := bits - 5;
      }
    }
    FlushNothing(Rem(buffer, bits), bits);
    assert input[|input|..] == [] && out + [] == out;
    if bits > 0 {
      LastDigit(buffer, bits);
      out := out + [Digit(buffer * Power(5 - bits) % 32)];
    }
  }

  lemma PowerFacts()
    ensures Power(0) == 1 && Power(1) == 2 && Power(4) == 16 && Power(5) == 32 && Power(7) == 128 && Power(8) == 256
  {
  }

  lemma LastDigit(buffer: nat, bits: nat)
    requires 0 < bits < 5
    ensures buffer * Power(5 - bits) % 32 == Rem(buffer, bits) * Power(5 - bits)
  {
    match bits {
      case 1 => RemainderIs(buffer * 16, 32, buffer / 2, buffer % 2 * 16);
      case 2 => RemainderIs(buffer * 8, 32, buffer / 4, buffer % 4 * 8);
      case 3 => RemainderIs(buffer * 4, 32, buffer / 8, buffer % 8 * 4);
      case 4 => RemainderIs(buffer * 2, 32, buffer / 16, buffer % 16 * 2);
    }
  }

  /** `EncodeFrom` with any number of pending bits up to twelve. */
  ghost function Flush(input: Bytes, pending: nat, bits: nat): Bytes
    requires bits <= 12 && pending < Power(bits)
    decreases bits
  {
    if bits < 5 then EncodeFrom(input, pending, bits)
    else
      FlushDigit(pending, bits);
      [Digit(Quot(pending, bits - 5))] + Flush(input, Rem(pending, bits - 5), bits - 5)
  }

  lemma FlushNothing(pending: nat, bits: nat)
    requires bits < 5 && pending < Power(bits)
    ensures bits > 0 ==> pending * Power(5 - bits) < 32
    ensures Flush([], pending, bits) == if bits > 0 then [Digit(pending * Power(5 - bits))] else []
  {
  }

  lemma FlushStart(input: Bytes)
    ensures Rem(0, 0) == 0 && Encode(input) == Flush(input, Rem(0, 0), 0)
  {
  }

  lemma FlushOne(input: Bytes, pending: nat, bits: nat)
    requires 5 <= bits <= 12 && pending < Power(bits)
    ensures Quot(pending, bits - 5) < 32
    ensures Flush(input, pending, bits) ==
            [Digit(Quot(pending, bits - 5))] + Flush(input, Rem(pending, bits - 5), bits - 5)
  {
    hide Power, Digit, EncodeFrom;
    FlushDigit(pending, bits);
  }

  lemma FlushDigit(pending: nat, bits: nat)
    requires 5 <= bits <= 12 && pending < Power(bits)
    ensures Quot(pending, bits - 5) < 32 && Rem(pending, bits - 5) < Power(bits - 5)
  {
    match bits {
      case 5 => case 6 => case 7 => case 8 => case 9 => case 10 => case 11 => case 12 =>
    }
  }

  lemma FlushStep(input: Bytes, pending: nat, bits: nat)
    requires input != [] && bits < 5 && pending < Power(bits)
    ensures pending * 256 + input[0] as int < Power(bits + 8)
    ensures Flush(input, pending, bits) == Flush(input[1..], pending * 256 + input[0] as int, bits + 8)
  {
    match bits {
      case 0 => case 1 => case 2 => case 3 => case 4 =>
    }
  }

  /** Shift left by `width`, let the overflow go, and fill in `value`: the pending bits only grow. */
  method ShiftIn(buffer: nat, bits: nat, width: nat, value: nat) returns (buffer': nat, bits': nat)
    requires buffer < U32 && (width == 5 || width == 8) && value < Power(width) && bits + width <= 12
    ensures buffer' < U32 && bits' == bits + width
    ensures Rem(buffer', bits') == Rem(buffer, bits) * Power(width) + value
  {
    buffer' := buffer * Power(width) % U32 + value;
    bits' := bits + width;
    ShiftKeepsPending(buffer, bits, width, value);
  }

  lemma ShiftKeepsPending(buffer: nat, bits: nat, width: nat, value: nat)
    requires buffer < U32 && (width == 5 || width == 8) && value < Power(width) && bits + width <= 12
    ensures buffer * Power(width) % U32 + value < U32
    ensures Rem(buffer * Power(width) % U32 + value, bits + width) == Rem(buffer, bits) * Power(width) + value
  {
    hide Power, Rem;
    PowerSum(bits, width);
    var w, p, m := Power(width), Power(bits), Above(bits + width);
    ShiftRemainder(buffer, w, p, m, value);
    ShiftFits(buffer, w, p * m, value);
    RemIs(buffer, bits);
    RemIs(buffer * w % U32 + value, bits + width);
  }

  lemma RemIs(n: nat, k: nat)
    requires k <= 12
    ensures Rem(n, k) == n % Power(k)
  {
  }

  /** What is shifted is a multiple of `w`, so there is room for a value below `w`. */
  lemma ShiftFits(n: nat, w: nat, q: nat, value: nat)
    requires w > 0 && w * q == U32 && value < w
    ensures n * w % U32 + value < U32
  {
    var t := n * w / U32;
    assert n * w % U32 == n * w - t * U32 == w * (n - q * t) by {
      assert t * U32 == w * (q * t) by { assert w * q * t == w * (q * t); }
      assert w * n - w * (q * t) == w * (n - q * t);
    }
    if n - q * t >= q { MulUpTo(w, q, n - q * t); }
    MulUpTo(w, n - q * t + 1, q);
    assert w * (n - q * t + 1) == w * (n - q * t) + w;
  }

  /** 2^(32 - k). */
  function Above(k: nat): nat
    requires 5 <= k <= 12
  {
    match k
    case 5 => 0x800_0000 case 6 => 0x400_0000 case 7 => 0x200_0000 case 8 => 0x100_0000 case 9 => 0x80_0000
    case 10 => 0x40_0000 case 11 => 0x20_0000 case 12 => 0x10_0000
  }

  lemma PowerSum(bits: nat, width: nat)
    requires (width == 5 || width == 8) && bits + width <= 12
    ensures Power(bits + width) == Power(width) * Power(bits)
    ensures Power(width) * Power(bits) * Above(bits + width) == U32
    ensures Power(width) * (Power(bits) * Above(bits + width)) == U32
  {
    match bits {
      case 0 => case 1 => case 2 => case 3 => case 4 => case 5 => case 6 => case 7 =>
    }
  }

  /** The top five of the pending bits, by shift and mask. */
  method TopDigit(buffer: nat, bits: nat) returns (index: nat)
    requires 5 <= bits <= 12
    ensures index < 32
    ensures index == Quot(Rem(buffer, bits), bits - 5)
    ensures Rem(buffer, bits - 5) == Rem(Rem(buffer, bits), bits - 5)
  {
    hide Power;
    PowerFacts();
    PowerSum(bits - 5, 5);
    SplitRemainder(buffer, Power(bits - 5), 32);
    index := Quot(buffer, bits - 5) % 32;
  }

  method DecodeNoPad(text: Bytes) returns (r: Option<Bytes>)
    ensures r == Decode(text)
  {
    hide Power, Value;
    PowerFacts();
    var out: Bytes := [];
    var buffer, bits := 0, 0;
    assert text[0..] == text;
    assert forall rest: Bytes :: [] + rest == rest;
    for k := 0 to |text|
      invariant 0 <= buffer < U32 && 0 <= bits < 8
      invariant Decode(text) == Ahead(out, DecodeFrom(text[k..], Rem(buffer, bits), bits))
    {
      assert text[k..][0] == text[k] && text[k..][1..] == text[k + 1..];
      var value := Value(text[k]);
      if value.None? {
        return None;
      }
      ghost var pending, had := Rem(buffer, bits), bits;
      PendingFits(buffer, bits);
      ValueFits(text[k]);
      DecodeOne(text[k..], value.value, pending, bits);
      buffer, bits := ShiftIn(buffer, bits, 5, value.value);
      if bits >= 8 {
        bits := bits - 8;
        var octet := Quot(buffer, bits) % 256;
        OctetOut(buffer, bits);
        ghost var rest := DecodeFrom(text[k + 1..], Rem(buffer, bits), bits);
        assert rest.Some? ==> out + ([octet] + rest.value) == out + [octet] + rest.value;
        out := out + [octet];
      }
    }
    if bits > 0 && Rem(buffer, bits) != 0 {
      return None;
    }
    assert out + [] == out;
    r := Some(out);
  }

  function Ahead(out: Bytes, rest: Option<Bytes>): Option<Bytes> {
    if rest.None? then None else Some(out + rest.value)
  }

  lemma ValueFits(c: byte)
    ensures Value(c).Some? ==> Value(c).value < 32
  {
  }

  lemma PendingFits(buffer: nat, bits: nat)
    requires bits < 8
    ensures Rem(buffer, bits) < Power(bits)
  {
  }

  lemma DecodeOne(text: Bytes, v: nat, pending: nat, bits: nat)
    requires text != [] && Value(text[0]) == Some(v) && bits < 8 && pending < Power(bits)
    ensures var all := pending * 32 + v;
      DecodeFrom(text, pending, bits) ==
      if bits < 3 then DecodeFrom(text[1..], all, bits + 5)
      else Ahead([Quot(all, bits - 3)], DecodeFrom(text[1..], Rem(all, bits - 3), bits - 3))
  {
  }

  lemma OctetOut(buffer: nat, bits: nat)
    requires bits <= 4
    ensures Quot(buffer, bits) % 256 == Quot(Rem(buffer, bits + 8), bits)
    ensures Rem(buffer, bits) == Rem(Rem(buffer, bits + 8), bits)
  {
    hide Power;
    PowerFacts();
    PowerSum(bits, 8);
    SplitRemainder(buffer, Power(bits), 256);
  }
}
