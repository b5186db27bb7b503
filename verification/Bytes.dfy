/** Octets, hashes and the small result types every other module uses. */
module Bytes {

  datatype Option<+T> = None | Some(value: T)

  datatype Result<+T, +E> = Ok(value: T) | Err(error: E) {
    predicate IsFailure() { Err? }

    function PropagateFailure<U>(): Result<U, E>
      requires Err?
    {
      Err(error)
    }

    function Extract(): T
      requires Ok?
    {
      value
    }
  }

  /** Why octets could not be read. */
  datatype ParseError =
    | UnexpectedEof
    | TrailingBytes
    | LengthLimit
    | InvalidDnsLabel
    | InvalidDnsPointer
    | InvalidSvcb

  type u16 = n: nat | n < 0x1_0000

  type u32 = n: nat | n < 0x1_0000_0000

  type u64 = n: nat | n < 0x1_0000_0000_0000_0000

  type byte = b: int | 0 <= b < 256

  type Bytes = seq<byte>

  /** A 32-octet digest. */
  type Hash = h: Bytes | |h| == 32 witness Zeros(32)

  const ZERO_HASH: Hash := Zeros(32)

  function Zeros(n: nat): (s: Bytes)
    ensures |s| == n && forall i :: 0 <= i < n ==> s[i] == 0
  {
    if n == 0 then [] else [0] + Zeros(n - 1)
  }

  /** `n >> k`. */
  function ShiftRight(n: nat, k: nat): nat {
    if k == 0 then n else ShiftRight(n / 2, k - 1)
  }

  /** Bit `index` of `key`, most significant bit of octet 0 first; 0 past the end. */
  predicate HasBit(key: Bytes, index: nat) {
    var b := if index / 8 < |key| then key[index / 8] else 0;
    ShiftRight(b, 7 - index % 8) % 2 == 1
  }

  /** The same, in numbers: the eight bits of an octet weigh 128 down to 1. */
  ghost predicate BitSet(s: Bytes, i: nat) {
    i / 8 < |s| && s[i / 8] as int / [128, 64, 32, 16, 8, 4, 2, 1][i % 8] % 2 == 1
  }

  lemma BitsAreNumbered(s: Bytes, i: nat)
    ensures HasBit(s, i) <==> BitSet(s, i)
  {
    hide ShiftRight;
    ShiftsDivide(if i / 8 < |s| then s[i / 8] as int else 0);
  }

  lemma {:induction false} ShiftLast(n: nat, k: nat)
    ensures ShiftRight(n, k + 1) == ShiftRight(n, k) / 2
  {
    if k > 0 { ShiftLast(n / 2, k - 1); }
  }

  lemma ShiftsDivide(n: nat)
    ensures ShiftRight(n, 0) == n && ShiftRight(n, 1) == n / 2 && ShiftRight(n, 2) == n / 4
    ensures ShiftRight(n, 3) == n / 8 && ShiftRight(n, 4) == n / 16 && ShiftRight(n, 5) == n / 32
    ensures ShiftRight(n, 6) == n / 64 && ShiftRight(n, 7) == n / 128
  {
    assert ShiftRight(n, 0) == n;
    hide ShiftRight;
    ShiftLast(n, 0);
    ShiftLast(n, 1);
    ShiftLast(n, 2);
    ShiftLast(n, 3);
    ShiftLast(n, 4);
    ShiftLast(n, 5);
    ShiftLast(n, 6);
  }

  /** The two low octets of a number, whether the rest is cut off first or not. */
  lemma LowOctets(n: nat)
    ensures n % 0x1_0000 % 256 == n % 256 && n % 0x1_0000 / 256 == n / 256 % 256
  {
    var (q, high, low) := (n / 0x1_0000, n % 0x1_0000 / 256, n % 256);
    Places(q, high, low);
    assert n == (q * 256 + high) * 256 + n % 0x1_0000 % 256;
    Places(q, high, n % 0x1_0000 % 256);
  }

  lemma Places(q: nat, high: nat, low: nat)
    requires high < 256 && low < 256
    ensures ((q * 256 + high) * 256 + low) % 256 == low && ((q * 256 + high) * 256 + low) / 256 % 256 == high
  {
    assert ((q * 256 + high) * 256 + low) / 256 == q * 256 + high;
  }

  function LittleEndian16(n: nat): (s: Bytes)
    requires n < 0x1_0000
    ensures |s| == 2 && s[0] as int + 256 * (s[1] as int) == n
  {
    [n % 256, n / 256]
  }

  /** Number of octets that hold `bits` bits. */
  function OctetsFor(bits: nat): nat {
    (bits + 7) / 8
  }
}
