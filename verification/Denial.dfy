/** Denial-of-existence records: type bitmaps, NSEC and NSEC3 data, and the arcs they cover. */
module Denial {
  import opened Bytes
  import opened Order
  import opened DnsName
  import opened DnsWire
  import opened NameLayout

  datatype DnssecStatus = Secure | InsecureDelegation | Bogus

  datatype DnssecError =
    | InvalidDnskey
    | InvalidDs
    | UnsupportedDigest
    | NameEncoding
    | InvalidRrsig
    | InvalidNsec
    | InvalidNsec3
    | InvalidRrset
    | UnsupportedCanonicalRdata
    | SignatureOutsideValidity
    | UnsupportedAlgorithm
    | InvalidSignature

  // ------------------------------------------------------------ type bitmaps

  /** Windows of 1 to 32 octets, their numbers rising from above `previous`. */
  predicate ValidBitMaps(maps: Bytes, previous: int)
    decreases |maps|
  {
    maps == [] ||
    (|maps| >= 2 && 1 <= maps[1] <= 32 && 2 + maps[1] as int <= |maps| && maps[0] as int > previous &&
     ValidBitMaps(maps[2 + maps[1] as int..], maps[0] as int))
  }

  /** Some window lists the type with this code. */
  ghost predicate Lists(maps: Bytes, code: u16)
    decreases |maps|
  {
    |maps| >= 2 && maps[1] >= 1 && 2 + maps[1] as int <= |maps| &&
    ((maps[0] as int == code / 256 && HasBit(maps[2..2 + maps[1] as int], code % 256)) ||
     Lists(maps[2 + maps[1] as int..], code))
  }

  /** The window scan, one window after the other. */
  method ValidateBitMaps(maps: Bytes) returns (ok: bool)
    ensures ok <==> ValidBitMaps(maps, -1)
  {
    var cursor, previous := 0, -1;
    assert maps[0..] == maps;
    while cursor < |maps|
      invariant 0 <= cursor <= |maps|
      invariant ValidBitMaps(maps, -1) <==> ValidBitMaps(maps[cursor..], previous)
    {
      if cursor + 2 > |maps| {
        return false;
      }
      var window, length := maps[cursor] as int, maps[cursor + 1] as int;
      assert maps[cursor..][0] as int == window && maps[cursor..][1] as int == length;
      if length == 0 || length > 32 || cursor + 2 + length > |maps| {
        return false;
      }
      if window <= previous {
        return false;
      }
      assert maps[cursor..][2 + length..] == maps[cursor + 2 + length..];
      previous := window;
      cursor := cursor + 2 + length;
    }
    ok := true;
  }

  /** No window up to `previous` is left to list anything. */
  lemma {:induction false} NoEarlierWindow(maps: Bytes, previous: int, code: u16)
    requires ValidBitMaps(maps, previous) && code / 256 <= previous
    ensures !Lists(maps, code)
    decreases |maps|
  {
    hide HasBit;
    if maps != [] {
      NoEarlierWindow(maps[2 + maps[1] as int..], maps[0] as int, code);
    }
  }

  /** The lookup stops at the first window with the right number; rising numbers make that enough. */
  method BitMapsContain(maps: Bytes, code: u16) returns (r: Result<bool, DnssecError>)
    ensures !ValidBitMaps(maps, -1) ==> r == Err(InvalidNsec)
    ensures ValidBitMaps(maps, -1) ==> r.Ok? && (r.value <==> Lists(maps, code))
  {
    var ok := ValidateBitMaps(maps);
    if !ok {
      return Err(InvalidNsec);
    }
    hide ValidBitMaps, Lists, HasBit, BitAt;
    var (wanted, bit) := (code / 256, code % 256);
    var cursor := 0;
    ghost var (previous, listed) := (-1, Lists(maps, code));
    assert maps[0..] == maps;
    while cursor < |maps|
      invariant 0 <= cursor <= |maps| && ValidBitMaps(maps[cursor..], previous)
      invariant Lists(maps[cursor..], code) == listed
    {
      WindowAt(maps, cursor, previous, code);
      var window, end := maps[cursor] as int, cursor + 2 + maps[cursor + 1] as int;
      if window == wanted {
        return Ok(BitAt(maps[cursor + 2..end], bit));
      }
      previous, cursor := window, end;
    }
    NothingListed(code);
    r := Ok(false);
  }

  lemma NothingListed(code: u16)
    ensures !Lists([], code)
  {
  }

  /** What the first window settles: all there is to know about its own types, nothing about others. */
  lemma FirstWindow(maps: Bytes, previous: int, code: u16)
    requires ValidBitMaps(maps, previous) && maps != []
    ensures |maps| >= 2 && 2 + maps[1] as int <= |maps| && ValidBitMaps(maps[2 + maps[1] as int..], maps[0] as int)
    ensures Lists(maps, code) <==>
      if maps[0] as int == code / 256 then HasBit(maps[2..2 + maps[1] as int], code % 256)
      else Lists(maps[2 + maps[1] as int..], code)
  {
    hide HasBit;
    if maps[0] as int == code / 256 { NoEarlierWindow(maps[2 + maps[1] as int..], maps[0] as int, code); }
  }

  lemma WindowAt(maps: Bytes, cursor: nat, previous: int, code: u16)
    requires cursor < |maps| && ValidBitMaps(maps[cursor..], previous)
    ensures cursor + 2 <= |maps| && cursor + 2 + maps[cursor + 1] as int <= |maps|
    ensures ValidBitMaps(maps[cursor + 2 + maps[cursor + 1] as int..], maps[cursor] as int)
    ensures Lists(maps[cursor..], code) <==>
      if maps[cursor] as int == code / 256
      then HasBit(maps[cursor + 2..cursor + 2 + maps[cursor + 1] as int], code % 256)
      else Lists(maps[cursor + 2 + maps[cursor + 1] as int..], code)
  {
    hide ValidBitMaps, Lists, HasBit;
    var rest := maps[cursor..];
    FirstWindow(rest, previous, code);
    var length := maps[cursor + 1] as int;
    assert rest[0] == maps[cursor] && rest[1] as int == length;
    assert rest[2..2 + length] == maps[cursor + 2..cursor + 2 + length];
    assert rest[2 + length..] == maps[cursor + 2 + length..];
  }

  /** The bit, looked up only if the octet that holds it is there. */
  predicate BitAt(block: Bytes, index: nat)
    ensures BitAt(block, index) <==> HasBit(block, index)
  {
    if index / 8 >= |block| then
      NoBitPastEnd(block, index);
      false
    else ShiftRight(block[index / 8] as int, 7 - index % 8) % 2 == 1
  }

  lemma NoBitPastEnd(s: Bytes, index: nat)
    requires index / 8 >= |s|
    ensures !HasBit(s, index)
  {
    ZeroShifts(7 - index % 8);
  }

  lemma {:induction false} ZeroShifts(k: nat)
    ensures ShiftRight(0, k) == 0
  {
    if k > 0 { ZeroShifts(k - 1); }
  }

  // ------------------------------------------------- bitmaps, octet by octet

  /** A window: 256 types share its number, and its block of 1 to 32 octets has a bit for each. */
  datatype Window = Window(number: byte, block: Bytes)

  ghost predicate Rising(windows: seq<Window>, previous: int) {
    windows == [] ||
    (&& windows[0].number as int > previous && 1 <= |windows[0].block| <= 32
     && Rising(windows[1..], windows[0].number as int))
  }

  /** Number, length and block of each window, one behind the other. */
  ghost function Spread(windows: seq<Window>): Bytes {
    if windows == [] then []
    else [windows[0].number, |windows[0].block| % 256] + windows[0].block + Spread(windows[1..])
  }

  /** The bit of the type is set in the window of its number. */
  ghost predicate Shows(windows: seq<Window>, code: u16) {
    exists w: Window :: w in windows && w.number as int == code / 256 && BitSet(w.block, code % 256)
  }

  lemma SpreadCons(first: Window, rest: seq<Window>, previous: int)
    requires |first.block| <= 32
    ensures Spread([first] + rest) == [first.number, |first.block|] + first.block + Spread(rest)
    ensures Rising([first] + rest, previous) <==>
      first.number as int > previous && |first.block| >= 1 && Rising(rest, first.number as int)
  {
    assert ([first] + rest)[1..] == rest;
  }

  lemma FrontWindow(maps: Bytes, previous: int) returns (first: Window, later: Bytes)
    requires maps != [] && ValidBitMaps(maps, previous)
    ensures first.number as int > previous && 1 <= |first.block| <= 32 && |later| < |maps|
    ensures ValidBitMaps(later, first.number as int)
    ensures maps == [first.number, |first.block|] + first.block + later
  {
    var n := maps[1] as int;
    first, later := Window(maps[0], maps[2..2 + n]), maps[2 + n..];
  }

  lemma {:induction false} MapsAreWindows(maps: Bytes, previous: int) returns (windows: seq<Window>)
    requires ValidBitMaps(maps, previous)
    ensures Rising(windows, previous) && maps == Spread(windows)
    decreases |maps|
  {
    windows := [];
    if maps != [] {
      hide ValidBitMaps, Rising, Spread;
      var first, later := FrontWindow(maps, previous);
      var rest := MapsAreWindows(later, first.number as int);
      windows := [first] + rest;
      SpreadCons(first, rest, previous);
    }
  }

  lemma SpreadSplits(windows: seq<Window>)
    requires windows != [] && |windows[0].block| < 256
    ensures var (maps, w) := (Spread(windows), windows[0]);
      && |maps| >= 2 + |w.block| && maps[0] == w.number && maps[1] as int == |w.block|
      && maps[2..2 + |w.block|] == w.block && maps[2 + |w.block|..] == Spread(windows[1..])
  {
    var (maps, w) := (Spread(windows), windows[0]);
    assert maps == [w.number, |w.block|] + w.block + Spread(windows[1..]);
  }

  lemma {:induction false} WindowsAreMaps(windows: seq<Window>, previous: int, code: u16)
    requires Rising(windows, previous)
    ensures ValidBitMaps(Spread(windows), previous)
    ensures Lists(Spread(windows), code) <==> Shows(windows, code)
    decreases |windows|
  {
    if windows != [] {
      var (maps, w) := (Spread(windows), windows[0]);
      WindowsAreMaps(windows[1..], w.number as int, code);
      SpreadSplits(windows);
      BitsAreNumbered(w.block, code % 256);
      assert windows == [w] + windows[1..];
      hide BitSet, HasBit, Spread;
    }
  }

  /** Bitmaps are accepted exactly if they are windows of rising numbers, and then list the types whose bits are set. */
  lemma BitMapsAre(maps: Bytes, code: u16)
    ensures ValidBitMaps(maps, -1) <==> exists windows :: Rising(windows, -1) && maps == Spread(windows)
    ensures forall windows :: Rising(windows, -1) && maps == Spread(windows) ==>
      (Lists(maps, code) <==> Shows(windows, code))
  {
    hide ValidBitMaps, Lists, Shows, Spread, Rising;
    if ValidBitMaps(maps, -1) { var windows := MapsAreWindows(maps, -1); }
    forall windows | Rising(windows, -1) && maps == Spread(windows)
      ensures ValidBitMaps(maps, -1)
      ensures Lists(maps, code) <==> Shows(windows, code)
    {
      WindowsAreMaps(windows, -1, code);
    }
  }

  // ------------------------------------------------------------- record data

  datatype NsecData = NsecData(next: Name, types: Bytes)

  function ParseNsec(r: ResourceRecord): Result<NsecData, DnssecError> {
    if r.recordType != Nsec then Err(InvalidNsec)
    else
      match ParseName(r.rdata, 0)
      case Err(_) => Err(InvalidNsec)
      case Ok((next, cursor)) =>
        if cursor >= |r.rdata| || !ValidBitMaps(r.rdata[cursor..], -1) then Err(InvalidNsec)
        else Ok(NsecData(next, r.rdata[cursor..]))
  }

  datatype Nsec3Data = Nsec3Data(algorithm: byte, flags: byte, iterations: u16, salt: Bytes, next: Bytes, types: Bytes)

  const NSEC3_HASH_SHA1: byte := 1
  const NSEC3_MAX_ITERATIONS: nat := 2500

  function ParseNsec3(r: ResourceRecord): Result<Nsec3Data, DnssecError> {
    var d := r.rdata;
    if r.recordType != Nsec3 || |d| < 6 then Err(InvalidNsec3)
    else
      var saltEnd := 5 + d[4] as int;
      if saltEnd >= |d| then Err(InvalidNsec3)
      else
        var hashEnd := saltEnd + 1 + d[saltEnd] as int;
        if d[saltEnd] == 0 || hashEnd > |d| || !ValidBitMaps(d[hashEnd..], -1) then Err(InvalidNsec3)
        else Ok(Nsec3Data(d[0], d[1], Read16(d, 2), d[5..saltEnd], d[saltEnd + 1..hashEnd], d[hashEnd..]))
  }

  /** The next name, written out without pointers or with, and type bitmaps that are not empty. */
  lemma NsecIff(r: ResourceRecord, n: NsecData)
    ensures ParseNsec(r) == Ok(n) <==>
      && r.recordType == Nsec
      && exists end: nat :: ParseName(r.rdata, 0) == Ok((n.next, end)) && end < |r.rdata| &&
           n.types == r.rdata[end..] && ValidBitMaps(n.types, -1)
    ensures ParseNsec(r).Err? ==> ParseNsec(r) == Err(InvalidNsec)
  {
    hide ParseName, ValidBitMaps;
  }

  /** Algorithm, flags, iterations in two octets, salt behind its length, next hash behind its length, type bitmaps. */
  lemma Nsec3Iff(r: ResourceRecord, n: Nsec3Data)
    ensures ParseNsec3(r) == Ok(n) <==>
      && r.recordType == Nsec3 && |n.salt| <= 255 && 1 <= |n.next| <= 255 && ValidBitMaps(n.types, -1)
      && r.rdata == [n.algorithm, n.flags, n.iterations / 256, n.iterations % 256, |n.salt|] + n.salt +
                    [|n.next|] + n.next + n.types
    ensures ParseNsec3(r).Err? ==> ParseNsec3(r) == Err(InvalidNsec3)
  {
    hide ValidBitMaps;
    var d := r.rdata;
    if ParseNsec3(r) == Ok(n) { Nsec3Whole(d, 5 + d[4] as int); }
    if |n.salt| <= 255 && 1 <= |n.next| <= 255 &&
       d == [n.algorithm, n.flags, n.iterations / 256, n.iterations % 256, |n.salt|] + n.salt + [|n.next|] + n.next +
            n.types
    {
      Nsec3Parts(d, n);
    }
  }

  lemma Nsec3Whole(d: Bytes, saltEnd: nat)
    requires 5 <= saltEnd < |d| && saltEnd + 1 + d[saltEnd] as int <= |d|
    ensures var hashEnd := saltEnd + 1 + d[saltEnd] as int;
      d == [d[0], d[1], d[2], d[3], d[4]] + d[5..saltEnd] + [d[saltEnd]] + d[saltEnd + 1..hashEnd] + d[hashEnd..]
  {
  }

  lemma Nsec3Parts(d: Bytes, n: Nsec3Data)
    requires |n.salt| <= 255 && 1 <= |n.next| <= 255
    requires d == [n.algorithm, n.flags, n.iterations / 256, n.iterations % 256, |n.salt|] + n.salt +
                  [|n.next|] + n.next + n.types
    ensures var saltEnd := 5 + |n.salt|;
      var hashEnd := saltEnd + 1 + |n.next|;
      && hashEnd <= |d| && d[0] == n.algorithm && d[1] == n.flags && Read16(d, 2) == n.iterations
      && d[4] as int == |n.salt| && d[5..saltEnd] == n.salt && d[saltEnd] as int == |n.next|
      && d[saltEnd + 1..hashEnd] == n.next && d[hashEnd..] == n.types
  {
  }

  predicate IsOptOut(n: Nsec3Data) { n.flags % 2 == 1 }

  /** SHA-1, and no flag but opt-out. */
  predicate IsUsable(n: Nsec3Data) { n.algorithm == NSEC3_HASH_SHA1 && n.flags <= 1 }

  predicate SameParams(a: Nsec3Data, b: Nsec3Data) {
    a.algorithm == b.algorithm && a.iterations == b.iterations && a.salt == b.salt
  }

  /** Read off the record: opt-out is the last bit of the second octet; usable are algorithm 1 and no other flag. */
  lemma FlagsAre(r: ResourceRecord, n: Nsec3Data)
    requires ParseNsec3(r) == Ok(n)
    ensures |r.rdata| >= 6
    ensures IsOptOut(n) <==> BitSet(r.rdata, 15)
    ensures IsUsable(n) <==> r.rdata[0] == 1 && r.rdata[1] in {0, 1}
  {
    hide ParseNsec3, BitSet;
    Nsec3Iff(r, n);
    BitsAreNumbered(r.rdata, 15);
    hide HasBit;
  }

  /** Two records have the same parameters if they agree in the first octet, and from the third to the end of the
      salt. */
  lemma ParametersAre(r: ResourceRecord, n: Nsec3Data, other: ResourceRecord, m: Nsec3Data)
    requires ParseNsec3(r) == Ok(n) && ParseNsec3(other) == Ok(m)
    ensures |r.rdata| >= 5 + |n.salt| && |other.rdata| >= 5 + |m.salt|
    ensures SameParams(n, m) <==>
      r.rdata[0] == other.rdata[0] && r.rdata[2..5 + |n.salt|] == other.rdata[2..5 + |m.salt|]
  {
    ParametersIn(r, n);
    ParametersIn(other, m);
    hide ParseNsec3;
    var a, b := r.rdata[2..5 + |n.salt|], other.rdata[2..5 + |m.salt|];
    if a == b {
      assert a[0] == b[0] && a[1] == b[1];
      assert n.salt == a[3..] == b[3..] == m.salt;
    }
  }

  lemma ParametersIn(r: ResourceRecord, n: Nsec3Data)
    requires ParseNsec3(r) == Ok(n)
    ensures |r.rdata| >= 5 + |n.salt| && r.rdata[0] == n.algorithm
    ensures r.rdata[2..5 + |n.salt|] == [n.iterations / 256, n.iterations % 256, |n.salt|] + n.salt
  {
    Nsec3Iff(r, n);
    hide ParseNsec3, ValidBitMaps;
    var front, back := [n.algorithm, n.flags, n.iterations / 256, n.iterations % 256, |n.salt|], [|n.next|] + n.next;
    assert r.rdata == front + n.salt + (back + n.types);
    assert r.rdata[2..5 + |n.salt|] == (front + n.salt)[2..];
  }

  // ------------------------------------------------------------------- hashing

  /** SHA-1, an unknown function of the octets hashed. */
  type Sha1 = Bytes -> Bytes

  function Rehash(sha1: Sha1, hash: Bytes, salt: Bytes, times: nat): Bytes
    decreases times
  {
    if times == 0 then hash else Rehash(sha1, sha1(hash + salt), salt, times - 1)
  }

  /** The salted, iterated hash of a name. */
  function NameHash(sha1: Sha1, name: Name, iterations: nat, salt: Bytes): Bytes {
    Rehash(sha1, sha1(WriteName(name) + salt), salt, iterations)
  }

  function Nsec3Hash(sha1: Sha1, name: Name, n: Nsec3Data): Result<Bytes, DnssecError> {
    if n.algorithm != NSEC3_HASH_SHA1 then Err(UnsupportedDigest)
    else if n.iterations > NSEC3_MAX_ITERATIONS then Err(InvalidNsec3)
    else if EncodeName(name).Err? then Err(NameEncoding)
    else Ok(NameHash(sha1, name, n.iterations, n.salt))
  }

  /** Hashed with the salt behind it once, and then, with the salt behind each result, `times` times more. */
  ghost predicate IsIterated(sha1: Sha1, wire: Bytes, salt: Bytes, times: nat, hash: Bytes) {
    exists rounds: seq<Bytes> ::
      && |rounds| == times + 1 && rounds[0] == sha1(wire + salt)
      && (forall k :: 0 < k <= times ==> rounds[k] == sha1(rounds[k - 1] + salt))
      && hash == rounds[times]
  }

  lemma {:induction false} RehashRounds(sha1: Sha1, rounds: seq<Bytes>, salt: Bytes, k: nat)
    requires k < |rounds| && forall i :: 0 < i < |rounds| ==> rounds[i] == sha1(rounds[i - 1] + salt)
    ensures Rehash(sha1, rounds[k], salt, |rounds| - 1 - k) == rounds[|rounds| - 1]
    decreases |rounds| - k
  {
    if k + 1 < |rounds| { RehashRounds(sha1, rounds, salt, k + 1); }
  }

  lemma {:induction false} RoundsOf(sha1: Sha1, first: Bytes, salt: Bytes, times: nat) returns (rounds: seq<Bytes>)
    ensures |rounds| == times + 1 && rounds[0] == first && rounds[times] == Rehash(sha1, first, salt, times)
    ensures forall k :: 0 < k <= times ==> rounds[k] == sha1(rounds[k - 1] + salt)
    decreases times
  {
    rounds := [first];
    if times > 0 {
      var later := RoundsOf(sha1, sha1(first + salt), salt, times - 1);
      rounds := [first] + later;
    }
  }

  /** The hash of a name (section 5 of RFC 5155), with the one algorithm and the limit of iterations supported. */
  lemma Nsec3HashIff(sha1: Sha1, name: Name, n: Nsec3Data, hash: Bytes)
    ensures Nsec3Hash(sha1, name, n) == Ok(hash) <==>
      && n.algorithm == 1 && n.iterations <= 2500 && (forall part :: part in name ==> |part| <= 63)
      && IsIterated(sha1, Laid(name) + [0], n.salt, n.iterations, hash)
    ensures Nsec3Hash(sha1, name, n).Err? ==>
      Nsec3Hash(sha1, name, n).error ==
      if n.algorithm != 1 then UnsupportedDigest else if n.iterations > 2500 then InvalidNsec3 else NameEncoding
  {
    hide Rehash, Laid, WriteName;
    WrittenIsLaid(name);
    var first := sha1(WriteName(name) + n.salt);
    var rounds := RoundsOf(sha1, first, n.salt, n.iterations);
    if IsIterated(sha1, Laid(name) + [0], n.salt, n.iterations, hash) {
      var others: seq<Bytes> :| |others| == n.iterations + 1 && others[0] == sha1(Laid(name) + [0] + n.salt) &&
        (forall k :: 0 < k <= n.iterations ==> others[k] == sha1(others[k - 1] + n.salt)) &&
        hash == others[n.iterations];
      RehashRounds(sha1, others, n.salt, 0);
    }
  }

  /** The hash, round after round. */
  method HashName(sha1: Sha1, name: Name, n: Nsec3Data) returns (r: Result<Bytes, DnssecError>)
    ensures r == Nsec3Hash(sha1, name, n)
  {
    if n.algorithm != NSEC3_HASH_SHA1 {
      return Err(UnsupportedDigest);
    }
    if n.iterations > NSEC3_MAX_ITERATIONS {
      return Err(InvalidNsec3);
    }
    var wire := EncodeWire(name, []);
    if wire.Err? {
      return Err(NameEncoding);
    }
    assert [] + WriteName(name) == WriteName(name);
    var hash := sha1(wire.value + n.salt);
    for k := 0 to n.iterations
      invariant Rehash(sha1, hash, n.salt, n.iterations - k) == NameHash(sha1, name, n.iterations, n.salt)
    {
      hash := sha1(hash + n.salt);
    }
    r := Ok(hash);
  }

  // ------------------------------------------------------------------ coverage

  predicate Nsec3CoversHash(owner: Bytes, next: Bytes, query: Bytes) {
    if query == owner || |owner| != |next| || |owner| != |query| then false
    else
      match CompareBytes(owner, next)
      case Less => CompareBytes(owner, query) == Less && CompareBytes(query, next) == Less
      case Greater => CompareBytes(owner, query) == Less || CompareBytes(query, next) == Less
      case Equal => true
  }

  predicate NsecCoversName(owner: Name, next: Name, query: Name) {
    if query == owner then false
    else
      match CompareFromEnd(owner, next)
      case Less => CompareFromEnd(owner, query) == Less && CompareFromEnd(query, next) == Less
      case Greater => CompareFromEnd(owner, query) == Less || CompareFromEnd(query, next) == Less
      case Equal => true
  }

  lemma Nsec3CoversArc(owner: Bytes, next: Bytes, query: Bytes)
    requires |owner| == |next| == |query|
    ensures Nsec3CoversHash(owner, next, query) <==> OnArc(BytesBefore(), owner, next, query)
  {
    CompareBytesFlip(owner, next);
  }

  lemma NsecCoversArc(owner: Name, next: Name, query: Name)
    ensures NsecCoversName(owner, next, query) <==> OnArc(NamesBefore(), owner, next, query)
  {
    CompareFromEndFlip(owner, next);
  }

  /** Names in canonical order, closed into a ring: every name is an owner, or one record covers it, never both. */
  lemma NsecRingPartition(ring: seq<Name>, query: Name) returns (at: nat)
    requires ring != [] && StrictlySorted(NamesBefore(), ring)
    ensures query in ring ==> forall i :: 0 <= i < |ring| ==> !NsecCoversName(ring[i], After(ring, i), query)
    ensures query !in ring ==>
      at < |ring| && forall i :: 0 <= i < |ring| ==> (NsecCoversName(ring[i], After(ring, i), query) <==> i == at)
  {
    hide NsecCoversName, OnArc;
    NamesAreOrdered();
    at := RingPartition(NamesBefore(), ring, query);
    forall i | 0 <= i < |ring|
      ensures NsecCoversName(ring[i], After(ring, i), query) <==> OnArc(NamesBefore(), ring[i], After(ring, i), query)
    {
      NsecCoversArc(ring[i], After(ring, i), query);
    }
  }

  /** The same for hashes of one length. */
  lemma Nsec3RingPartition(ring: seq<Bytes>, query: Bytes) returns (at: nat)
    requires ring != [] && StrictlySorted(BytesBefore(), ring)
    requires forall i :: 0 <= i < |ring| ==> |ring[i]| == |query|
    ensures query in ring ==> forall i :: 0 <= i < |ring| ==> !Nsec3CoversHash(ring[i], After(ring, i), query)
    ensures query !in ring ==>
      at < |ring| && forall i :: 0 <= i < |ring| ==> (Nsec3CoversHash(ring[i], After(ring, i), query) <==> i == at)
  {
    hide Nsec3CoversHash, OnArc;
    BytesAreOrdered();
    at := RingPartition(BytesBefore(), ring, query);
    forall i | 0 <= i < |ring|
      ensures Nsec3CoversHash(ring[i], After(ring, i), query) <==> OnArc(BytesBefore(), ring[i], After(ring, i), query)
    {
      Nsec3CoversArc(ring[i], After(ring, i), query);
    }
  }

  /** What a record between neighbours of a ring covers is not in the ring. */
  lemma CoveredNameIsAbsent(names: set<Name>, owner: Name, next: Name, query: Name)
    requires IsSuccessor(NamesBefore(), names, owner, next) && NsecCoversName(owner, next, query)
    ensures query !in names
  {
    NamesAreOrdered();
    NsecCoversArc(owner, next, query);
    ArcIsEmpty(NamesBefore(), names, owner, next, query);
  }

  lemma CoveredHashIsAbsent(hashes: set<Bytes>, owner: Bytes, next: Bytes, query: Bytes)
    requires IsSuccessor(BytesBefore(), hashes, owner, next) && Nsec3CoversHash(owner, next, query)
    ensures query !in hashes
  {
    BytesAreOrdered();
    Nsec3CoversArc(owner, next, query);
    ArcIsEmpty(BytesBefore(), hashes, owner, next, query);
  }
}
