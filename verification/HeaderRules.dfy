/** What makes a block header acceptable: its parent, its difficulty bits, its proof of work. */
module HeaderRules {
  import opened Bytes
  import opened BlockHeaders
  import Pow

  const MAINNET_POW_BITS: Pow.Bits := 0x1c00_ffff
  const TARGET_SPACING: nat := 600
  const BLOCKS_PER_DAY: nat := 144
  const MIN_ACTUAL_TIMESPAN: nat := 36 * TARGET_SPACING
  const MAX_ACTUAL_TIMESPAN: nat := 576 * TARGET_SPACING

  datatype StoredHeader = StoredHeader(hash: Hash, header: BlockHeader, height: nat, chainwork: nat)

  datatype DifficultyPolicy = Mainnet | Permissive

  datatype ChainError =
    | InvalidGenesisHeader
    | UnknownParent
    | DuplicateHeader
    | MissingBestHeader
    | InvalidDifficultyBits(actual: Pow.Bits, expected: Pow.Bits)
    | InvalidDifficultyWindow
    | InvalidProofOfWork
    | PowFailure(error: Pow.PowError)

  /** The policy, the mainnet genesis header and the header hash, an unknown function. */
  datatype Rules = Rules(policy: DifficultyPolicy, genesis: BlockHeader, hashOf: BlockHeader -> Hash)

  type Headers = map<Hash, StoredHeader>

  /** Every header is filed under its hash and sits one height, and some work, above a stored parent. */
  ghost predicate Linked(known: Headers) {
    forall h :: h in known ==>
      && known[h].hash == h
      && (known[h].height > 0 ==>
            && known[h].header.prevBlock in known
            && known[known[h].header.prevBlock].height + 1 == known[h].height
            && known[known[h].header.prevBlock].chainwork < known[h].chainwork)
  }

  ghost predicate Knows(known: Headers, s: StoredHeader) {
    s.hash in known && known[s.hash] == s
  }

  // ---------------------------------------------------------- difficulty bits

  function Previous(known: Headers, s: StoredHeader): Result<StoredHeader, ChainError> {
    if s.header.prevBlock in known then Ok(known[s.header.prevBlock]) else Err(UnknownParent)
  }

  /** Of the blocks at two places, the earlier one, or the first of two equally early ones, is at `i`. */
  ghost predicate Precedes(blocks: seq<StoredHeader>, i: nat, j: nat)
    requires i < |blocks| && j < |blocks|
  {
    blocks[i].header.time < blocks[j].header.time || (blocks[i].header.time == blocks[j].header.time && i < j)
  }

  /** One block precedes the one at `j`, and another follows it: a stable sort puts it second. */
  ghost predicate SortsSecond(blocks: seq<StoredHeader>, j: nat)
    requires |blocks| == 3
  {
    j < 3 && exists i, k :: 0 <= i < 3 && 0 <= k < 3 && i != j && j != k && i != k && Precedes(blocks, i, j) &&
                            Precedes(blocks, j, k)
  }

  ghost predicate IsMiddle(blocks: seq<StoredHeader>, m: StoredHeader)
    requires |blocks| == 3
  {
    exists j :: 0 <= j < 3 && SortsSecond(blocks, j) && m == blocks[j]
  }

  /** The second of three headers sorted stably by time. */
  function MiddleByTime(x: StoredHeader, y: StoredHeader, z: StoredHeader): (m: StoredHeader)
    ensures IsMiddle([x, y, z], m)
  {
    if x.header.time <= y.header.time then
      if y.header.time <= z.header.time then
        assert SortsSecond([x, y, z], 1) by { assert Precedes([x, y, z], 0, 1) && Precedes([x, y, z], 1, 2); }
        y
      else if x.header.time <= z.header.time then
        assert SortsSecond([x, y, z], 2) by { assert Precedes([x, y, z], 0, 2) && Precedes([x, y, z], 2, 1); }
        z
      else
        assert SortsSecond([x, y, z], 0) by { assert Precedes([x, y, z], 2, 0) && Precedes([x, y, z], 0, 1); }
        x
    else if x.header.time <= z.header.time then
      assert SortsSecond([x, y, z], 0) by { assert Precedes([x, y, z], 1, 0) && Precedes([x, y, z], 0, 2); }
      x
    else if y.header.time <= z.header.time then
      assert SortsSecond([x, y, z], 2) by { assert Precedes([x, y, z], 1, 2) && Precedes([x, y, z], 2, 0); }
      z
    else
      assert SortsSecond([x, y, z], 1) by { assert Precedes([x, y, z], 2, 1) && Precedes([x, y, z], 1, 0); }
      y
  }

  function SuitableBlock(known: Headers, z: StoredHeader): Result<StoredHeader, ChainError> {
    match Previous(known, z)
    case Err(e) => Err(e)
    case Ok(y) =>
      match Previous(known, y)
      case Err(e) => Err(e)
      case Ok(x) => Ok(MiddleByTime(x, y, z))
  }

  function Ancestor(known: Headers, s: StoredHeader, height: nat): Result<StoredHeader, ChainError>
    requires Linked(known) && Knows(known, s)
    decreases s.height
  {
    if height > s.height then Err(InvalidDifficultyWindow)
    else if s.height == height then Ok(s)
    else
      match Previous(known, s)
      case Err(e) => Err(e)
      case Ok(parent) => Ancestor(known, parent, height)
  }

  function ClampedTimespan(first: StoredHeader, last: StoredHeader): (t: nat)
    ensures MIN_ACTUAL_TIMESPAN <= t <= MAX_ACTUAL_TIMESPAN
  {
    var actual := if last.header.time < first.header.time then 0 else last.header.time - first.header.time;
    if actual < MIN_ACTUAL_TIMESPAN then MIN_ACTUAL_TIMESPAN
    else if actual > MAX_ACTUAL_TIMESPAN then MAX_ACTUAL_TIMESPAN
    else actual
  }

  function ScaledWork(delta: nat, timespan: nat): nat
    requires timespan > 0
  {
    Pow.QuotientIsNat(delta * TARGET_SPACING, timespan);
    delta * TARGET_SPACING / timespan
  }

  function BitsForWork(work: nat): Result<Pow.Bits, ChainError> {
    if work == 0 then Ok(MAINNET_POW_BITS)
    else
      match Pow.TargetForWork(work)
      case Err(e) => Err(PowFailure(e))
      case Ok(target) =>
        match Pow.CompactToTarget(MAINNET_POW_BITS)
        case Err(e) => Err(PowFailure(e))
        case Ok(limit) =>
          if target > limit then Ok(MAINNET_POW_BITS)
          else
            TargetBelowLimit(target, limit);
            Ok(Pow.TargetToCompact(target))
  }

  lemma TargetBelowLimit(target: nat, limit: nat)
    requires Pow.CompactToTarget(MAINNET_POW_BITS) == Ok(limit) && target <= limit
    ensures target < Pow.TWO_256
  {
    hide *;
    Pow.DecodedTargetIsExact(MAINNET_POW_BITS);
  }

  function RetargetBits(first: StoredHeader, last: StoredHeader): Result<Pow.Bits, ChainError> {
    if last.height <= first.height then Err(InvalidDifficultyWindow)
    else if last.chainwork < first.chainwork then Err(InvalidDifficultyWindow)
    else BitsForWork(ScaledWork(last.chainwork - first.chainwork, ClampedTimespan(first, last)))
  }

  /** The first and last header of the window that sets the bits of a child of `parent`. */
  function Window(known: Headers, parent: StoredHeader): Result<(StoredHeader, StoredHeader), ChainError>
    requires Linked(known) && Knows(known, parent)
    requires parent.height >= BLOCKS_PER_DAY + 2
  {
    match SuitableBlock(known, parent)
    case Err(e) => Err(e)
    case Ok(last) =>
      match Ancestor(known, parent, parent.height - BLOCKS_PER_DAY)
      case Err(e) => Err(e)
      case Ok(ancestor) =>
        match SuitableBlock(known, ancestor)
        case Err(e) => Err(e)
        case Ok(first) => Ok((first, last))
  }

  function ExpectedMainnetBits(known: Headers, parent: StoredHeader): Result<Pow.Bits, ChainError>
    requires Linked(known) && Knows(known, parent)
  {
    if parent.height < BLOCKS_PER_DAY + 2 then Ok(MAINNET_POW_BITS)
    else
      match Window(known, parent)
      case Err(e) => Err(e)
      case Ok((first, last)) => RetargetBits(first, last)
  }

  function CheckBits(rules: Rules, known: Headers, header: BlockHeader, parent: StoredHeader): Option<ChainError>
    requires Linked(known) && Knows(known, parent)
  {
    if rules.policy == Permissive then None
    else
      match ExpectedMainnetBits(known, parent)
      case Err(e) => Some(e)
      case Ok(expected) =>
        if header.bits != expected then Some(InvalidDifficultyBits(header.bits, expected)) else None
  }

  // -------------------------------------------------------------- whole header

  /** A header on top of what is known: what it is filed as, or why it is turned away. */
  function Validate(rules: Rules, known: Headers, header: BlockHeader): Result<StoredHeader, ChainError>
    requires Linked(known)
  {
    if header.prevBlock !in known then Err(UnknownParent)
    else
      var parent := known[header.prevBlock];
      var hash := rules.hashOf(header);
      match CheckBits(rules, known, header, parent)
      case Some(e) => Err(e)
      case None =>
        match Pow.PowCheck(hash, header.bits)
        case Err(e) => Err(PowFailure(e))
        case Ok(met) =>
          if !met then Err(InvalidProofOfWork)
          else
            match Pow.WorkFromBits(header.bits)
            case Err(e) => Err(PowFailure(e))
            case Ok(work) => Ok(StoredHeader(hash, header, parent.height + 1, parent.chainwork + work))
  }

  function ValidateGenesis(rules: Rules, header: BlockHeader): Result<StoredHeader, ChainError> {
    if rules.policy == Mainnet && header != rules.genesis then Err(InvalidGenesisHeader)
    else
      match Pow.WorkFromBits(header.bits)
      case Err(e) => Err(PowFailure(e))
      case Ok(work) => Ok(StoredHeader(rules.hashOf(header), header, 0, work))
  }

  lemma WorkFromBitsPositive(bits: Pow.Bits)
    requires Pow.WorkFromBits(bits).Ok?
    ensures Pow.WorkFromBits(bits).value > 0
  {
    hide Pow.CompactToTarget;
    Pow.DecodedTargetIsExact(bits);
    Pow.WorkIsPositive(Pow.CompactToTarget(bits).value);
  }

  lemma ValidatedSitsAboveParent(rules: Rules, known: Headers, header: BlockHeader)
    requires Linked(known) && Validate(rules, known, header).Ok?
    ensures var s := Validate(rules, known, header).value;
      && s.hash == rules.hashOf(header) && s.header == header
      && header.prevBlock in known && s.height == known[header.prevBlock].height + 1
      && s.chainwork > known[header.prevBlock].chainwork
  {
    hide CheckBits, Pow.PowCheck, Pow.WorkFromBits;
    WorkFromBitsPositive(header.bits);
  }

  /** Filing a validated header under a new hash keeps the headers linked. */
  lemma AddKeepsLinked(rules: Rules, known: Headers, header: BlockHeader)
    requires Linked(known) && Validate(rules, known, header).Ok?
    requires rules.hashOf(header) !in known
    ensures Linked(known[rules.hashOf(header) := Validate(rules, known, header).value])
  {
    hide Validate;
    ValidatedSitsAboveParent(rules, known, header);
  }

  // ------------------------------------------------- verdicts outlive additions

  ghost predicate Extends(more: Headers, known: Headers) {
    forall h :: h in known ==> h in more && more[h] == known[h]
  }

  lemma PreviousIsStable(known: Headers, more: Headers, s: StoredHeader)
    requires Extends(more, known) && Previous(known, s).Ok?
    ensures Previous(more, s) == Previous(known, s)
  {
  }

  lemma SuitableIsStable(known: Headers, more: Headers, s: StoredHeader)
    requires Extends(more, known) && SuitableBlock(known, s).Ok?
    ensures SuitableBlock(more, s) == SuitableBlock(known, s)
  {
    hide MiddleByTime;
    PreviousIsStable(known, more, s);
    PreviousIsStable(known, more, Previous(known, s).value);
  }

  lemma {:induction false} AncestorIsStable(known: Headers, more: Headers, s: StoredHeader, height: nat)
    requires Linked(known) && Linked(more) && Extends(more, known) && Knows(known, s)
    ensures Ancestor(more, s, height) == Ancestor(known, s, height)
    decreases s.height
  {
    if height < s.height {
      PreviousIsStable(known, more, s);
      AncestorIsStable(known, more, Previous(known, s).value, height);
    }
  }

  lemma {:induction false} AncestorFound(known: Headers, s: StoredHeader, height: nat)
    requires Linked(known) && Knows(known, s) && height <= s.height
    ensures Ancestor(known, s, height).Ok?
    ensures var a := Ancestor(known, s, height).value; Knows(known, a) && a.height == height
    decreases s.height
  {
    if height < s.height { AncestorFound(known, Previous(known, s).value, height); }
  }

  /** Three headers up from height 2 or more: the middle one is at most two below the first. */
  lemma SuitableFound(known: Headers, s: StoredHeader)
    requires Linked(known) && Knows(known, s) && s.height >= 2
    ensures SuitableBlock(known, s).Ok?
    ensures var m := SuitableBlock(known, s).value;
      Knows(known, m) && s.height - 2 <= m.height <= s.height && Ancestor(known, s, m.height) == Ok(m)
  {
    var y := Previous(known, s).value;
    var x := Previous(known, y).value;
    assert Ancestor(known, y, x.height) == Ok(x);
    assert Ancestor(known, s, x.height) == Ok(x);
  }

  lemma WindowIsStable(known: Headers, more: Headers, parent: StoredHeader)
    requires Linked(known) && Linked(more) && Extends(more, known) && Knows(known, parent)
    ensures ExpectedMainnetBits(more, parent) == ExpectedMainnetBits(known, parent)
  {
    hide Linked, Extends, SuitableBlock, Ancestor, RetargetBits;
    if parent.height >= BLOCKS_PER_DAY + 2 {
      SuitableStays(known, more, parent);
      AncestorStays(known, more, parent, parent.height - BLOCKS_PER_DAY);
      SuitableStays(known, more, Ancestor(known, parent, parent.height - BLOCKS_PER_DAY).value);
    }
  }

  lemma SuitableStays(known: Headers, more: Headers, s: StoredHeader)
    requires Linked(known) && Extends(more, known) && Knows(known, s) && s.height >= 2
    ensures SuitableBlock(known, s).Ok? && SuitableBlock(more, s) == SuitableBlock(known, s)
  {
    hide SuitableBlock, Linked, Extends;
    SuitableFound(known, s);
    SuitableIsStable(known, more, s);
  }

  lemma AncestorStays(known: Headers, more: Headers, s: StoredHeader, height: nat)
    requires Linked(known) && Linked(more) && Extends(more, known) && Knows(known, s) && height <= s.height
    ensures Knows(more, s) && Ancestor(known, s, height).Ok? && Ancestor(more, s, height) == Ancestor(known, s, height)
    ensures var a := Ancestor(known, s, height).value; Knows(known, a) && a.height == height
  {
    hide Ancestor, Linked;
    AncestorFound(known, s, height);
    AncestorIsStable(known, more, s, height);
  }

  /** A verdict depends on the header's ancestors alone: storing more headers does not change an acceptance. */
  lemma AcceptanceIsStable(rules: Rules, known: Headers, more: Headers, header: BlockHeader)
    requires Linked(known) && Linked(more) && Extends(more, known)
    requires header.prevBlock in known
    ensures Validate(rules, more, header) == Validate(rules, known, header)
  {
    hide ExpectedMainnetBits, Pow.PowCheck, Pow.WorkFromBits;
    WindowIsStable(known, more, known[header.prevBlock]);
  }

  // ------------------------------------------------------------------ retarget

  lemma {:induction false} AncestorHasLessWork(known: Headers, s: StoredHeader, height: nat)
    requires Linked(known) && Knows(known, s) && height <= s.height
    ensures Ancestor(known, s, height).Ok?
    ensures height < s.height ==> Ancestor(known, s, height).value.chainwork < s.chainwork
    decreases s.height
  {
    if height < s.height { AncestorHasLessWork(known, Previous(known, s).value, height); }
  }

  lemma {:induction false} AncestorOfAncestor(known: Headers, s: StoredHeader, mid: nat, height: nat)
    requires Linked(known) && Knows(known, s) && height <= mid <= s.height
    requires Ancestor(known, s, mid).Ok? && Knows(known, Ancestor(known, s, mid).value)
    ensures Ancestor(known, Ancestor(known, s, mid).value, height) == Ancestor(known, s, height)
    decreases s.height
  {
    if mid < s.height { AncestorOfAncestor(known, Previous(known, s).value, mid, height); }
  }

  /** The window is always found, spans 142 to 146 blocks, and holds a positive amount of work. */
  lemma WindowFound(known: Headers, parent: StoredHeader)
    requires Linked(known) && Knows(known, parent) && parent.height >= BLOCKS_PER_DAY + 2
    ensures Window(known, parent).Ok?
    ensures var (first, last) := Window(known, parent).value;
      142 <= last.height - first.height <= 146 && first.chainwork < last.chainwork
  {
    hide SuitableBlock, Ancestor;
    var height := parent.height - BLOCKS_PER_DAY;
    SuitableFound(known, parent);
    AncestorFound(known, parent, height);
    var ancestor := Ancestor(known, parent, height).value;
    SuitableFound(known, ancestor);
    var (first, last) := Window(known, parent).value;
    AncestorOfAncestor(known, parent, height, first.height);
    AncestorOfAncestor(known, parent, last.height, first.height);
    AncestorHasLessWork(known, last, first.height);
  }

  /** Scaling by the clamped time span keeps the work between a 576th and a 36th of the window's. */
  lemma ScaledWorkBounds(delta: nat, timespan: nat)
    requires MIN_ACTUAL_TIMESPAN <= timespan <= MAX_ACTUAL_TIMESPAN
    ensures delta / 576 <= ScaledWork(delta, timespan) <= delta / 36
  {
    var w := ScaledWork(delta, timespan);
    Pow.DivideBounds(delta * 600, timespan);
    var low, high := delta / 576, delta / 36;
    Pow.QuotientAtLeast(delta * 600, timespan, low);
    assert low * timespan <= delta * 600 by { MulUpTo(low, timespan, MAX_ACTUAL_TIMESPAN); }
    if w > high {
      MulUpTo(w, MIN_ACTUAL_TIMESPAN, timespan);
    }
  }

  lemma MulUpTo(k: nat, a: nat, b: nat)
    requires a <= b
    ensures k * a <= k * b
  {
  }

  lemma HalfOfTwo256(work: nat)
    requires work > 0
    ensures Pow.TWO_256 / work >= 2 <==> 2 * work <= Pow.TWO_256
    ensures Pow.TWO_256 / work >= 1 <==> work <= Pow.TWO_256
  {
    hide Pow.Exp256;
    Pow.QuotientAtLeast(Pow.TWO_256, work, 2);
    Pow.QuotientAtLeast(Pow.TWO_256, work, 1);
  }

  lemma PowLimitDecodes()
    ensures Pow.CompactToTarget(MAINNET_POW_BITS) == Ok(0xffff * Pow.Exp256(25))
  {
    hide Pow.Exp256;
    Pow.TargetFits(0xffff, 25);
  }

  /** The bits for a given amount of work decode to a usable target exactly when that work is at most 2^255. */
  lemma BitsForWorkDecode(work: nat)
    ensures BitsForWork(work).Ok? <==> work <= Pow.TWO_256
    ensures (BitsForWork(work).Ok? && Pow.CompactToTarget(BitsForWork(work).value).Ok?) <==> 2 * work <= Pow.TWO_256
    ensures 2 * work <= Pow.TWO_256 ==>
      var target := Pow.CompactToTarget(BitsForWork(work).value).value;
      0 < target <= 0xffff * Pow.Exp256(25)
  {
    hide Pow.Exp256, Pow.CompactToTarget, Pow.TargetToCompact;
    PowLimitDecodes();
    Pow.DecodedTargetIsExact(MAINNET_POW_BITS);
    if work > 0 {
      HalfOfTwo256(work);
      if Pow.TWO_256 / work >= 2 {
        var target := Pow.TWO_256 / work - 1;
        if target <= 0xffff * Pow.Exp256(25) { Pow.CompactRoundTrip(target); }
      } else if Pow.TWO_256 / work == 1 {
        ZeroTargetDoesNotDecode();
      }
    }
  }

  lemma ZeroTargetDoesNotDecode()
    ensures Pow.TargetToCompact(0) == 0 && Pow.CompactToTarget(0) == Err(Pow.ZeroTarget)
  {
  }

  /** The seconds from `first` to `last`, but at least six hours and at most four days. */
  ghost predicate IsSpan(first: StoredHeader, last: StoredHeader, span: nat) {
    var seconds := last.header.time - first.header.time;
    if seconds < 21_600 then span == 21_600
    else if seconds > 345_600 then span == 345_600
    else span == seconds
  }

  /** The bits that an amount of work per block asks for: those of its target, or of the limit if that is lower. */
  ghost predicate AsksFor(work: nat, expected: Result<Pow.Bits, ChainError>) {
    if work == 0 then expected == Ok(0x1c00_ffff)
    else if work > Pow.TWO_256 then expected == Err(PowFailure(Pow.ZeroTarget))
    else
      exists target: nat ::
        && Pow.IsTargetFor(target, work)
        && expected == Ok(if target > 0xffff * Pow.Exp256(25) || target >= Pow.TWO_256 then 0x1c00_ffff
                          else Pow.TargetToCompact(target))
  }

  /** Over a window: the work done, scaled to ten minutes a block, rounded down, and the bits it asks for. */
  ghost predicate IsRetarget(first: StoredHeader, last: StoredHeader, expected: Result<Pow.Bits, ChainError>) {
    exists span: nat, work: nat ::
      && IsSpan(first, last, span)
      && Pow.IsFloor(work, (last.chainwork - first.chainwork) * 600, span)
      && AsksFor(work, expected)
  }

  lemma SpanIs(first: StoredHeader, last: StoredHeader, span: nat)
    ensures IsSpan(first, last, span) <==> ClampedTimespan(first, last) == span
  {
  }

  lemma AsksForIff(work: nat, expected: Result<Pow.Bits, ChainError>)
    ensures AsksFor(work, expected) <==> BitsForWork(work) == expected
  {
    hide Pow.Exp256, Pow.CompactToTarget, Pow.TargetToCompact, Pow.IsFloor, BitsForWork;
    if work == 0 || work > Pow.TWO_256 {
      NoTargetForWork(work);
    } else {
      var quotient := BitsForSomeWork(work);
      Pow.FloorIs(quotient, Pow.TWO_256, work);
      assert Pow.IsTargetFor(quotient - 1, work);
      if AsksFor(work, expected) {
        var target: nat :| Pow.IsTargetFor(target, work) &&
          expected == Ok(if target > 0xffff * Pow.Exp256(25) || target >= Pow.TWO_256 then 0x1c00_ffff
                         else Pow.TargetToCompact(target));
        Pow.FloorIs(target + 1, Pow.TWO_256, work);
      }
    }
  }

  lemma NoTargetForWork(work: nat)
    requires work == 0 || work > Pow.TWO_256
    ensures BitsForWork(work) == if work == 0 then Ok(0x1c00_ffff) else Err(PowFailure(Pow.ZeroTarget))
  {
    hide Pow.Exp256;
    if work > 0 { HalfOfTwo256(work); }
  }

  lemma BitsForSomeWork(work: nat) returns (quotient: nat)
    requires 0 < work <= Pow.TWO_256
    ensures quotient == Pow.TWO_256 / work > 0
    ensures var target := quotient - 1;
      BitsForWork(work) == Ok(if target > 0xffff * Pow.Exp256(25) || target >= Pow.TWO_256 then 0x1c00_ffff
                              else Pow.TargetToCompact(target))
  {
    hide Pow.Exp256, Pow.CompactToTarget, Pow.TargetToCompact;
    PowLimitDecodes();
    Pow.DecodedTargetIsExact(MAINNET_POW_BITS);
    HalfOfTwo256(work);
    quotient := Pow.TWO_256 / work;
  }

  /** What a retarget gives is what its window asks for, over any window in order. */
  lemma RetargetIff(first: StoredHeader, last: StoredHeader, expected: Result<Pow.Bits, ChainError>)
    requires first.height < last.height && first.chainwork <= last.chainwork
    ensures IsRetarget(first, last, expected) <==> RetargetBits(first, last) == expected
  {
    hide BitsForWork, AsksFor, ClampedTimespan, IsSpan, Pow.IsFloor;
    var n := (last.chainwork - first.chainwork) * 600;
    var span := ClampedTimespan(first, last);
    var work := ScaledWork(last.chainwork - first.chainwork, span);
    SpanIs(first, last, span);
    Pow.FloorIs(work, n, span);
    AsksForIff(work, expected);
    if IsRetarget(first, last, expected) {
      var t: nat, w: nat :| IsSpan(first, last, t) && Pow.IsFloor(w, n, t) && AsksFor(w, expected);
      SpanIs(first, last, t);
      Pow.FloorIs(w, n, t);
    }
  }

  /** What a retarget over a window of mainnet length gives, and when the bits exist and decode. */
  ghost predicate RetargetInOrder(first: StoredHeader, last: StoredHeader, expected: Result<Pow.Bits, ChainError>) {
    && 142 <= last.height - first.height <= 146 && first.chainwork < last.chainwork
    && var delta := last.chainwork - first.chainwork;
       exists span: nat, work: nat ::
         && IsSpan(first, last, span) && Pow.IsFloor(work, delta * 600, span) && AsksFor(work, expected)
         && delta / 576 <= work <= delta / 36
         && (expected.Ok? <==> work <= Pow.TWO_256)
         && ((expected.Ok? && Pow.CompactToTarget(expected.value).Ok?) <==> 2 * work <= Pow.TWO_256)
         && (2 * work <= Pow.TWO_256 ==> 0 < Pow.CompactToTarget(expected.value).value <= 0xffff * Pow.Exp256(25))
  }

  /**
   Retargeting never loses its window. The work it scales by lies between a
   576th and a 36th of the window's work. There are bits for it up to 2^256, and
   they decode up to 2^255, to a nonzero target no larger than the limit.
   */
  lemma RetargetIsWellDefined(known: Headers, parent: StoredHeader)
    requires Linked(known) && Knows(known, parent) && parent.height >= BLOCKS_PER_DAY + 2
    ensures Window(known, parent).Ok?
    ensures var (first, last) := Window(known, parent).value;
      RetargetInOrder(first, last, ExpectedMainnetBits(known, parent))
  {
    hide Window, BitsForWork, Pow.Exp256, Pow.CompactToTarget, ClampedTimespan, AsksFor, IsSpan, Pow.IsFloor;
    WindowFound(known, parent);
    var (first, last) := Window(known, parent).value;
    var delta, span := last.chainwork - first.chainwork, ClampedTimespan(first, last);
    var work := ScaledWork(delta, span);
    ScaledWorkBounds(delta, span);
    BitsForWorkDecode(work);
    SpanIs(first, last, span);
    Pow.FloorIs(work, delta * 600, span);
    AsksForIff(work, ExpectedMainnetBits(known, parent));
  }
}
