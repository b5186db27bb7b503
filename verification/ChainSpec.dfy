/**
 The header chain as a value: what each operation turns the stored headers,
 the by-height index and the best tip into, and what every run keeps true.
 Promotion is stated in its simple form here, as a rebuild of the whole index.
 */
module ChainSpec {
  import opened Bytes
  import opened BlockHeaders
  import opened HeaderRules

  datatype ChainState = ChainState(headers: Headers, canonical: map<nat, Hash>, best: Option<Hash>)

  const EMPTY := ChainState(map[], map[], None)

  // --------------------------------------------------- the index by height

  /** From the genesis header up to `h`, by parent links. */
  function Walk(known: Headers, h: Hash): (chain: seq<StoredHeader>)
    requires Linked(known) && h in known
    ensures |chain| == known[h].height + 1 && chain[|chain| - 1] == known[h]
    decreases known[h].height
  {
    if known[h].height == 0 then [known[h]] else Walk(known, known[h].header.prevBlock) + [known[h]]
  }

  function IndexOf(chain: seq<StoredHeader>): map<nat, Hash> {
    if chain == [] then map[]
    else IndexOf(chain[..|chain| - 1])[chain[|chain| - 1].height := chain[|chain| - 1].hash]
  }

  /** The index a full rebuild to `h` leaves. */
  function Rebuilt(known: Headers, h: Hash): map<nat, Hash>
    requires Linked(known) && h in known
  {
    IndexOf(Walk(known, h))
  }

  lemma {:induction false} WalkEntries(known: Headers, h: Hash, i: nat)
    requires Linked(known) && h in known && i <= known[h].height
    ensures var s := Walk(known, h)[i];
      Knows(known, s) && s.height == i && (i > 0 ==> Walk(known, h)[i - 1].hash == s.header.prevBlock)
    decreases known[h].height
  {
    if i < known[h].height {
      WalkEntries(known, known[h].header.prevBlock, i);
    }
  }

  /** The rebuilt index holds exactly the heights 0 up to that of `h`, each with the header the walk meets there. */
  lemma {:induction false} RebuiltEntries(known: Headers, h: Hash)
    requires Linked(known) && h in known
    ensures forall i :: i in Rebuilt(known, h) <==> 0 <= i <= known[h].height
    ensures forall i :: 0 <= i <= known[h].height ==> Rebuilt(known, h)[i] == Walk(known, h)[i].hash
    decreases known[h].height
  {
    if known[h].height > 0 {
      RebuiltEntries(known, known[h].header.prevBlock);
      AppendIsRebuild(known, h);
    } else {
      assert IndexOf([known[h]]) == IndexOf([])[0 := h];
    }
  }

  /** One step up: the index of a child is its parent's with one entry added. */
  lemma AppendIsRebuild(known: Headers, h: Hash)
    requires Linked(known) && h in known && known[h].height > 0
    ensures Rebuilt(known, h) == Rebuilt(known, known[h].header.prevBlock)[known[h].height := h]
  {
    var chain := Walk(known, h);
    assert chain[..|chain| - 1] == Walk(known, known[h].header.prevBlock);
  }

  // ------------------------------------------------- acceptance, spelled out

  /**
   The bits a child of `parent` must have: the limit's up to height 146, from
   then on those of the retarget between two blocks, each the middle one by
   time of three in a row, one three ending 144 below the parent and the other
   at the parent.
   */
  ghost predicate BitsRequired(known: Headers, parent: StoredHeader, expected: Result<Pow.Bits, ChainError>)
    requires Linked(known) && Knows(known, parent)
  {
    var n := parent.height;
    if n < 146 then expected == Ok(0x1c00_ffff)
    else
      var walk := Walk(known, parent.hash);
      exists first, last ::
        && IsMiddle(walk[n - 146..n - 143], first) && IsMiddle(walk[n - 2..n + 1], last)
        && IsRetarget(first, last, expected)
  }

  lemma MiddleIsOne(blocks: seq<StoredHeader>, a: StoredHeader, b: StoredHeader)
    requires |blocks| == 3 && IsMiddle(blocks, a) && IsMiddle(blocks, b)
    ensures a == b
  {
  }

  lemma SuitableOnWalk(known: Headers, h: Hash, k: nat) returns (m: StoredHeader)
    requires Linked(known) && h in known && 2 <= k <= known[h].height
    ensures IsMiddle(Walk(known, h)[k - 2..k + 1], m) && SuitableBlock(known, Walk(known, h)[k]) == Ok(m)
  {
    var walk := Walk(known, h);
    WalkEntries(known, h, k);
    WalkEntries(known, h, k - 1);
    WalkEntries(known, h, k - 2);
    hide Walk, Linked, MiddleByTime, IsMiddle;
    assert walk[k - 2..k + 1] == [walk[k - 2], walk[k - 1], walk[k]];
    m := MiddleByTime(walk[k - 2], walk[k - 1], walk[k]);
  }

  lemma {:induction false} AncestorOnWalk(known: Headers, h: Hash, height: nat)
    requires Linked(known) && h in known && height <= known[h].height
    ensures Ancestor(known, known[h], height) == Ok(Walk(known, h)[height])
    decreases known[h].height
  {
    if height < known[h].height { AncestorOnWalk(known, known[h].header.prevBlock, height); }
  }

  /** The bits required are the ones the retarget code expects. */
  lemma BitsRequiredIff(known: Headers, parent: StoredHeader, expected: Result<Pow.Bits, ChainError>)
    requires Linked(known) && Knows(known, parent)
    ensures BitsRequired(known, parent, expected) <==> ExpectedMainnetBits(known, parent) == expected
  {
    var n := parent.height;
    if n >= 146 {
      var walk := Walk(known, parent.hash);
      var first := SuitableOnWalk(known, parent.hash, n - 144);
      var last := SuitableOnWalk(known, parent.hash, n);
      AncestorOnWalk(known, parent.hash, n - 144);
      WindowFound(known, parent);
      hide Linked, Walk, SuitableBlock, Ancestor, IsMiddle, IsRetarget, RetargetBits;
      assert Window(known, parent) == Ok((first, last));
      RetargetIff(first, last, expected);
      if BitsRequired(known, parent, expected) {
        var first', last' :| IsMiddle(walk[n - 146..n - 143], first') && IsMiddle(walk[n - 2..n + 1], last') &&
                             IsRetarget(first', last', expected);
        MiddleIsOne(walk[n - 146..n - 143], first, first');
        MiddleIsOne(walk[n - 2..n + 1], last, last');
      }
    }
  }

  /** Bits, the target they stand for, and the work of meeting it. */
  ghost predicate Weighs(bits: Pow.Bits, target: nat, work: nat) {
    Pow.CompactToTarget(bits) == Ok(target) && Pow.IsFloor(work, Pow.TWO_256, target + 1)
  }

  lemma WeighsIff(bits: Pow.Bits, target: nat, work: nat)
    ensures Weighs(bits, target, work) <==>
      Pow.CompactToTarget(bits) == Ok(target) && Pow.WorkFromBits(bits) == Ok(work)
  {
    hide Pow.Exp256, Pow.IsFloor, Pow.WorkForTarget, Pow.CompactToTarget;
    if Pow.CompactToTarget(bits) == Ok(target) {
      Pow.DecodedTargetIsExact(bits);
      Pow.WorkIsFloor(target, work);
    }
  }

  /** What it takes for a header to be filed as `s`. */
  ghost predicate Acceptable(rules: Rules, known: Headers, header: BlockHeader, s: StoredHeader)
    requires Linked(known)
  {
    && header.prevBlock in known
    && var parent := known[header.prevBlock];
       && (rules.policy == Mainnet ==> BitsRequired(known, parent, Ok(header.bits)))
       && exists target: nat, work: nat ::
            && Weighs(header.bits, target, work) && Pow.BigEndian(rules.hashOf(header)) <= target
            && s == StoredHeader(rules.hashOf(header), header, parent.height + 1, parent.chainwork + work)
  }

  /** A header is accepted exactly if it has a stored parent, the bits required, and a hash that meets them. */
  lemma AcceptedIff(rules: Rules, known: Headers, header: BlockHeader, s: StoredHeader)
    requires Linked(known)
    ensures Validate(rules, known, header) == Ok(s) <==> Acceptable(rules, known, header, s)
  {
    hide Pow.CompactToTarget, Pow.WorkFromBits, BitsRequired, ExpectedMainnetBits, Weighs, Pow.BigEndian;
    if header.prevBlock in known {
      BitsRequiredIff(known, known[header.prevBlock], Ok(header.bits));
      var decoded := Pow.CompactToTarget(header.bits);
      TargetDecides(rules.hashOf(header), header.bits);
      if decoded.Ok? {
        var work := Pow.WorkFromBits(header.bits).value;
        WeighsIff(header.bits, decoded.value, work);
      }
      if Acceptable(rules, known, header, s) {
        var parent := known[header.prevBlock];
        var target: nat, work: nat :| Weighs(header.bits, target, work) &&
          Pow.BigEndian(rules.hashOf(header)) <= target &&
          s == StoredHeader(rules.hashOf(header), header, parent.height + 1, parent.chainwork + work);
        WeighsIff(header.bits, target, work);
      }
    }
  }

  /** Bits that do not decode give no work; bits that do are met by the hashes up to their target. */
  lemma TargetDecides(hash: Hash, bits: Pow.Bits)
    ensures Pow.CompactToTarget(bits).Ok? <==> Pow.WorkFromBits(bits).Ok?
    ensures Pow.CompactToTarget(bits).Ok? ==>
      Pow.PowCheck(hash, bits) == Ok(Pow.BigEndian(hash) <= Pow.CompactToTarget(bits).value)
  {
    if Pow.CompactToTarget(bits).Ok? { Pow.DecodedTargetIsExact(bits); }
  }

  /** What a header is turned away for: the first of four faults, each with its exact condition. */
  lemma RejectedIff(rules: Rules, known: Headers, header: BlockHeader)
    requires Linked(known)
    ensures Validate(rules, known, header) == Err(UnknownParent) <==> header.prevBlock !in known
    ensures forall actual, expected ::
      Validate(rules, known, header) == Err(InvalidDifficultyBits(actual, expected)) <==>
        && header.prevBlock in known && rules.policy == Mainnet && actual == header.bits != expected
        && BitsRequired(known, known[header.prevBlock], Ok(expected))
    ensures Validate(rules, known, header) == Err(InvalidProofOfWork) <==>
      && header.prevBlock in known
      && (rules.policy == Mainnet ==> BitsRequired(known, known[header.prevBlock], Ok(header.bits)))
      && if Pow.ShiftsToZero(header.bits) then Pow.BigEndian(rules.hashOf(header)) > 0
         else Pow.CompactToTarget(header.bits).Ok? &&
              Pow.BigEndian(rules.hashOf(header)) > Pow.CompactToTarget(header.bits).value
    ensures forall e ::
      Validate(rules, known, header) == Err(PowFailure(e)) <==>
        && header.prevBlock in known
        && (|| (rules.policy == Mainnet && BitsRequired(known, known[header.prevBlock], Err(PowFailure(e))))
            || (&& (rules.policy == Mainnet ==> BitsRequired(known, known[header.prevBlock], Ok(header.bits)))
                && Pow.CompactToTarget(header.bits) == Err(e)
                && (Pow.ShiftsToZero(header.bits) ==> Pow.BigEndian(rules.hashOf(header)) == 0)))
  {
    hide Pow.CompactToTarget, Pow.WorkFromBits, Pow.ShiftsToZero, BitsRequired, ExpectedMainnetBits, Pow.BigEndian;
    if header.prevBlock in known {
      var parent := known[header.prevBlock];
      forall expected
        ensures BitsRequired(known, parent, expected) <==> ExpectedMainnetBits(known, parent) == expected
      {
        BitsRequiredIff(known, parent, expected);
      }
      ExpectedNeverMisses(known, parent);
      hide Pow.PowCheck;
      TargetDecides(rules.hashOf(header), header.bits);
      NoTargetFails(rules.hashOf(header), header.bits);
    }
  }

  lemma NoTargetFails(hash: Hash, bits: Pow.Bits)
    ensures Pow.CompactToTarget(bits).Ok? ==> !Pow.ShiftsToZero(bits)
    ensures Pow.CompactToTarget(bits).Err? ==>
      && Pow.WorkFromBits(bits) == Err(Pow.CompactToTarget(bits).error)
      && Pow.PowCheck(hash, bits) == if Pow.ShiftsToZero(bits) then Ok(Pow.BigEndian(hash) == 0)
                                     else Err(Pow.CompactToTarget(bits).error)
  {
  }

  lemma ExpectedNeverMisses(known: Headers, parent: StoredHeader)
    requires Linked(known) && Knows(known, parent)
    ensures ExpectedMainnetBits(known, parent).Err? ==>
      ExpectedMainnetBits(known, parent) == Err(PowFailure(Pow.ZeroTarget))
  {
    if parent.height >= 146 {
      hide Window, RetargetBits, IsRetarget;
      WindowFound(known, parent);
      var (first, last) := Window(known, parent).value;
      var expected := RetargetBits(first, last);
      RetargetIff(first, last, expected);
      if expected.Err? { RetargetFault(first, last, expected); }
    }
  }

  lemma RetargetFault(first: StoredHeader, last: StoredHeader, expected: Result<Pow.Bits, ChainError>)
    requires IsRetarget(first, last, expected) && expected.Err?
    ensures expected == Err(PowFailure(Pow.ZeroTarget))
  {
  }

  lemma {:induction false} WalkIsStable(known: Headers, more: Headers, h: Hash)
    requires Linked(known) && Linked(more) && Extends(more, known) && h in known
    ensures Walk(more, h) == Walk(known, h)
    decreases known[h].height
  {
    if known[h].height > 0 {
      WalkIsStable(known, more, known[h].header.prevBlock);
    }
  }

  // ------------------------------------------------------------- operations

  ghost predicate Sound(st: ChainState) {
    Linked(st.headers) && (st.best.Some? ==> st.best.value in st.headers)
  }

  function BestWork(st: ChainState): int
    requires Sound(st)
  {
    if st.best.None? then -1 else st.headers[st.best.value].chainwork
  }

  /** The headers once `header`, validated and new, is filed among them. */
  function Filed(rules: Rules, known: Headers, header: BlockHeader): (more: Headers)
    requires Linked(known) && Validate(rules, known, header).Ok? && rules.hashOf(header) !in known
    ensures Linked(more) && Extends(more, known)
    ensures var s := Validate(rules, known, header).value;
      s.hash == rules.hashOf(header) && s.header == header && s.height > 0 && more == known[s.hash := s]
  {
    AddKeepsLinked(rules, known, header);
    ValidatedSitsAboveParent(rules, known, header);
    known[rules.hashOf(header) := Validate(rules, known, header).value]
  }

  function InsertGenesis(rules: Rules, st: ChainState, header: BlockHeader)
    : (ChainState, Result<StoredHeader, ChainError>)
  {
    match ValidateGenesis(rules, header)
    case Err(e) => (st, Err(e))
    case Ok(s) =>
      if s.hash in st.headers then (st, Err(DuplicateHeader))
      else (ChainState(st.headers[s.hash := s], map[0 := s.hash], Some(s.hash)), Ok(s))
  }

  /** Move the tip to `h`, rebuilding the index, if it has more work than the best one. */
  function Promote(st: ChainState, headers: Headers, h: Hash): (next: ChainState)
    requires Sound(st) && Linked(headers) && Extends(headers, st.headers) && h in headers
    ensures Sound(next) && next.headers == headers
  {
    if headers[h].chainwork > BestWork(st)
    then ChainState(headers, Rebuilt(headers, h), Some(h))
    else st.(headers := headers)
  }

  function InsertHeader(rules: Rules, st: ChainState, header: BlockHeader)
    : (next: (ChainState, Result<StoredHeader, ChainError>))
    requires Sound(st)
    ensures Sound(next.0)
  {
    match Validate(rules, st.headers, header)
    case Err(e) => (st, Err(e))
    case Ok(s) =>
      if rules.hashOf(header) in st.headers then (st, Err(DuplicateHeader))
      else (Promote(st, Filed(rules, st.headers, header), rules.hashOf(header)), Ok(s))
  }

  /** The headers of a batch that are new, each validated on top of those before it. */
  function AcceptAll(rules: Rules, known: Headers, batch: seq<BlockHeader>): Result<seq<StoredHeader>, ChainError>
    requires Linked(known)
    decreases |batch|
  {
    if batch == [] then Ok([])
    else if rules.hashOf(batch[0]) in known then AcceptAll(rules, known, batch[1..])
    else
      match Validate(rules, known, batch[0])
      case Err(e) => Err(e)
      case Ok(s) =>
        match AcceptAll(rules, Filed(rules, known, batch[0]), batch[1..])
        case Err(e) => Err(e)
        case Ok(rest) => Ok([s] + rest)
  }

  function AddAll(known: Headers, accepted: seq<StoredHeader>): Headers
    decreases |accepted|
  {
    if accepted == [] then known else AddAll(known[accepted[0].hash := accepted[0]], accepted[1..])
  }

  /** Where the greatest chainwork is attained for the last time. */
  function LastHeaviest(accepted: seq<StoredHeader>): (i: nat)
    requires accepted != []
    ensures i < |accepted|
    ensures forall j :: 0 <= j < |accepted| ==> accepted[j].chainwork <= accepted[i].chainwork
    ensures forall j :: i < j < |accepted| ==> accepted[j].chainwork < accepted[i].chainwork
  {
    if |accepted| == 1 then 0
    else
      var i := LastHeaviest(accepted[1..]);
      assert forall j :: 0 < j < |accepted| ==> accepted[j] == accepted[1..][j - 1];
      if accepted[0].chainwork > accepted[1..][i].chainwork then 0 else i + 1
  }

  function InsertBatch(rules: Rules, st: ChainState, batch: seq<BlockHeader>)
    : (ChainState, Result<seq<StoredHeader>, ChainError>)
    requires Sound(st)
  {
    match AcceptAll(rules, st.headers, batch)
    case Err(e) => (st, Err(e))
    case Ok(accepted) =>
      if accepted == [] then (st, Ok([]))
      else
        AcceptAllLinked(rules, st.headers, batch);
        (Promote(st, AddAll(st.headers, accepted), accepted[LastHeaviest(accepted)].hash), Ok(accepted))
  }

  /** `accepted` are new headers above genesis, distinct, and together with `known` they are `all`. */
  ghost predicate Grafted(known: Headers, all: Headers, accepted: seq<StoredHeader>) {
    && (forall i :: 0 <= i < |accepted| ==>
          accepted[i].hash !in known && Knows(all, accepted[i]) && accepted[i].height > 0)
    && (forall i, j :: 0 <= i < j < |accepted| ==> accepted[i].hash != accepted[j].hash)
    && (forall h :: h in all ==> h in known || exists i :: 0 <= i < |accepted| && accepted[i].hash == h)
  }

  lemma {:induction false} AcceptAllLinked(rules: Rules, known: Headers, batch: seq<BlockHeader>)
    requires Linked(known) && AcceptAll(rules, known, batch).Ok?
    ensures var accepted := AcceptAll(rules, known, batch).value;
      var all := AddAll(known, accepted);
      Linked(all) && Extends(all, known) && Grafted(known, all, accepted)
    decreases |batch|
  {
    hide Validate, Linked, Grafted;
    if batch == [] {
      assert Grafted(known, known, []) by { GraftedNone(known); }
    } else if rules.hashOf(batch[0]) in known {
      AcceptAllLinked(rules, known, batch[1..]);
    } else {
      var next := Filed(rules, known, batch[0]);
      var s := Validate(rules, known, batch[0]).value;
      AcceptAllLinked(rules, next, batch[1..]);
      var rest := AcceptAll(rules, next, batch[1..]).value;
      assert ([s] + rest)[1..] == rest;
      GraftedOneMore(known, next, AddAll(next, rest), s, rest);
    }
  }

  lemma GraftedNone(known: Headers)
    ensures Grafted(known, known, [])
  {
  }

  lemma GraftedOneMore(known: Headers, next: Headers, all: Headers, s: StoredHeader, rest: seq<StoredHeader>)
    requires s.hash !in known && s.height > 0 && next == known[s.hash := s]
    requires Extends(all, next) && Grafted(next, all, rest)
    ensures Grafted(known, all, [s] + rest) && Extends(all, known)
  {
    GraftedAreNew(known, next, all, s, rest);
    GraftedAreAll(known, next, all, s, rest);
  }

  lemma GraftedAreNew(known: Headers, next: Headers, all: Headers, s: StoredHeader, rest: seq<StoredHeader>)
    requires s.hash !in known && s.height > 0 && next == known[s.hash := s]
    requires Extends(all, next) && Grafted(next, all, rest)
    ensures Extends(all, known)
    ensures var accepted := [s] + rest;
      && (forall i :: 0 <= i < |accepted| ==>
            accepted[i].hash !in known && Knows(all, accepted[i]) && accepted[i].height > 0)
      && (forall i, j :: 0 <= i < j < |accepted| ==> accepted[i].hash != accepted[j].hash)
  {
    var accepted := [s] + rest;
    forall i | 0 < i < |accepted|
      ensures accepted[i].hash !in known && Knows(all, accepted[i]) && accepted[i].height > 0
      ensures accepted[i].hash != s.hash
    {
      assert accepted[i] == rest[i - 1] && rest[i - 1].hash !in next;
    }
    forall i, j | 0 < i < j < |accepted| ensures accepted[i].hash != accepted[j].hash {
      assert rest[i - 1].hash != rest[j - 1].hash;
    }
    assert all[s.hash] == next[s.hash];
  }

  lemma GraftedAreAll(known: Headers, next: Headers, all: Headers, s: StoredHeader, rest: seq<StoredHeader>)
    requires next == known[s.hash := s] && Grafted(next, all, rest)
    ensures var accepted := [s] + rest;
      forall h :: h in all ==> h in known || exists i :: 0 <= i < |accepted| && accepted[i].hash == h
  {
    var accepted := [s] + rest;
    forall h | h in all && h !in known
      ensures exists i :: 0 <= i < |accepted| && accepted[i].hash == h
    {
      if h == s.hash {
        assert accepted[0].hash == h;
      } else {
        var i :| 0 <= i < |rest| && rest[i].hash == h;
        assert accepted[i + 1].hash == h;
      }
    }
  }

  // --------------------------------------------------------------- invariant

  /** A stored header still passes every rule on top of what is stored. */
  ghost predicate Vetted(rules: Rules, known: Headers, s: StoredHeader)
    requires Linked(known)
  {
    if s.height == 0 then ValidateGenesis(rules, s.header) == Ok(s)
    else Validate(rules, known, s.header) == Ok(s)
  }

  /** The index and the tip are those of a heaviest stored header. */
  ghost predicate Indexed(st: ChainState)
    requires Linked(st.headers)
  {
    match st.best
    case None => st.headers == map[] && st.canonical == map[]
    case Some(tip) =>
      && tip in st.headers
      && (forall h :: h in st.headers ==> st.headers[h].chainwork <= st.headers[tip].chainwork)
      && st.canonical == Rebuilt(st.headers, tip)
  }

  ghost predicate Inv(rules: Rules, st: ChainState) {
    && Linked(st.headers)
    && (forall h :: h in st.headers ==> Vetted(rules, st.headers, st.headers[h]))
    && Indexed(st)
  }

  /** A stored header, spelled out: it hashes to its key, met its bits, and adds its own work to its parent's. */
  ghost predicate HeaderInOrder(rules: Rules, known: Headers, h: Hash)
    requires Linked(known) && h in known
  {
    var s := known[h];
    && h == rules.hashOf(s.header)
    && exists target: nat, work: nat ::
         && Weighs(s.header.bits, target, work) && work > 0
         && (s.height == 0 ==> s.chainwork == work && (rules.policy == Mainnet ==> s.header == rules.genesis))
         && (s.height > 0 ==>
               && s.chainwork == known[s.header.prevBlock].chainwork + work
               && s.height == known[s.header.prevBlock].height + 1
               && Pow.BigEndian(h) <= target
               && (rules.policy == Mainnet ==>
                     BitsRequired(known, known[s.header.prevBlock], Ok(s.header.bits))))
  }

  /** The index holds the heights from 0 to the tip's, every entry the parent of the one above. */
  ghost predicate IndexInOrder(st: ChainState, tip: Hash)
    requires tip in st.headers
  {
    && (forall i: nat :: i in st.canonical <==> i <= st.headers[tip].height)
    && st.headers[tip].height in st.canonical && st.canonical[st.headers[tip].height] == tip
    && (forall i: nat :: i in st.canonical ==>
          st.canonical[i] in st.headers && st.headers[st.canonical[i]].height == i)
    && (forall i: nat :: i > 0 && i in st.canonical ==>
          i - 1 in st.canonical && st.canonical[i - 1] == st.headers[st.canonical[i]].header.prevBlock)
  }

  lemma StoredHeaderInOrder(rules: Rules, st: ChainState, h: Hash)
    requires Inv(rules, st) && h in st.headers
    ensures HeaderInOrder(rules, st.headers, h)
  {
    hide Pow.WorkFromBits, Pow.CompactToTarget, Indexed, Validate, BitsRequired, Weighs;
    var s := st.headers[h];
    assert Vetted(rules, st.headers, s);
    if s.height == 0 {
      TargetDecides(h, s.header.bits);
      WeighsIff(s.header.bits, Pow.CompactToTarget(s.header.bits).value, s.chainwork);
    } else {
      AcceptedIff(rules, st.headers, s.header, s);
      var parent := st.headers[s.header.prevBlock];
      var target: nat, work: nat :| Weighs(s.header.bits, target, work) && Pow.BigEndian(h) <= target &&
                                    s == StoredHeader(h, s.header, parent.height + 1, parent.chainwork + work);
      WeighsIff(s.header.bits, target, work);
    }
    WorkFromBitsPositive(s.header.bits);
  }

  lemma CanonicalInOrder(rules: Rules, st: ChainState)
    requires Inv(rules, st) && st.best.Some?
    ensures IndexInOrder(st, st.best.value)
  {
    hide Walk, Rebuilt, Vetted;
    var tip := st.best.value;
    RebuiltEntries(st.headers, tip);
    forall i: nat | i in st.canonical
      ensures st.canonical[i] in st.headers && st.headers[st.canonical[i]].height == i
      ensures i > 0 ==> i - 1 in st.canonical && st.canonical[i - 1] == st.headers[st.canonical[i]].header.prevBlock
    {
      WalkEntries(st.headers, tip, i);
    }
  }

  /** A new acceptable header is filed, and becomes the tip exactly if it has more work; all else changes nothing. */
  lemma InsertIff(rules: Rules, st: ChainState, header: BlockHeader, s: StoredHeader)
    requires Sound(st)
    ensures var (next, r) := InsertHeader(rules, st, header);
      && (r == Ok(s) <==> Acceptable(rules, st.headers, header, s) && s.hash !in st.headers)
      && (Acceptable(rules, st.headers, header, s) && s.hash in st.headers ==> r == Err(DuplicateHeader))
      && (r.Err? ==> next == st)
      && (r == Ok(s) ==>
            && next.headers == st.headers[s.hash := s]
            && if st.best.None? || s.chainwork > st.headers[st.best.value].chainwork
               then next.best == Some(s.hash) && next.canonical == Rebuilt(next.headers, s.hash)
               else next.best == st.best && next.canonical == st.canonical)
  {
    hide Validate, Acceptable, Rebuilt;
    AcceptedIff(rules, st.headers, header, s);
    var verdict := Validate(rules, st.headers, header);
    if Acceptable(rules, st.headers, header, s) || verdict.Ok? {
      ValidatedSitsAboveParent(rules, st.headers, header);
    }
  }

  /** The first header is filed, as tip and whole index, exactly if it is the network's, where that is demanded, and its
      bits have work. */
  lemma GenesisIff(rules: Rules, header: BlockHeader, s: StoredHeader)
    ensures var (next, r) := InsertGenesis(rules, EMPTY, header);
      && (r == Ok(s) <==>
            && (rules.policy == Mainnet ==> header == rules.genesis)
            && exists target: nat, work: nat ::
                 Weighs(header.bits, target, work) && s == StoredHeader(rules.hashOf(header), header, 0, work))
      && (r == Ok(s) ==> next == ChainState(map[s.hash := s], map[0 := s.hash], Some(s.hash)))
  {
    hide Weighs, Pow.WorkFromBits, Pow.CompactToTarget;
    TargetDecides(rules.hashOf(header), header.bits);
    var decoded := Pow.CompactToTarget(header.bits);
    if decoded.Ok? { WeighsIff(header.bits, decoded.value, Pow.WorkFromBits(header.bits).value); }
    if target: nat, work: nat :|
      Weighs(header.bits, target, work) && s == StoredHeader(rules.hashOf(header), header, 0, work)
    {
      WeighsIff(header.bits, target, work);
    }
  }

  lemma InvIsSound(rules: Rules, st: ChainState)
    requires Inv(rules, st)
    ensures Sound(st)
  {
  }

  lemma VettedIsStable(rules: Rules, known: Headers, more: Headers, s: StoredHeader)
    requires Linked(known) && Linked(more) && Extends(more, known)
    requires Knows(known, s) && Vetted(rules, known, s)
    ensures Vetted(rules, more, s)
  {
    hide Validate;
    if s.height > 0 { AcceptanceIsStable(rules, known, more, s.header); }
  }

  /** Genesis on an empty chain starts the invariant off. */
  lemma GenesisStartsInv(rules: Rules, header: BlockHeader)
    ensures Inv(rules, InsertGenesis(rules, EMPTY, header).0)
  {
    hide Validate, Pow.WorkFromBits;
    if ValidateGenesis(rules, header).Ok? {
      var s := ValidateGenesis(rules, header).value;
      var headers := InsertGenesis(rules, EMPTY, header).0.headers;
      assert Walk(headers, s.hash) == [s];
      assert IndexOf([s]) == IndexOf([])[0 := s.hash];
    }
  }

  /**
   A later genesis keeps the invariant exactly when it is turned away, for being
   the wrong header, for its bits or as a duplicate, or weighs no less than the
   best tip.
   */
  lemma LateGenesis(rules: Rules, st: ChainState, header: BlockHeader)
    requires Inv(rules, st) && st.best.Some?
    ensures Inv(rules, InsertGenesis(rules, st, header).0) <==>
      || (rules.policy == Mainnet && header != rules.genesis)
      || Pow.WorkFromBits(header.bits).Err?
      || rules.hashOf(header) in st.headers
      || Pow.WorkFromBits(header.bits).value >= st.headers[st.best.value].chainwork
  {
    hide Validate, Pow.WorkFromBits, Vetted, Linked, Walk;
    if InsertGenesis(rules, st, header).1.Ok? {
      var s := InsertGenesis(rules, st, header).1.value;
      var headers := InsertGenesis(rules, st, header).0.headers;
      GenesisIsVetted(rules, st.headers, s);
      GenesisIndex(headers, s);
      assert st.best.value in headers;
    }
  }

  lemma GenesisIsVetted(rules: Rules, known: Headers, s: StoredHeader)
    requires Linked(known) && (forall h :: h in known ==> Vetted(rules, known, known[h]))
    requires s.hash !in known && ValidateGenesis(rules, s.header) == Ok(s)
    ensures var headers := known[s.hash := s];
      Linked(headers) && forall h :: h in headers ==> Vetted(rules, headers, headers[h])
  {
    hide Validate, Pow.WorkFromBits;
    var headers := known[s.hash := s];
    assert Linked(headers) && Extends(headers, known);
    forall h | h in headers ensures Vetted(rules, headers, headers[h]) {
      if h != s.hash { VettedIsStable(rules, known, headers, known[h]); }
    }
  }

  lemma GenesisIndex(headers: Headers, s: StoredHeader)
    requires Linked(headers) && s.hash in headers && headers[s.hash] == s && s.height == 0
    ensures Rebuilt(headers, s.hash) == map[0 := s.hash]
  {
    hide Linked;
    assert Walk(headers, s.hash) == [s];
    assert IndexOf([s]) == IndexOf([])[0 := s.hash];
  }

  /** Promotion over more headers, the new ones vetted and none heavier than the candidate, keeps the invariant. */
  lemma PromoteKeepsIndexed(st: ChainState, headers: Headers, h: Hash)
    requires Linked(st.headers) && Indexed(st) && st.best.Some?
    requires Linked(headers) && Extends(headers, st.headers) && h in headers
    requires forall k :: k in headers && k !in st.headers ==> headers[k].chainwork <= headers[h].chainwork
    ensures Indexed(Promote(st, headers, h))
  {
    hide Walk;
    WalkIsStable(st.headers, headers, st.best.value);
  }

  lemma InsertKeepsInv(rules: Rules, st: ChainState, header: BlockHeader)
    requires Inv(rules, st)
    ensures Sound(st) && Inv(rules, InsertHeader(rules, st, header).0)
    ensures InsertHeader(rules, st, header).1.Err? ==> InsertHeader(rules, st, header).0 == st
    ensures Extends(InsertHeader(rules, st, header).0.headers, st.headers)
    ensures BestWork(InsertHeader(rules, st, header).0) >= BestWork(st)
  {
    hide Validate, Linked, Indexed, Vetted;
    InvIsSound(rules, st);
    if InsertHeader(rules, st, header).1.Ok? {
      var headers := Filed(rules, st.headers, header);
      FiledStaysVetted(rules, st.headers, header);
      KnownParent(rules, st, header);
      PromoteKeepsIndexed(st, headers, rules.hashOf(header));
    }
  }

  lemma KnownParent(rules: Rules, st: ChainState, header: BlockHeader)
    requires Inv(rules, st) && Validate(rules, st.headers, header).Ok?
    ensures st.best.Some?
  {
    ValidatedSitsAboveParent(rules, st.headers, header);
  }

  lemma FiledStaysVetted(rules: Rules, known: Headers, header: BlockHeader)
    requires Linked(known) && Validate(rules, known, header).Ok? && rules.hashOf(header) !in known
    requires forall h :: h in known ==> Vetted(rules, known, known[h])
    ensures var more := Filed(rules, known, header); forall h :: h in more ==> Vetted(rules, more, more[h])
  {
    hide Validate;
    var more := Filed(rules, known, header);
    ValidatedSitsAboveParent(rules, known, header);
    AcceptanceIsStable(rules, known, more, header);
    forall h | h in more
      ensures Vetted(rules, more, more[h])
    {
      if h != rules.hashOf(header) { VettedIsStable(rules, known, more, known[h]); }
    }
  }

  // ------------------------------------------------- a batch, one at a time

  /** Insert the headers that are not stored yet one after the other, stopping at the first failure. */
  function Sequential(rules: Rules, st: ChainState, batch: seq<BlockHeader>)
    : (ChainState, Result<seq<StoredHeader>, ChainError>)
    requires Sound(st)
    decreases |batch|
  {
    if batch == [] then (st, Ok([]))
    else if rules.hashOf(batch[0]) in st.headers then Sequential(rules, st, batch[1..])
    else
      var (next, r) := InsertHeader(rules, st, batch[0]);
      match r
      case Err(e) => (next, Err(e))
      case Ok(s) =>
        var (end, rest) := Sequential(rules, next, batch[1..]);
        (end, match rest case Err(e) => Err(e) case Ok(accepted) => Ok([s] + accepted))
  }

  /** The tip once `accepted` have come in one by one: each takes over only by strictly more work. */
  function TipAfter(tip: StoredHeader, accepted: seq<StoredHeader>): StoredHeader
    decreases |accepted|
  {
    if accepted == [] then tip
    else TipAfter(if accepted[0].chainwork > tip.chainwork then accepted[0] else tip, accepted[1..])
  }

  lemma {:induction false} SequentialMatches(rules: Rules, st: ChainState, batch: seq<BlockHeader>)
    requires Inv(rules, st) && st.best.Some?
    ensures Sound(st)
    ensures var (end, r) := Sequential(rules, st, batch);
      && r == AcceptAll(rules, st.headers, batch)
      && Inv(rules, end) && Extends(end.headers, st.headers)
      && (r.Ok? ==> end.headers == AddAll(st.headers, r.value)
                    && end.best.Some? && end.headers[end.best.value] == TipAfter(st.headers[st.best.value], r.value))
    decreases |batch|
  {
    hide Validate, Linked, Vetted, Filed;
    InvIsSound(rules, st);
    if batch != [] {
      if rules.hashOf(batch[0]) in st.headers {
        SequentialMatches(rules, st, batch[1..]);
      } else if Validate(rules, st.headers, batch[0]).Ok? {
        OneInsert(rules, st, batch[0]);
        SequentialMatches(rules, InsertHeader(rules, st, batch[0]).0, batch[1..]);
        var s := Validate(rules, st.headers, batch[0]).value;
        assert forall rest :: ([s] + rest)[1..] == rest;
      }
    }
  }

  /** One successful insert files the header and moves the tip if it has strictly more work. */
  lemma OneInsert(rules: Rules, st: ChainState, header: BlockHeader)
    requires Inv(rules, st) && st.best.Some? && Sound(st)
    requires Validate(rules, st.headers, header).Ok? && rules.hashOf(header) !in st.headers
    ensures var (next, r) := InsertHeader(rules, st, header);
      var s := Validate(rules, st.headers, header).value;
      && Inv(rules, next) && r == Ok(s) && next.headers == Filed(rules, st.headers, header)
      && next.headers == st.headers[s.hash := s]
      && next.best.Some? && next.headers[next.best.value] ==
           (if s.chainwork > st.headers[st.best.value].chainwork then s else st.headers[st.best.value])
  {
    hide Validate, Linked, Vetted, Indexed;
    InsertKeepsInv(rules, st, header);
  }

  /** The heaviest of `accepted` is heavier than the tip and heaviest more than once. */
  ghost predicate Tied(tipWork: int, accepted: seq<StoredHeader>) {
    exists i, j :: 0 <= i < j < |accepted| && accepted[i].chainwork == accepted[j].chainwork > tipWork &&
      forall k :: 0 <= k < |accepted| ==> accepted[k].chainwork <= accepted[i].chainwork
  }

  lemma {:induction false} TipAfterIsFirstHeaviest(tip: StoredHeader, accepted: seq<StoredHeader>) returns (first: int)
    ensures -1 <= first < |accepted|
    ensures first == -1 ==> TipAfter(tip, accepted) == tip
    ensures first == -1 ==> forall k :: 0 <= k < |accepted| ==> accepted[k].chainwork <= tip.chainwork
    ensures first != -1 ==> TipAfter(tip, accepted) == accepted[first] && accepted[first].chainwork > tip.chainwork
    ensures first != -1 ==> forall k :: 0 <= k < |accepted| ==> accepted[k].chainwork <= accepted[first].chainwork
    ensures forall k :: 0 <= k < first ==> accepted[k].chainwork < accepted[first].chainwork
    decreases |accepted|
  {
    if accepted == [] {
      first := -1;
    } else {
      var ahead := accepted[0].chainwork > tip.chainwork;
      var rest := TipAfterIsFirstHeaviest(if ahead then accepted[0] else tip, accepted[1..]);
      assert forall k :: 0 < k < |accepted| ==> accepted[k] == accepted[1..][k - 1];
      first := if rest != -1 then rest + 1 else if ahead then 0 else -1;
    }
  }

  /** The tip of a batch against the tip of single inserts. */
  lemma TipsCompared(tip: StoredHeader, accepted: seq<StoredHeader>)
    requires accepted != []
    requires forall i, j :: 0 <= i < j < |accepted| ==> accepted[i].hash != accepted[j].hash
    ensures var last := accepted[LastHeaviest(accepted)];
      var batchTip := if last.chainwork > tip.chainwork then last else tip;
      && batchTip.chainwork == TipAfter(tip, accepted).chainwork
      && (!Tied(tip.chainwork, accepted) ==> batchTip == TipAfter(tip, accepted))
      && (Tied(tip.chainwork, accepted) ==> batchTip.hash != TipAfter(tip, accepted).hash)
  {
    var first := TipAfterIsFirstHeaviest(tip, accepted);
    var last := LastHeaviest(accepted);
    if Tied(tip.chainwork, accepted) {
      var i, j :| 0 <= i < j < |accepted| && accepted[i].chainwork == accepted[j].chainwork > tip.chainwork &&
        forall k :: 0 <= k < |accepted| ==> accepted[k].chainwork <= accepted[i].chainwork;
      assert first <= i < j <= last;
    }
  }

  lemma BatchKeepsInv(rules: Rules, st: ChainState, batch: seq<BlockHeader>)
    requires Inv(rules, st)
    ensures Sound(st) && Inv(rules, InsertBatch(rules, st, batch).0)
    ensures Extends(InsertBatch(rules, st, batch).0.headers, st.headers)
    ensures InsertBatch(rules, st, batch).1.Err? ==> InsertBatch(rules, st, batch).0 == st
  {
    hide Linked, Vetted, Indexed, Grafted;
    InvIsSound(rules, st);
    match AcceptAll(rules, st.headers, batch) {
      case Err(_) =>
      case Ok(accepted) =>
        if accepted != [] {
          BatchHasParent(rules, st, batch);
          SequentialMatches(rules, st, batch);
          AcceptAllLinked(rules, st.headers, batch);
          var all := AddAll(st.headers, accepted);
          HeaviestOfGrafted(st.headers, all, accepted);
          PromoteKeepsIndexed(st, all, accepted[LastHeaviest(accepted)].hash);
        }
    }
  }

  lemma HeaviestOfGrafted(known: Headers, all: Headers, accepted: seq<StoredHeader>)
    requires accepted != [] && Grafted(known, all, accepted)
    ensures var last := accepted[LastHeaviest(accepted)];
      last.hash in all && all[last.hash] == last &&
      forall k :: k in all && k !in known ==> all[k].chainwork <= last.chainwork
  {
  }

  /** An empty chain accepts nothing from a batch. */
  lemma {:induction false} BatchHasParent(rules: Rules, st: ChainState, batch: seq<BlockHeader>)
    requires Inv(rules, st)
    requires AcceptAll(rules, st.headers, batch).Ok? && AcceptAll(rules, st.headers, batch).value != []
    ensures st.best.Some?
    decreases |batch|
  {
    hide Vetted;
    assert batch != [];
  }

  /**
   A batch against single inserts. The same headers are accepted or the same
   first error comes out; a failing batch changes nothing; a successful one
   leaves the same headers and the same best chainwork, and the same whole
   state exactly when the heaviest accepted header is not tied.
   */
  lemma BatchEqualsSequential(rules: Rules, st: ChainState, batch: seq<BlockHeader>)
    requires Inv(rules, st) && st.best.Some?
    ensures Sound(st)
    ensures var (single, r) := Sequential(rules, st, batch);
      var (bulk, r') := InsertBatch(rules, st, batch);
      && r == r' && Inv(rules, single) && Inv(rules, bulk)
      && (r'.Err? ==> bulk == st)
      && (r'.Ok? ==> bulk.headers == single.headers && Sound(bulk) && Sound(single)
                     && BestWork(bulk) == BestWork(single)
                     && (bulk == single <==> !Tied(BestWork(st), r'.value)))
  {
    hide Linked, Vetted, Grafted, Walk;
    SequentialMatches(rules, st, batch);
    BatchKeepsInv(rules, st, batch);
    match AcceptAll(rules, st.headers, batch) {
      case Err(_) =>
      case Ok(accepted) =>
        InvIsSound(rules, Sequential(rules, st, batch).0);
        if accepted != [] {
          AcceptAllLinked(rules, st.headers, batch);
          var all := AddAll(st.headers, accepted);
          HeaviestOfGrafted(st.headers, all, accepted);
          GraftedDistinct(st.headers, all, accepted);
          TipsCompared(st.headers[st.best.value], accepted);
          TipIsFiled(rules, InsertBatch(rules, st, batch).0);
          TipIsFiled(rules, Sequential(rules, st, batch).0);
        }
    }
  }

  lemma GraftedDistinct(known: Headers, all: Headers, accepted: seq<StoredHeader>)
    requires Grafted(known, all, accepted)
    ensures forall i, j :: 0 <= i < j < |accepted| ==> accepted[i].hash != accepted[j].hash
  {
  }

  lemma TipIsFiled(rules: Rules, st: ChainState)
    requires Inv(rules, st) && st.best.Some?
    ensures st.best.value in st.headers && st.headers[st.best.value].hash == st.best.value
  {
  }

  // -------------------------------------------------------------- whole runs

  datatype Step = One(header: BlockHeader) | Many(headers: seq<BlockHeader>)

  function Apply(rules: Rules, st: ChainState, step: Step): ChainState
    requires Sound(st)
  {
    match step
    case One(header) => InsertHeader(rules, st, header).0
    case Many(headers) => InsertBatch(rules, st, headers).0
  }

  lemma ApplyKeepsInv(rules: Rules, st: ChainState, step: Step)
    requires Inv(rules, st)
    ensures Sound(st) && Inv(rules, Apply(rules, st, step)) && Extends(Apply(rules, st, step).headers, st.headers)
  {
    hide Inv, Extends;
    match step {
      case One(header) => InsertKeepsInv(rules, st, header);
      case Many(headers) => BatchKeepsInv(rules, st, headers);
    }
  }

  /** `states` are the states of a run: a genesis on an empty chain, then `steps` one after the other. */
  ghost predicate IsRun(rules: Rules, genesis: BlockHeader, steps: seq<Step>, states: seq<ChainState>) {
    && |states| == |steps| + 1
    && states[0] == InsertGenesis(rules, EMPTY, genesis).0
    && forall i {:trigger steps[i]} :: 0 <= i < |steps| ==>
         Sound(states[i]) && states[i + 1] == Apply(rules, states[i], steps[i])
  }

  /** Every state of every run satisfies the invariant, and no run ever forgets a header. */
  lemma {:induction false} RunsKeepInv(rules: Rules, genesis: BlockHeader, steps: seq<Step>, states: seq<ChainState>,
                                       i: nat)
    requires IsRun(rules, genesis, steps, states) && i < |states|
    ensures Inv(rules, states[i])
    ensures forall j :: 0 <= j <= i ==> Extends(states[i].headers, states[j].headers)
  {
    hide Inv, Apply, InsertGenesis;
    if i == 0 {
      GenesisStartsInv(rules, genesis);
    } else {
      RunsKeepInv(rules, genesis, steps, states, i - 1);
      assert states[i - 1 + 1] == Apply(rules, states[i - 1], steps[i - 1]);
      ApplyKeepsInv(rules, states[i - 1], steps[i - 1]);
    }
  }
}
