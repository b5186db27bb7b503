/** Inputs on which the chain does not do what one might expect: a late genesis, and two siblings in one batch. */
module ChainExamples {
  import opened Bytes
  import opened BlockHeaders
  import opened HeaderRules
  import opened ChainSpec
  import Pow

  const EASY_BITS: Pow.Bits := 0x207f_ffff

  /** A header whose hash, here its mask, is the one given. */
  function HeaderWithHash(hash: Hash, prevBlock: Hash, bits: Pow.Bits): BlockHeader {
    BlockHeader(0, 0, prevBlock, ZERO_HASH, Zeros(24), ZERO_HASH, ZERO_HASH, ZERO_HASH, 0, bits, hash)
  }

  function MaskOf(header: BlockHeader): Hash {
    header.mask
  }

  /** Hashes that meet any bits these headers have. */
  function SmallHash(n: byte): Hash {
    Zeros(31) + [n]
  }

  const GENESIS: BlockHeader := HeaderWithHash(SmallHash(0), ZERO_HASH, MAINNET_POW_BITS)
  const RULES: Rules := Rules(Permissive, GENESIS, MaskOf)
  const LIGHT_GENESIS: BlockHeader := HeaderWithHash(SmallHash(1), ZERO_HASH, EASY_BITS)
  const FIRST_CHILD: BlockHeader := HeaderWithHash(SmallHash(1), SmallHash(0), MAINNET_POW_BITS)
  const SECOND_CHILD: BlockHeader := HeaderWithHash(SmallHash(2), SmallHash(0), MAINNET_POW_BITS)

  ghost function Started(): ChainState {
    InsertGenesis(RULES, EMPTY, GENESIS).0
  }

  lemma SmallHashIsSmall(n: byte)
    ensures Pow.BigEndian(SmallHash(n)) == n as int
  {
    Pow.LeadingZeros(Zeros(31), [n]);
    assert [n][..0] == [];
  }

  lemma SmallHashesDiffer(m: byte, n: byte)
    requires m != n
    ensures SmallHash(m) != SmallHash(n)
  {
    assert SmallHash(m)[31] == m && SmallHash(n)[31] == n;
  }

  /** The easy bits decode to a target above 2^254, worth less than 4. */
  lemma EasyWork()
    ensures Pow.WorkFromBits(EASY_BITS).Ok? && Pow.WorkFromBits(EASY_BITS).value < 4
  {
    hide Pow.Exp256;
    Pow.TargetFits(0x7f_ffff, 29);
    var target := 0x7f_ffff * Pow.Exp256(29);
    Pow.Exp256Sum(29, 3);
    Pow.SmallPowers();
    assert 4 * (target + 1) > Pow.TWO_256;
    Pow.WorkIsPositive(target);
    Pow.QuotientAtLeast(Pow.TWO_256, target + 1, 4);
  }

  /** The work of the proof-of-work limit. */
  ghost function LimitWork(): nat {
    if Pow.WorkFromBits(MAINNET_POW_BITS).Ok? then Pow.WorkFromBits(MAINNET_POW_BITS).value else 0
  }

  lemma RoomAboveLimit(unit: nat, rest: nat)
    requires unit >= 1 && rest >= 0x100_0000
    ensures 4 * (0xffff * unit + 1) <= unit * rest
  {
    Pow.MulMonotone(0x100_0000, rest, unit);
  }

  lemma LimitIsHeavy()
    ensures Pow.WorkFromBits(MAINNET_POW_BITS).Ok? && LimitWork() >= 4
  {
    hide Pow.Exp256, Pow.CompactToTarget;
    PowLimitDecodes();
    var unit := Pow.Exp256(25);
    Pow.Exp256Sum(25, 7);
    Pow.SmallPowers();
    Pow.Exp256Grows(3, 7);
    RoomAboveLimit(unit, Pow.Exp256(7));
    Pow.WorkIsPositive(0xffff * unit);
    Pow.QuotientAtLeast(Pow.TWO_256, 0xffff * unit + 1, 4);
  }

  lemma SmallHashMeetsLimit(n: byte)
    ensures Pow.PowCheck(SmallHash(n), MAINNET_POW_BITS) == Ok(true)
  {
    hide Pow.Exp256, SmallHash, Pow.CompactToTarget;
    PowLimitDecodes();
    SmallHashIsSmall(n);
    assert Pow.Exp256(25) >= 1;
  }

  lemma GenesisIsStored()
    ensures Inv(RULES, Started()) && Started().best == Some(SmallHash(0)) && SmallHash(0) in Started().headers
    ensures Started().headers.Keys == {SmallHash(0)}
    ensures Started().headers[SmallHash(0)].chainwork == LimitWork()
    ensures Started().headers[SmallHash(0)].height == 0
  {
    hide Pow.WorkFromBits, SmallHash, Inv;
    LimitIsHeavy();
    GenesisStartsInv(RULES, GENESIS);
  }

  /** A second genesis, accepted although it weighs less than the tip, breaks the invariant. */
  lemma LateGenesisBreaksInv()
    ensures Inv(RULES, Started()) && InsertGenesis(RULES, Started(), LIGHT_GENESIS).1.Ok?
    ensures !Inv(RULES, InsertGenesis(RULES, Started(), LIGHT_GENESIS).0)
  {
    hide Pow.WorkFromBits, SmallHash, Inv, Started;
    GenesisIsStored();
    SmallHashesDiffer(0, 1);
    EasyWork();
    LimitIsHeavy();
    LateGenesis(RULES, Started(), LIGHT_GENESIS);
  }

  /** Where the genesis stands, a child with the limit's bits is accepted. */
  lemma ChildIsValid(known: Headers, n: byte)
    requires Linked(known) && SmallHash(0) in known && known[SmallHash(0)].height == 0
    ensures var header := HeaderWithHash(SmallHash(n), SmallHash(0), MAINNET_POW_BITS);
      Validate(RULES, known, header) ==
      Ok(StoredHeader(SmallHash(n), header, 1, known[SmallHash(0)].chainwork + LimitWork()))
  {
    hide Pow.WorkFromBits, Pow.PowCheck, SmallHash;
    LimitIsHeavy();
    SmallHashMeetsLimit(n);
  }

  lemma AcceptTwo(rules: Rules, known: Headers, one: BlockHeader, two: BlockHeader)
    requires Linked(known) && rules.hashOf(one) !in known && Validate(rules, known, one).Ok?
    requires var more := Filed(rules, known, one);
      Linked(more) && rules.hashOf(two) !in more && Validate(rules, more, two).Ok?
    ensures AcceptAll(rules, known, [one, two]) ==
            Ok([Validate(rules, known, one).value, Validate(rules, Filed(rules, known, one), two).value])
  {
    hide Validate, Linked;
    var more := Filed(rules, known, one);
    assert [one, two][1..] == [two] && [two][1..] == [];
    AddKeepsLinked(rules, more, two);
    assert AcceptAll(rules, Filed(rules, more, two), []) == Ok([]);
    var first, second := Validate(rules, known, one).value, Validate(rules, more, two).value;
    assert AcceptAll(rules, more, [two]) == Ok([second] + []);
    assert AcceptAll(rules, known, [one, two]) == Ok([first] + ([second] + []));
    assert [first] + ([second] + []) == [first, second];
  }

  /** Both siblings are accepted, with the same work, more than the genesis has. */
  lemma SiblingsAccepted()
    ensures Linked(Started().headers)
    ensures var accepted := AcceptAll(RULES, Started().headers, [FIRST_CHILD, SECOND_CHILD]);
      && accepted.Ok? && |accepted.value| == 2
      && accepted.value[0].chainwork == accepted.value[1].chainwork == 2 * LimitWork()
  {
    hide Pow.WorkFromBits, SmallHash, Started, Validate, AcceptAll;
    GenesisIsStored();
    var known := Started().headers;
    InvIsSound(RULES, Started());
    SmallHashesDiffer(0, 1);
    SmallHashesDiffer(0, 2);
    SmallHashesDiffer(1, 2);
    ChildIsValid(known, 1);
    ChildIsValid(Filed(RULES, known, FIRST_CHILD), 2);
    AcceptTwo(RULES, known, FIRST_CHILD, SECOND_CHILD);
  }

  /** Two siblings of equal work: the batch ends on the second, single inserts on the first. */
  lemma SiblingsInBatchDiffer()
    ensures Inv(RULES, Started()) && Sound(Started())
    ensures var batch := [FIRST_CHILD, SECOND_CHILD];
      && InsertBatch(RULES, Started(), batch).1.Ok?
      && InsertBatch(RULES, Started(), batch).0 != Sequential(RULES, Started(), batch).0
  {
    hide Inv, Started, AcceptAll, Linked, Sequential, Validate, LastHeaviest, SmallHash, Rebuilt, Walk;
    GenesisIsStored();
    SiblingsAccepted();
    LimitIsHeavy();
    var st, batch := Started(), [FIRST_CHILD, SECOND_CHILD];
    InvIsSound(RULES, st);
    var accepted := AcceptAll(RULES, st.headers, batch).value;
    assert accepted[0].chainwork == accepted[1].chainwork > BestWork(st);
    assert Tied(BestWork(st), accepted);
    BatchEqualsSequential(RULES, st, batch);
  }
}
