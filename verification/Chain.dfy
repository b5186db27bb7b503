/**
 The header chain as it runs: an in-memory store of maps updated in place, and
 on top of it the fast paths (appending to the index instead of rebuilding it,
 bulk validation with pending headers and cached work), each proved to leave
 the state that `ChainSpec` states in its simple form.
 */
module Chain {
  import opened Bytes
  import opened BlockHeaders
  import opened HeaderRules
  import opened ChainSpec
  import Pow

  function Reversed<T>(s: seq<T>): (r: seq<T>)
    ensures |r| == |s|
  {
    if s == [] then [] else [s[|s| - 1]] + Reversed(s[..|s| - 1])
  }

  class MemoryHeaderStore {
    var headers: Headers
    var canonical: map<nat, Hash>
    var best: Option<Hash>

    constructor ()
      ensures State() == EMPTY
    {
      headers, canonical, best := map[], map[], None;
    }

    ghost function State(): ChainState
      reads this
    {
      ChainState(headers, canonical, best)
    }

    function GetHeader(hash: Hash): (r: Option<StoredHeader>)
      reads this
      ensures hash in headers ==> r == Some(headers[hash])
      ensures hash !in headers ==> r == None
    {
      if hash in headers then Some(headers[hash]) else None
    }

    method PutHeader(header: StoredHeader) returns (r: Result<(), ChainError>)
      modifies this`headers
      ensures header.hash in old(headers) ==> r == Err(DuplicateHeader) && headers == old(headers)
      ensures header.hash !in old(headers) ==> r == Ok(()) && headers == old(headers)[header.hash := header]
    {
      if header.hash in headers {
        return Err(DuplicateHeader);
      }
      headers := headers[header.hash := header];
      r := Ok(());
    }

    /** How many headers can be stored one after the other before one is there already. */
    static function NewRun(known: Headers, all: seq<StoredHeader>): (n: nat)
      ensures n <= |all|
      decreases |all|
    {
      if all == [] || all[0].hash in known then 0 else 1 + NewRun(known[all[0].hash := all[0]], all[1..])
    }

    /** One after the other, stopping at the first that is already there; those before it stay stored. */
    method PutHeaders(all: seq<StoredHeader>) returns (r: Result<(), ChainError>)
      modifies this`headers
      ensures var n := NewRun(old(headers), all);
        && headers == AddAll(old(headers), all[..n])
        && r == if n == |all| then Ok(()) else Err(DuplicateHeader)
      ensures (forall i :: 0 <= i < |all| ==> all[i].hash !in old(headers)) &&
              (forall i, j :: 0 <= i < j < |all| ==> all[i].hash != all[j].hash)
              ==> r == Ok(()) && headers == AddAll(old(headers), all)
      ensures Extends(headers, old(headers))
    {
      ghost var n := NewRun(old(headers), all);
      for k := 0 to |all|
        invariant Extends(headers, old(headers))
        invariant forall h :: h in headers ==> h in old(headers) || exists i :: 0 <= i < k && all[i].hash == h
        invariant k <= n && n == k + NewRun(headers, all[k..])
        invariant AddAll(old(headers), all[..n]) == AddAll(headers, all[k..n])
      {
        assert all[k..][1..] == all[k + 1..];
        var one := PutHeader(all[k]);
        if one.Err? {
          assert all[k..n] == [];
          return one;
        }
        assert all[k..n][1..] == all[k + 1..n];
      }
      assert all[..|all|] == all;
      r := Ok(());
    }

    method PromoteCanonicalTip(header: StoredHeader) returns (r: Result<(), ChainError>)
      modifies this`canonical, this`best
      ensures header.hash !in headers ==>
                r == Err(MissingBestHeader) && canonical == old(canonical) && best == old(best)
      ensures header.hash in headers ==>
                r == Ok(()) && canonical == old(canonical)[header.height := header.hash] && best == Some(header.hash)
    {
      if header.hash !in headers {
        return Err(MissingBestHeader);
      }
      canonical := canonical[header.height := header.hash];
      best := Some(header.hash);
      r := Ok(());
    }

    /** The index after appending one entry per header. */
    static function Appended(index: map<nat, Hash>, chain: seq<StoredHeader>): map<nat, Hash> {
      if chain == [] then index
      else Appended(index, chain[..|chain| - 1])[chain[|chain| - 1].height := chain[|chain| - 1].hash]
    }

    /** How many headers of a run are stored before one is not. */
    static function StoredRun(known: Headers, chain: seq<StoredHeader>): (n: nat)
      ensures n <= |chain| && forall i :: 0 <= i < n ==> chain[i].hash in known
      ensures n < |chain| ==> chain[n].hash !in known
    {
      if chain == [] || chain[0].hash !in known then 0 else 1 + StoredRun(known, chain[1..])
    }

    /** One entry after the other, stopping at the first header that is not stored; an empty run changes nothing. */
    method PromoteCanonicalTips(chain: seq<StoredHeader>) returns (r: Result<(), ChainError>)
      modifies this`canonical, this`best
      ensures var n := StoredRun(headers, chain);
        && r == (if n == |chain| then Ok(()) else Err(MissingBestHeader))
        && canonical == Appended(old(canonical), chain[..n])
        && best == if n == 0 then old(best) else Some(chain[n - 1].hash)
    {
      hide StoredRun, Appended;
      ghost var n := StoredRun(headers, chain);
      assert Appended(old(canonical), chain[..0]) == old(canonical) by { AppendedNone(canonical); }
      for k := 0 to |chain|
        invariant k <= n
        invariant canonical == Appended(old(canonical), chain[..k])
        invariant best == if k == 0 then old(best) else Some(chain[k - 1].hash)
      {
        AppendedSnoc(old(canonical), chain, k);
        var one := PromoteCanonicalTip(chain[k]);
        if one.Err? {
          return one;
        }
      }
      assert chain[..|chain|] == chain;
      r := Ok(());
    }

    static lemma AppendedNone(index: map<nat, Hash>)
      ensures Appended(index, []) == index
    {
    }

    static lemma AppendedSnoc(index: map<nat, Hash>, chain: seq<StoredHeader>, k: nat)
      requires k < |chain|
      ensures Appended(index, chain[..k + 1]) == Appended(index, chain[..k])[chain[k].height := chain[k].hash]
    {
      assert chain[..k + 1][..k] == chain[..k];
    }

    /** Throw the index away and write it anew from `chain`. */
    method ReplaceCanonicalChain(chain: seq<StoredHeader>) returns (r: Result<(), ChainError>)
      modifies this`canonical, this`best
      ensures chain != [] && (forall i :: 0 <= i < |chain| ==> chain[i].hash in headers) ==>
                r == Ok(()) && canonical == IndexOf(chain) && best == Some(chain[|chain| - 1].hash)
      ensures !(chain != [] && forall i :: 0 <= i < |chain| ==> chain[i].hash in headers) ==>
                r == Err(MissingBestHeader) && canonical == old(canonical) && best == old(best)
    {
      if chain == [] || exists i :: 0 <= i < |chain| && chain[i].hash !in headers {
        return Err(MissingBestHeader);
      }
      canonical := map[];
      for k := 0 to |chain|
        invariant canonical == IndexOf(chain[..k])
      {
        assert chain[..k + 1][..k] == chain[..k];
        canonical := canonical[chain[k].height := chain[k].hash];
      }
      assert chain[..|chain|] == chain;
      best := Some(chain[|chain| - 1].hash);
      r := Ok(());
    }
  }

  class HeaderChain {
    const store: MemoryHeaderStore
    const rules: Rules

    constructor (store: MemoryHeaderStore, rules: Rules)
      ensures this.store == store && this.rules == rules
    {
      this.store := store;
      this.rules := rules;
    }

    ghost predicate Valid()
      reads this, store
    {
      Inv(rules, store.State())
    }

    /** In a chain in order the tip is there, unless nothing is, and no stored header has more work. */
    method BestHeader() returns (r: Result<Option<StoredHeader>, ChainError>)
      ensures Valid() ==> r.Ok? && (r.value.None? <==> store.headers == map[])
      ensures Valid() && r.value.Some? ==>
        && Knows(store.headers, r.value.value)
        && forall h :: h in store.headers ==> store.headers[h].chainwork <= r.value.value.chainwork
      ensures match store.best
              case None => r == Ok(None)
              case Some(h) => r == if h in store.headers then Ok(Some(store.headers[h])) else Err(MissingBestHeader)
    {
      match store.best {
        case None => return Ok(None);
        case Some(h) =>
          var stored := store.GetHeader(h);
          return if stored.Some? then Ok(stored) else Err(MissingBestHeader);
      }
    }

    /** Collects the parents of `hash` one by one and turns the list round. */
    method CanonicalChainTo(hash: Hash) returns (r: Result<seq<StoredHeader>, ChainError>)
      requires Linked(store.headers)
      ensures hash !in store.headers ==> r == Err(MissingBestHeader)
      ensures hash in store.headers ==> r == Ok(Walk(store.headers, hash))
    {
      hide Linked, Walk;
      if hash !in store.headers {
        return Err(MissingBestHeader);
      }
      KnowsIt(store.headers, hash);
      WalkTop(store.headers, hash);
      var current := store.headers[hash];
      var chain := [current];
      ReversedSnoc([], current);
      assert chain == [] + [current] && Reversed(chain) == [current];
      while current.height > 0
        invariant Knows(store.headers, current)
        invariant Walk(store.headers, hash) == Walk(store.headers, current.hash)[..current.height] + Reversed(chain)
        decreases current.height
      {
        KnowsIt(store.headers, current.hash);
        if current.header.prevBlock !in store.headers {
          return Err(UnknownParent);
        }
        WalkBelow(store.headers, current.hash);
        current := store.headers[current.header.prevBlock];
        ReversedSnoc(chain, current);
        ghost var below := Walk(store.headers, current.hash)[..current.height];
        assert below + [current] + Reversed(chain) == below + ([current] + Reversed(chain));
        chain := chain + [current];
      }
      assert Walk(store.headers, current.hash)[..0] + Reversed(chain) == Reversed(chain);
      r := Ok(Reversed(chain));
    }

    static lemma KnowsIt(known: Headers, h: Hash)
      requires Linked(known) && h in known
      ensures known[h].hash == h && Knows(known, known[h])
      ensures known[h].height > 0 ==>
                known[h].header.prevBlock in known && Knows(known, known[known[h].header.prevBlock])
      ensures known[h].height > 0 ==> known[known[h].header.prevBlock].height + 1 == known[h].height
    {
    }

    static lemma WalkTop(known: Headers, h: Hash)
      requires Linked(known) && h in known
      ensures Walk(known, h) == Walk(known, h)[..known[h].height] + [known[h]]
    {
    }

    static lemma WalkBelow(known: Headers, h: Hash)
      requires Linked(known) && h in known && known[h].height > 0
      ensures known[h].header.prevBlock in known
      ensures var parent := known[known[h].header.prevBlock];
        && Knows(known, parent) && parent.height + 1 == known[h].height
        && Walk(known, h)[..known[h].height] == Walk(known, parent.hash)[..parent.height] + [parent]
    {
      hide Walk;
      KnowsIt(known, h);
      WalkTop(known, known[h].header.prevBlock);
      WalkUnfolds(known, h);
    }

    static lemma WalkUnfolds(known: Headers, h: Hash)
      requires Linked(known) && h in known && known[h].height > 0
      ensures Walk(known, h)[..known[h].height] == Walk(known, known[h].header.prevBlock)
    {
    }

    static lemma ReversedSnoc<T>(s: seq<T>, x: T)
      ensures Reversed(s + [x]) == [x] + Reversed(s)
    {
      assert (s + [x])[..|s|] == s;
    }

    /** Full rebuild of the index to `hash`. */
    method PromoteBestHash(hash: Hash) returns (r: Result<(), ChainError>)
      requires Linked(store.headers) && hash in store.headers
      modifies store`canonical, store`best
      ensures r == Ok(()) && store.canonical == Rebuilt(store.headers, hash) && store.best == Some(hash)
    {
      var chain := CanonicalChainTo(hash);
      var walk := chain.value;
      forall i | 0 <= i < |walk| ensures walk[i].hash in store.headers { WalkEntries(store.headers, hash, i); }
      r := store.ReplaceCanonicalChain(walk);
    }

    method AddGenesis(header: BlockHeader) returns (r: Result<StoredHeader, ChainError>)
      requires Valid()
      modifies store
      ensures (store.State(), r) == InsertGenesis(rules, old(store.State()), header)
    {
      hide Validate, Pow.WorkFromBits, Vetted;
      var genesis := ValidateGenesis(rules, header);
      if genesis.Err? {
        return genesis;
      }
      var stored := genesis.value;
      var put := store.PutHeader(stored);
      if put.Err? {
        return Err(put.error);
      }
      var promoted := PromoteBestHash(stored.hash);
      assert Walk(store.headers, stored.hash) == [stored];
      assert IndexOf([stored]) == IndexOf([])[0 := stored.hash];
      r := Ok(stored);
    }

    /** The header's parents one by one, down to `height`. */
    static method FindAncestor(known: Headers, header: StoredHeader, height: nat)
      returns (r: Result<StoredHeader, ChainError>)
      requires Linked(known) && Knows(known, header)
      ensures r == Ancestor(known, header, height)
    {
      if height > header.height {
        return Err(InvalidDifficultyWindow);
      }
      var current := header;
      while current.height > height
        invariant Knows(known, current) && current.height >= height
        invariant Ancestor(known, header, height) == Ancestor(known, current, height)
        decreases current.height
      {
        var previous := Previous(known, current);
        if previous.Err? {
          return previous;
        }
        current := previous.value;
      }
      r := Ok(current);
    }

    /** The difficulty rule, over stored and pending headers alike. */
    method ValidateDifficulty(known: Headers, header: BlockHeader, parent: StoredHeader)
      returns (r: Option<ChainError>)
      requires Linked(known) && Knows(known, parent)
      ensures r == CheckBits(rules, known, header, parent)
    {
      hide Linked, SuitableBlock, Ancestor, RetargetBits;
      if rules.policy == Permissive {
        return None;
      }
      var expected: Result<Pow.Bits, ChainError> := Ok(MAINNET_POW_BITS);
      if parent.height >= BLOCKS_PER_DAY + 2 {
        var last := SuitableBlock(known, parent);
        if last.Err? {
          return Some(last.error);
        }
        var ancestor := FindAncestor(known, parent, parent.height - BLOCKS_PER_DAY);
        if ancestor.Err? {
          return Some(ancestor.error);
        }
        var first := SuitableBlock(known, ancestor.value);
        if first.Err? {
          return Some(first.error);
        }
        expected := RetargetBits(first.value, last.value);
      }
      if expected.Err? {
        return Some(expected.error);
      }
      r := if header.bits != expected.value then Some(InvalidDifficultyBits(header.bits, expected.value)) else None;
    }

    /** All rules for one header, in the order in which they are checked. */
    method ValidateOne(header: BlockHeader) returns (r: Result<StoredHeader, ChainError>)
      requires Linked(store.headers)
      ensures r == Validate(rules, store.headers, header)
    {
      hide Linked, Pow.WorkFromBits, Pow.PowCheck, CheckBits;
      if header.prevBlock !in store.headers {
        return Err(UnknownParent);
      }
      var parent := store.headers[header.prevBlock];
      var hash := rules.hashOf(header);
      KnowsParent(store.headers, header);
      var wrong := ValidateDifficulty(store.headers, header, parent);
      if wrong.Some? {
        return Err(wrong.value);
      }
      var met := Pow.VerifyPow(hash, header.bits);
      if met.Err? {
        return Err(PowFailure(met.error));
      }
      if !met.value {
        return Err(InvalidProofOfWork);
      }
      var work := Pow.WorkFromBits(header.bits);
      if work.Err? {
        return Err(PowFailure(work.error));
      }
      r := Ok(StoredHeader(hash, header, parent.height + 1, parent.chainwork + work.value));
    }

    /** A child of the tip goes on top of the index; anything else that wins rebuilds it. */
    method AddHeader(header: BlockHeader) returns (r: Result<StoredHeader, ChainError>)
      requires Valid()
      modifies store
      ensures Valid()
      ensures Sound(old(store.State())) && (store.State(), r) == InsertHeader(rules, old(store.State()), header)
    {
      hide Validate, Vetted, Walk;
      ghost var before := store.State();
      InsertKeepsInv(rules, before, header);
      var verdict := ValidateOne(header);
      if verdict.Err? {
        return verdict;
      }
      var stored := verdict.value;
      ValidatedSitsAboveParent(rules, before.headers, header);
      var put := store.PutHeader(stored);
      if put.Err? {
        return Err(put.error);
      }
      assert store.headers == Filed(rules, before.headers, header);
      var best := BestHeader();
      var tip := best.value;
      var extendsBest := tip.Some? && stored.header.prevBlock == tip.value.hash;
      var shouldPromote := tip.None? || stored.chainwork > tip.value.chainwork;
      if shouldPromote {
        if extendsBest {
          AppendIsRebuild(store.headers, stored.hash);
          RebuiltIsStable(before.headers, store.headers, before.best.value);
          var promoted := store.PromoteCanonicalTip(stored);
        } else {
          var promoted := PromoteBestHash(stored.hash);
        }
      }
      r := Ok(stored);
    }

    static ghost predicate AreWorks(workByBits: map<Pow.Bits, nat>) {
      forall b :: b in workByBits ==> Pow.WorkFromBits(b) == Ok(workByBits[b])
    }

    static lemma NoWorks()
      ensures AreWorks(map[])
    {
    }

    /** The work of `bits`, computed once for each distinct value met. */
    static method CachedWork(workByBits: map<Pow.Bits, nat>, bits: Pow.Bits)
      returns (r: Result<nat, Pow.PowError>, works: map<Pow.Bits, nat>)
      requires AreWorks(workByBits)
      ensures r == Pow.WorkFromBits(bits) && AreWorks(works)
    {
      hide Pow.WorkFromBits;
      works := workByBits;
      if bits in workByBits {
        return Ok(workByBits[bits]), works;
      }
      r := Pow.WorkFromBits(bits);
      if r.Ok? {
        works := works[bits := r.value];
      }
    }

    /** All rules for one header of a batch, whose parent may be stored or pending. */
    method ValidateBeside(pending: Headers, workByBits: map<Pow.Bits, nat>, header: BlockHeader)
      returns (r: Result<StoredHeader, ChainError>, works: map<Pow.Bits, nat>)
      requires Linked(store.headers + pending) && AreWorks(workByBits)
      ensures r == Validate(rules, store.headers + pending, header) && AreWorks(works)
    {
      hide Linked, Pow.WorkFromBits, Pow.PowCheck, CheckBits, AreWorks;
      works := workByBits;
      if header.prevBlock !in pending && header.prevBlock !in store.headers {
        return Err(UnknownParent), works;
      }
      var parent := if header.prevBlock in pending then pending[header.prevBlock] else store.headers[header.prevBlock];
      var hash := rules.hashOf(header);
      KnowsParent(store.headers + pending, header);
      var wrong := ValidateDifficulty(store.headers + pending, header, parent);
      if wrong.Some? {
        return Err(wrong.value), works;
      }
      var met := Pow.VerifyPow(hash, header.bits);
      if met.Err? {
        return Err(PowFailure(met.error)), works;
      }
      if !met.value {
        return Err(InvalidProofOfWork), works;
      }
      var work;
      work, works := CachedWork(works, header.bits);
      if work.Err? {
        return Err(PowFailure(work.error)), works;
      }
      r := Ok(StoredHeader(hash, header, parent.height + 1, parent.chainwork + work.value));
    }

    /** The validation loop of a batch: pending headers beside the stored ones, and work cached by bits. */
    method ValidateBatch(batch: seq<BlockHeader>) returns (r: Result<seq<StoredHeader>, ChainError>)
      requires Linked(store.headers)
      ensures r == AcceptAll(rules, store.headers, batch)
    {
      hide Linked, Validate, AcceptAll, Filed, AreWorks;
      var accepted := [];
      var pending: Headers := map[];
      var seen: set<Hash> := {};
      var workByBits: map<Pow.Bits, nat> := map[];
      NoWorks();
      assert store.headers + pending == store.headers;
      assert batch[0..] == batch && forall s: seq<StoredHeader> :: [] + s == s;
      for k := 0 to |batch|
        invariant Linked(store.headers + pending) && AreWorks(workByBits)
        invariant forall h :: h in seen ==> h in store.headers + pending
        invariant forall h :: h in pending ==> h in seen
        invariant AcceptAll(rules, store.headers, batch) ==
                  Prepended(accepted, AcceptAll(rules, store.headers + pending, batch[k..]))
      {
        var header := batch[k];
        var hash := rules.hashOf(header);
        ghost var known := store.headers + pending;
        assert batch[k..][1..] == batch[k + 1..];
        AcceptStep(rules, known, batch[k..], accepted);
        if hash in seen || hash in store.headers {
          seen := seen + {hash};
          continue;
        }
        seen := seen + {hash};
        var verdict;
        verdict, workByBits := ValidateBeside(pending, workByBits, header);
        if verdict.Err? {
          return Err(verdict.error);
        }
        var stored := verdict.value;
        FiledIs(rules, known, header);
        assert store.headers + pending[hash := stored] == known[hash := stored];
        pending := pending[hash := stored];
        accepted := accepted + [stored];
      }
      AcceptNone(rules, store.headers + pending, batch[|batch|..], accepted);
      r := Ok(accepted);
    }

    /** The last of the heaviest, as the maximum of an iterator is found: later equals win. */
    static method FindHeaviest(accepted: seq<StoredHeader>) returns (best: nat)
      requires accepted != []
      ensures best == LastHeaviest(accepted)
    {
      best := 0;
      for k := 1 to |accepted|
        invariant best < k
        invariant forall j :: 0 <= j < k ==> accepted[j].chainwork <= accepted[best].chainwork
        invariant forall j :: best < j < k ==> accepted[j].chainwork < accepted[best].chainwork
      {
        if accepted[k].chainwork >= accepted[best].chainwork {
          best := k;
        }
      }
      var last := LastHeaviest(accepted);
      assert !(best < last) && !(last < best);
    }

    /** The tip goes to the heaviest header of a stored batch, by appending if the batch extends the tip up to it. */
    method MoveTip(accepted: seq<StoredHeader>, bestIndex: nat, extendsBest: bool)
      requires Linked(store.headers) && bestIndex < |accepted| && accepted[bestIndex].hash in store.headers
      requires forall i :: 0 <= i < |accepted| ==> Knows(store.headers, accepted[i]) && accepted[i].height > 0
      requires extendsBest ==>
        && store.best.Some? && store.best.value in store.headers
        && store.canonical == Rebuilt(store.headers, store.best.value)
        && accepted[0].header.prevBlock == store.best.value
        && forall i :: 0 <= i < bestIndex ==> accepted[i + 1].header.prevBlock == accepted[i].hash
      modifies store`canonical, store`best
      ensures store.canonical == Rebuilt(store.headers, accepted[bestIndex].hash)
      ensures store.best == Some(accepted[bestIndex].hash)
    {
      hide Linked, Walk, Rebuilt;
      if extendsBest {
        var run := accepted[..bestIndex + 1];
        assert run[|run| - 1] == accepted[bestIndex] && run[0] == accepted[0];
        AppendedIsRebuilt(store.headers, store.best.value, run);
        assert run[..|run|] == run;
        var promoted := store.PromoteCanonicalTips(run);
      } else {
        var promoted := PromoteBestHash(accepted[bestIndex].hash);
      }
    }

    /** A batch: validate everything, store it all, then move the tip by appending or by rebuilding. */
    method AddHeaders(batch: seq<BlockHeader>) returns (r: Result<seq<StoredHeader>, ChainError>)
      requires Valid()
      modifies store
      ensures Valid()
      ensures Sound(old(store.State())) && (store.State(), r) == InsertBatch(rules, old(store.State()), batch)
    {
      hide Linked, Vetted, Walk, Grafted, Rebuilt, MemoryHeaderStore.NewRun, LastHeaviest;
      ghost var before := store.State();
      BatchKeepsInv(rules, before, batch);
      r := ValidateBatch(batch);
      if r.Err? || r.value == [] {
        return;
      }
      var accepted := r.value;
      AcceptAllLinked(rules, before.headers, batch);
      ghost var all := AddAll(before.headers, accepted);
      var best := BestHeader();
      var tip := best.value;
      var bestIndex := FindHeaviest(accepted);
      var shouldPromote := tip.None? || accepted[bestIndex].chainwork > tip.value.chainwork;
      var extendsBest := tip.Some? && accepted[0].header.prevBlock == tip.value.hash &&
        forall i :: 0 <= i < bestIndex ==> accepted[i + 1].header.prevBlock == accepted[i].hash;
      GraftedApart(before.headers, all, accepted);
      var put := store.PutHeaders(accepted);
      assert store.headers == all;
      if shouldPromote {
        if extendsBest {
          TipIsFiled(rules, before);
          RebuiltIsStable(before.headers, all, before.best.value);
        }
        MoveTip(accepted, bestIndex, extendsBest);
      }
    }

    static lemma GraftedApart(known: Headers, all: Headers, accepted: seq<StoredHeader>)
      requires Grafted(known, all, accepted)
      ensures forall i :: 0 <= i < |accepted| ==>
                accepted[i].hash !in known && Knows(all, accepted[i]) && accepted[i].height > 0
      ensures forall i, j :: 0 <= i < j < |accepted| ==> accepted[i].hash != accepted[j].hash
    {
    }

    /** Appending a run of headers, each the child of the one before, to the index of `tip` is a rebuild. */
    static lemma {:induction false} AppendedIsRebuilt(all: Headers, tip: Hash, run: seq<StoredHeader>)
      requires Linked(all) && tip in all && run != []
      requires forall i :: 0 <= i < |run| ==> Knows(all, run[i]) && run[i].height > 0
      requires Knows(all, run[|run| - 1])
      requires run[0].header.prevBlock == tip
      requires forall i :: 0 <= i < |run| - 1 ==> run[i + 1].header.prevBlock == run[i].hash
      ensures MemoryHeaderStore.Appended(Rebuilt(all, tip), run) == Rebuilt(all, run[|run| - 1].hash)
      decreases |run|
    {
      hide Walk, Linked, Rebuilt;
      var front, last := run[..|run| - 1], run[|run| - 1];
      AppendIsRebuild(all, last.hash);
      if |run| > 1 {
        AppendedIsRebuilt(all, tip, front);
        assert run[|run| - 2 + 1].header.prevBlock == run[|run| - 2].hash;
      }
    }

    static function Prepended(accepted: seq<StoredHeader>, rest: Result<seq<StoredHeader>, ChainError>)
      : Result<seq<StoredHeader>, ChainError>
    {
      if rest.Err? then rest else Ok(accepted + rest.value)
    }

    static lemma AcceptStep(rules: Rules, known: Headers, batch: seq<BlockHeader>, accepted: seq<StoredHeader>)
      requires Linked(known) && batch != []
      ensures Prepended(accepted, AcceptAll(rules, known, batch)) ==
              if rules.hashOf(batch[0]) in known then Prepended(accepted, AcceptAll(rules, known, batch[1..]))
              else if Validate(rules, known, batch[0]).Err? then Err(Validate(rules, known, batch[0]).error)
              else Prepended(accepted + [Validate(rules, known, batch[0]).value],
                             AcceptAll(rules, Filed(rules, known, batch[0]), batch[1..]))
    {
      hide Linked, Validate, Filed;
      if rules.hashOf(batch[0]) !in known && Validate(rules, known, batch[0]).Ok? {
        var s := Validate(rules, known, batch[0]).value;
        var rest := AcceptAll(rules, Filed(rules, known, batch[0]), batch[1..]);
        if rest.Ok? {
          assert accepted + ([s] + rest.value) == accepted + [s] + rest.value;
        }
      }
    }

    static lemma AcceptNone(rules: Rules, known: Headers, batch: seq<BlockHeader>, accepted: seq<StoredHeader>)
      requires Linked(known) && batch == []
      ensures Prepended(accepted, AcceptAll(rules, known, batch)) == Ok(accepted)
    {
      assert accepted + [] == accepted;
    }

    static lemma FiledIs(rules: Rules, known: Headers, header: BlockHeader)
      requires Linked(known) && Validate(rules, known, header).Ok? && rules.hashOf(header) !in known
      ensures Filed(rules, known, header) == known[rules.hashOf(header) := Validate(rules, known, header).value]
      ensures Linked(Filed(rules, known, header))
    {
    }

    static lemma KnowsParent(known: Headers, header: BlockHeader)
      requires Linked(known) && header.prevBlock in known
      ensures Knows(known, known[header.prevBlock])
    {
    }

    static lemma RebuiltIsStable(known: Headers, more: Headers, h: Hash)
      requires Linked(known) && Linked(more) && Extends(more, known) && h in known
      ensures Rebuilt(more, h) == Rebuilt(known, h)
    {
      WalkIsStable(known, more, h);
    }
  }
}
