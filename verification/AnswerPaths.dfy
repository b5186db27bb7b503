/**
 Every way to an answer: the steps the loop takes through one response and the
 next, and what it finds at the end. An answer is returned exactly if some path
 leads to it within the rounds there are.
 */
module AnswerPaths {
  import opened Bytes
  import opened DnsName
  import opened DnsWire
  import opened DnsQueries
  import opened SecureAnswers

  /** One CNAME followed within a response, or one question asked for what a response does not cover. */
  datatype Step = Alias(rrset: RRset, target: Name) | Ask(reply: DnsMessage)

  /** Where the loop is: exchanges used, response at hand, owner looked for, records collected. */
  datatype Spot = Spot(call: nat, response: DnsMessage, owner: Name, records: RRset)

  ghost predicate IsSigned(s: Setting, owner: Name, rrset: RRset, m: DnsMessage) {
    var signatures := RecordsFor(m.answers, owner, Rrsig);
    signatures != [] && s.verifier.positive(s.zone, rrset, signatures) == Ok(true)
  }

  /** No CNAME stands at the owner, or CNAMEs are what is asked for. */
  ghost predicate NoAlias(s: Setting, owner: Name, m: DnsMessage) {
    s.asked == Cname || RecordsFor(m.answers, owner, Cname) == []
  }

  ghost predicate Leads(s: Setting, from: Spot, step: Step, to: Spot) {
    var answers := from.response.answers;
    && RecordsFor(answers, from.owner, s.asked) == [] && from.response.questions != []
    && match step
       case Alias(rrset, target) =>
         && s.asked != Cname && rrset == RecordsFor(answers, from.owner, Cname) && |rrset| == 1
         && IsSigned(s, from.owner, rrset, from.response)
         && ParseName(rrset[0].rdata, 0) == Ok((target, |rrset[0].rdata|)) && IsSubdomainOrEqual(target, s.zone.owner)
         && to == Spot(from.call, from.response, target, from.records + rrset)
       case Ask(reply) =>
         && NoAlias(s, from.owner, from.response)
         && from.owner != s.request && from.response.questions[0].name != from.owner
         && Query(s.transport, from.call, from.owner, s.asked) == Ok(reply)
         && to == Spot(from.call + 1, reply, from.owner, from.records)
  }

  ghost predicate Goes(s: Setting, from: Spot, steps: seq<Step>, to: Spot)
    decreases |steps|
  {
    if steps == [] then from == to
    else exists next :: Leads(s, from, steps[0], next) && Goes(s, next, steps[1..], to)
  }

  /** The first ancestor in the zone that the verifier does not turn down is accepted as the encloser. */
  ghost predicate DeniesName(s: Setting, owner: Name, shown: DenialRecords) {
    && IsStrictSubdomain(owner, s.zone.owner)
    && exists k: nat ::
         && 1 <= k <= |owner| - |s.zone.owner|
         && s.verifier.nameError(s.zone, owner, owner[k..], shown) == Ok(true)
         && forall j :: 1 <= j < k ==> s.verifier.nameError(s.zone, owner, owner[j..], shown) == Ok(false)
  }

  /** A path ends with a signed set of the asked type, or with an accepted denial that there is one, or of the name. */
  ghost predicate Ends(s: Setting, at: Spot, answer: Answer) {
    var (m, owner) := (at.response, at.owner);
    var (set_, all) := (RecordsFor(m.answers, owner, s.asked), m.answers + m.authorities);
    var signatures := RecordsOfType(all, Rrsig);
    && NoAlias(s, owner, m)
    && if set_ != [] then IsSigned(s, owner, set_, m) && answer == Answer(s.request, at.records + set_, true)
       else
         && m.questions != [] && (owner == s.request || m.questions[0].name == owner)
         && s.zone.keys != [] && s.zone.keySignatures != [] && answer == Answer(owner, at.records, true)
         && if m.header.flags % 16 == 3 then
              DeniesName(s, owner, DenialRecords(RecordsOfType(all, Nsec), signatures, RecordsOfType(all, Nsec3),
                                                 signatures))
            else
              s.verifier.noData(s.zone, owner, s.asked,
                                DenialRecords(RecordsFor(all, owner, Nsec), signatures, RecordsOfType(all, Nsec3),
                                              signatures)) == Ok(true)
  }

  ghost function FollowFrom(s: Setting, rounds: nat, from: Spot): Result<Answer, ResolverError>
    requires from.response.questions != []
  {
    Follow(s, rounds, from.call, from.response, from.owner, from.records)
  }

  // ------------------------------------------------------------- the selections

  lemma {:induction false} RecordsForJoin(a: RRset, b: RRset, owner: Name, recordType: RecordType)
    ensures RecordsFor(a + b, owner, recordType) == RecordsFor(a, owner, recordType) + RecordsFor(b, owner, recordType)
  {
    if a == [] {
      assert [] + b == b;
    } else {
      assert (a + b)[1..] == a[1..] + b;
      RecordsForJoin(a[1..], b, owner, recordType);
    }
  }

  lemma {:induction false} RecordsOfTypeJoin(a: RRset, b: RRset, recordType: RecordType)
    ensures RecordsOfType(a + b, recordType) == RecordsOfType(a, recordType) + RecordsOfType(b, recordType)
  {
    if a == [] {
      assert [] + b == b;
    } else {
      assert (a + b)[1..] == a[1..] + b;
      RecordsOfTypeJoin(a[1..], b, recordType);
      var first := if a[0].recordType == recordType then [a[0]] else [];
      var (later, others) := (RecordsOfType(a[1..], recordType), RecordsOfType(b, recordType));
      assert RecordsOfType(a, recordType) == first + later;
      assert RecordsOfType(a + b, recordType) == first + (later + others);
      hide RecordsOfType;
      assert first + (later + others) == first + later + others;
    }
  }

  /** Records are selected one by one, in their order: by owner and type, or by type alone. */
  lemma Selections(a: RRset, r: ResourceRecord, b: RRset, owner: Name, recordType: RecordType)
    ensures RecordsFor(a + [r] + b, owner, recordType) ==
            RecordsFor(a, owner, recordType) + (if r.name == owner && r.recordType == recordType then [r] else []) +
            RecordsFor(b, owner, recordType)
    ensures RecordsOfType(a + [r] + b, recordType) ==
            RecordsOfType(a, recordType) + (if r.recordType == recordType then [r] else []) +
            RecordsOfType(b, recordType)
    ensures RecordsFor([], owner, recordType) == RecordsOfType([], recordType) == []
  {
    OneSelected(r, owner, recordType);
    RecordsForJoin(a + [r], b, owner, recordType);
    RecordsForJoin(a, [r], owner, recordType);
    RecordsOfTypeJoin(a + [r], b, recordType);
    RecordsOfTypeJoin(a, [r], recordType);
    hide RecordsFor, RecordsOfType;
  }

  lemma OneSelected(r: ResourceRecord, owner: Name, recordType: RecordType)
    ensures RecordsFor([r], owner, recordType) == if r.name == owner && r.recordType == recordType then [r] else []
    ensures RecordsOfType([r], recordType) == if r.recordType == recordType then [r] else []
    ensures RecordsFor([], owner, recordType) == RecordsOfType([], recordType) == []
  {
    assert [r][1..] == [];
  }

  // ------------------------------------------------------------------ one step

  /** The loop takes the step that leads on, if there is one, with one round less. */
  lemma StepIsTaken(s: Setting, rounds: nat, from: Spot, step: Step, to: Spot)
    requires Leads(s, from, step, to)
    ensures to.response.questions != []
    ensures FollowFrom(s, rounds, from) == if rounds == 0 then Err(DnssecFailed) else FollowFrom(s, rounds - 1, to)
  {
    hide RecordsFor, ParseName, Query, IsSubdomainOrEqual, NameError, NoData;
    if step.Ask? { QueryIsAnswered(s.transport, from.call, from.owner, s.asked); }
  }

  /** Where the path ends the loop returns what stands there. */
  lemma EndIsReturned(s: Setting, rounds: nat, at: Spot, answer: Answer)
    requires at.response.questions != [] && Ends(s, at, answer)
    ensures FollowFrom(s, rounds, at) == if rounds == 0 then Err(DnssecFailed) else Ok(answer)
  {
    hide RecordsFor, RecordsOfType, CnameTarget, Query, IsSubdomainOrEqual, AnyAccepted, Candidates;
    if Rcode(at.response) == NXDOMAIN && RecordsFor(at.response.answers, at.owner, s.asked) == [] {
      DenialIff(s, at.owner, NameErrorRecords(at.response));
    }
  }

  /** What is returned was reached by one step more, or stood here. */
  lemma ReturnedIsReached(s: Setting, rounds: nat, from: Spot, answer: Answer) returns (step: Option<Step>, to: Spot)
    requires from.response.questions != [] && rounds > 0 && FollowFrom(s, rounds, from) == Ok(answer)
    ensures step == None ==> Ends(s, from, answer)
    ensures step.Some? ==>
      Leads(s, from, step.value, to) && to.response.questions != [] && FollowFrom(s, rounds - 1, to) == Ok(answer)
  {
    hide RecordsFor, RecordsOfType, ParseName, Query, IsSubdomainOrEqual, AnyAccepted, Candidates;
    var (m, owner) := (from.response, from.owner);
    var (set_, aliases) := (RecordsFor(m.answers, owner, s.asked), Aliases(s, m, owner));
    step, to := None, from;
    if set_ == [] && aliases != [] {
      var target := CnameTarget(aliases).value;
      step, to := Some(Alias(aliases, target)), Spot(from.call, m, target, from.records + aliases);
    } else if set_ == [] && owner != s.request && m.questions[0].name != owner {
      var reply := Query(s.transport, from.call, owner, s.asked).value;
      QueryIsAnswered(s.transport, from.call, owner, s.asked);
      step, to := Some(Ask(reply)), Spot(from.call + 1, reply, owner, from.records);
    } else if set_ != [] {
      assert NoAlias(s, owner, m) && IsSigned(s, owner, set_, m);
    } else if Rcode(m) == NXDOMAIN {
      DenialIff(s, owner, NameErrorRecords(m));
      assert DeniesName(s, owner, NameErrorRecords(m));
    } else {
      assert s.verifier.noData(s.zone, owner, s.asked, NoDataRecords(m, owner)) == Ok(true);
    }
  }

  /** The candidates are tried from the parent upwards. */
  lemma {:induction false} TriedInTurn(s: Setting, owner: Name, shown: DenialRecords, k: nat)
    requires 1 <= k && IsSubdomainOrEqual(owner, s.zone.owner) && k <= |owner| - |s.zone.owner| + 1
    ensures AnyAccepted(s, owner, shown, Ancestors(owner[k - 1..], |s.zone.owner|)).Ok? <==>
      exists i: nat ::
        && k <= i <= |owner| - |s.zone.owner|
        && s.verifier.nameError(s.zone, owner, owner[i..], shown) == Ok(true)
        && forall j :: k <= j < i ==> s.verifier.nameError(s.zone, owner, owner[j..], shown) == Ok(false)
    decreases |owner| - k
  {
    var candidates := Ancestors(owner[k - 1..], |s.zone.owner|);
    if k <= |owner| - |s.zone.owner| {
      assert owner[k - 1..][1..] == owner[k..];
      assert candidates == [owner[k..]] + Ancestors(owner[k..], |s.zone.owner|);
      assert candidates[1..] == Ancestors(owner[k..], |s.zone.owner|);
      TriedInTurn(s, owner, shown, k + 1);
      hide Ancestors;
      assert AnyAccepted(s, owner, shown, candidates).Ok? <==>
        var first := s.verifier.nameError(s.zone, owner, owner[k..], shown);
        first == Ok(true) || (first == Ok(false) && AnyAccepted(s, owner, shown, candidates[1..]).Ok?);
    }
  }

  lemma DenialIff(s: Setting, owner: Name, shown: DenialRecords)
    ensures AnyAccepted(s, owner, shown, Candidates(owner, s.zone.owner)).Ok? <==> DeniesName(s, owner, shown)
  {
    hide Ancestors;
    if IsStrictSubdomain(owner, s.zone.owner) {
      assert owner[0..] == owner;
      TriedInTurn(s, owner, shown, 1);
    }
  }

  // ------------------------------------------------------------------ failures

  /** What the verifier fails with when it is shown this set, which has signatures. */
  ghost predicate CheckBreaks(s: Setting, owner: Name, rrset: RRset, m: DnsMessage, e: ResolverError) {
    var signatures := RecordsFor(m.answers, owner, Rrsig);
    signatures != [] && s.verifier.positive(s.zone, rrset, signatures) == Err(e)
  }

  /** Ancestors in the zone are turned down up to one at which the verifier fails. */
  ghost predicate DenialBreaks(s: Setting, owner: Name, shown: DenialRecords, e: ResolverError) {
    && IsStrictSubdomain(owner, s.zone.owner)
    && exists k: nat ::
         && 1 <= k <= |owner| - |s.zone.owner|
         && s.verifier.nameError(s.zone, owner, owner[k..], shown) == Err(e)
         && forall j :: 1 <= j < k ==> s.verifier.nameError(s.zone, owner, owner[j..], shown) == Ok(false)
  }

  /** Here the verifier or the transport is asked, and fails. */
  ghost predicate Breaks(s: Setting, at: Spot, e: ResolverError) {
    var (m, owner) := (at.response, at.owner);
    var (set_, aliases) := (RecordsFor(m.answers, owner, s.asked), RecordsFor(m.answers, owner, Cname));
    var (all, signatures) := (m.answers + m.authorities, RecordsOfType(m.answers + m.authorities, Rrsig));
    if set_ != [] then NoAlias(s, owner, m) && CheckBreaks(s, owner, set_, m, e)
    else if !NoAlias(s, owner, m) then CheckBreaks(s, owner, aliases, m, e)
    else
      && m.questions != []
      && if owner != s.request && m.questions[0].name != owner then
           Query(s.transport, at.call, owner, s.asked) == Err(e)
         else
           && s.zone.keys != [] && s.zone.keySignatures != []
           && if m.header.flags % 16 == 3 then
                DenialBreaks(s, owner, DenialRecords(RecordsOfType(all, Nsec), signatures, RecordsOfType(all, Nsec3),
                                                     signatures), e)
              else
                s.verifier.noData(s.zone, owner, s.asked,
                                  DenialRecords(RecordsFor(all, owner, Nsec), signatures, RecordsOfType(all, Nsec3),
                                                signatures)) == Err(e)
  }

  /** Nothing leads on from here, nothing ends here, and nothing fails. */
  ghost predicate IsDead(s: Setting, at: Spot) {
    && (forall step, to :: !Leads(s, at, step, to))
    && (forall answer :: !Ends(s, at, answer))
    && (forall e :: !Breaks(s, at, e))
  }

  lemma {:induction false} BreaksInTurn(s: Setting, owner: Name, shown: DenialRecords, k: nat, e: ResolverError)
    requires 1 <= k && IsSubdomainOrEqual(owner, s.zone.owner) && k <= |owner| - |s.zone.owner| + 1
    ensures (exists i: nat ::
               && k <= i <= |owner| - |s.zone.owner|
               && s.verifier.nameError(s.zone, owner, owner[i..], shown) == Err(e)
               && forall j :: k <= j < i ==> s.verifier.nameError(s.zone, owner, owner[j..], shown) == Ok(false)) ==>
      AnyAccepted(s, owner, shown, Ancestors(owner[k - 1..], |s.zone.owner|)) == Err(e)
    ensures AnyAccepted(s, owner, shown, Ancestors(owner[k - 1..], |s.zone.owner|)) == Err(e) && e != DnssecFailed ==>
      exists i: nat ::
        && k <= i <= |owner| - |s.zone.owner|
        && s.verifier.nameError(s.zone, owner, owner[i..], shown) == Err(e)
        && forall j :: k <= j < i ==> s.verifier.nameError(s.zone, owner, owner[j..], shown) == Ok(false)
    decreases |owner| - k
  {
    var candidates := Ancestors(owner[k - 1..], |s.zone.owner|);
    if k <= |owner| - |s.zone.owner| {
      assert owner[k - 1..][1..] == owner[k..];
      assert candidates == [owner[k..]] + Ancestors(owner[k..], |s.zone.owner|);
      assert candidates[1..] == Ancestors(owner[k..], |s.zone.owner|);
      BreaksInTurn(s, owner, shown, k + 1, e);
      hide Ancestors;
      var first := s.verifier.nameError(s.zone, owner, owner[k..], shown);
      assert AnyAccepted(s, owner, shown, candidates) ==
             match first
             case Err(x) => Err(x)
             case Ok(accepted) => if accepted then Ok(()) else AnyAccepted(s, owner, shown, candidates[1..]);
    }
  }

  lemma DenialBreaksIff(s: Setting, owner: Name, shown: DenialRecords, e: ResolverError)
    ensures DenialBreaks(s, owner, shown, e) ==> AnyAccepted(s, owner, shown, Candidates(owner, s.zone.owner)) == Err(e)
    ensures AnyAccepted(s, owner, shown, Candidates(owner, s.zone.owner)) == Err(e) && e != DnssecFailed ==>
      DenialBreaks(s, owner, shown, e)
  {
    hide Ancestors;
    if IsStrictSubdomain(owner, s.zone.owner) {
      assert owner[0..] == owner;
      BreaksInTurn(s, owner, shown, 1, e);
    }
  }

  lemma BreakIsReturned(s: Setting, rounds: nat, at: Spot, e: ResolverError)
    requires at.response.questions != [] && rounds > 0 && Breaks(s, at, e)
    ensures FollowFrom(s, rounds, at) == Err(e)
  {
    hide RecordsFor, RecordsOfType, CnameTarget, Query, IsSubdomainOrEqual, AnyAccepted, Candidates, DenialBreaks;
    DenialBreaksIff(s, at.owner, NameErrorRecords(at.response), e);
  }

  /** A failure of its own kind was met here, or after one step more. */
  lemma FailureIsMet(s: Setting, rounds: nat, from: Spot, e: ResolverError) returns (step: Option<Step>, to: Spot)
    requires from.response.questions != [] && rounds > 0
    requires FollowFrom(s, rounds, from) == Err(e) && e != DnssecFailed
    ensures step == None ==> Breaks(s, from, e)
    ensures step.Some? ==> Leads(s, from, step.value, to)
  {
    hide RecordsFor, RecordsOfType, ParseName, Query, IsSubdomainOrEqual, AnyAccepted, Candidates, DenialBreaks;
    var (m, owner) := (from.response, from.owner);
    var (set_, aliases) := (RecordsFor(m.answers, owner, s.asked), Aliases(s, m, owner));
    step, to := None, from;
    if set_ == [] && aliases != [] {
      if CheckSet(s, owner, aliases, m).Ok? {
        var target := CnameTarget(aliases).value;
        step, to := Some(Alias(aliases, target)), Spot(from.call, m, target, from.records + aliases);
      }
    } else if set_ == [] && owner != s.request && m.questions[0].name != owner {
      if Query(s.transport, from.call, owner, s.asked).Ok? {
        var reply := Query(s.transport, from.call, owner, s.asked).value;
        step, to := Some(Ask(reply)), Spot(from.call + 1, reply, owner, from.records);
      }
    } else if set_ == [] && Rcode(m) == NXDOMAIN {
      DenialBreaksIff(s, owner, NameErrorRecords(m), e);
    }
  }

  lemma DeadEndFails(s: Setting, rounds: nat, at: Spot)
    requires at.response.questions != [] && IsDead(s, at)
    ensures FollowFrom(s, rounds, at) == Err(DnssecFailed)
  {
    hide Leads, Ends, Breaks, FollowFrom;
    if rounds == 0 {
      NoRounds(s, at);
    } else {
      match FollowFrom(s, rounds, at) {
        case Ok(answer) => var step, to := ReturnedIsReached(s, rounds, at, answer);
        case Err(e) => if e != DnssecFailed { var step, to := FailureIsMet(s, rounds, at, e); }
      }
    }
  }

  // ----------------------------------------------------------------- the whole

  lemma {:induction false} GoneIsFollowed(s: Setting, rounds: nat, from: Spot, steps: seq<Step>, to: Spot)
    requires from.response.questions != [] && Goes(s, from, steps, to)
    ensures to.response.questions != []
    ensures FollowFrom(s, rounds, from) ==
            if |steps| < rounds then FollowFrom(s, rounds - |steps|, to)
            else if steps == [] then FollowFrom(s, 0, to) else Err(DnssecFailed)
    decreases |steps|
  {
    hide Leads, FollowFrom;
    if steps != [] {
      var next :| Leads(s, from, steps[0], next) && Goes(s, next, steps[1..], to);
      StepIsTaken(s, rounds, from, steps[0], next);
      GoneIsFollowed(s, if rounds == 0 then 0 else rounds - 1, next, steps[1..], to);
      NoRounds(s, next);
      NoRounds(s, to);
    }
  }

  lemma NoRounds(s: Setting, at: Spot)
    requires at.response.questions != []
    ensures FollowFrom(s, 0, at) == Err(DnssecFailed)
  {
  }

  lemma {:induction false} FollowedIsGone(s: Setting, rounds: nat, from: Spot, answer: Answer)
    returns (steps: seq<Step>, to: Spot)
    requires from.response.questions != [] && FollowFrom(s, rounds, from) == Ok(answer)
    ensures |steps| < rounds && Goes(s, from, steps, to) && Ends(s, to, answer)
    decreases rounds
  {
    hide Leads, Ends, FollowFrom;
    if rounds == 0 { NoRounds(s, from); }
    var step, next := ReturnedIsReached(s, rounds, from, answer);
    steps, to := [], from;
    if step.Some? {
      var later, end := FollowedIsGone(s, rounds - 1, next, answer);
      steps, to := [step.value] + later, end;
      assert steps[1..] == later;
    }
  }

  /**
   An answer is returned exactly if a path of fewer steps than there are
   rounds leads to it: through CNAMEs, each signed and single and leading into
   the zone, and through questions asked of the transport, to a signed set or
   to an accepted denial. A path that is too long fails.
   */
  lemma AnswerIff(s: Setting, rounds: nat, from: Spot, answer: Answer)
    requires from.response.questions != []
    ensures FollowFrom(s, rounds, from) == Ok(answer) <==>
      exists steps, to :: |steps| < rounds && Goes(s, from, steps, to) && Ends(s, to, answer)
    ensures forall steps, to :: |steps| >= rounds && Goes(s, from, steps, to) ==>
      FollowFrom(s, rounds, from) == Err(DnssecFailed)
  {
    hide FollowFrom, Goes, Ends;
    if FollowFrom(s, rounds, from) == Ok(answer) { var steps, to := FollowedIsGone(s, rounds, from, answer); }
    forall steps, to | Goes(s, from, steps, to)
      ensures |steps| < rounds && Ends(s, to, answer) ==> FollowFrom(s, rounds, from) == Ok(answer)
      ensures |steps| >= rounds ==> FollowFrom(s, rounds, from) == Err(DnssecFailed)
    {
      GoneIsFollowed(s, rounds, from, steps, to);
      NoRounds(s, to);
      if |steps| < rounds && Ends(s, to, answer) { EndIsReturned(s, rounds - |steps|, to, answer); }
    }
  }

  /** A path with a failure at its end: one met there, or a dead end, or no round left. */
  ghost predicate FailsAfter(s: Setting, rounds: nat, steps: nat, at: Spot, e: ResolverError) {
    || (steps < rounds && Breaks(s, at, e))
    || (steps < rounds && IsDead(s, at) && e == DnssecFailed)
    || (steps == rounds && e == DnssecFailed)
  }

  lemma {:induction false} FailedIsGone(s: Setting, rounds: nat, from: Spot, e: ResolverError)
    returns (steps: seq<Step>, to: Spot)
    requires from.response.questions != [] && FollowFrom(s, rounds, from) == Err(e)
    ensures Goes(s, from, steps, to) && FailsAfter(s, rounds, |steps|, to, e)
    decreases rounds
  {
    hide Leads, Ends, Breaks, FollowFrom;
    steps, to := [], from;
    if rounds == 0 {
      NoRounds(s, from);
    } else if step, next :| Leads(s, from, step, next) {
      StepIsTaken(s, rounds, from, step, next);
      var later, end := FailedIsGone(s, rounds - 1, next, e);
      steps, to := [step] + later, end;
      assert steps[1..] == later;
    } else if other :| Breaks(s, from, other) {
      BreakIsReturned(s, rounds, from, other);
    } else if answer :| Ends(s, from, answer) {
      EndIsReturned(s, rounds, from, answer);
      assert false;
    } else {
      DeadEndFails(s, rounds, from);
    }
  }

  /**
   The loop fails exactly if a path leads to a failure: with the verifier's or
   the transport's own error where one of them fails, and with the one error
   for everything else at a dead end or when the rounds are used up.
   */
  lemma FailureIff(s: Setting, rounds: nat, from: Spot, e: ResolverError)
    requires from.response.questions != []
    ensures FollowFrom(s, rounds, from) == Err(e) <==>
      exists steps, to :: Goes(s, from, steps, to) && FailsAfter(s, rounds, |steps|, to, e)
  {
    hide FollowFrom, Goes, Breaks, IsDead;
    if FollowFrom(s, rounds, from) == Err(e) { var steps, to := FailedIsGone(s, rounds, from, e); }
    forall steps, to | Goes(s, from, steps, to) && FailsAfter(s, rounds, |steps|, to, e)
      ensures FollowFrom(s, rounds, from) == Err(e)
    {
      GoneIsFollowed(s, rounds, from, steps, to);
      NoRounds(s, to);
      if |steps| < rounds {
        if Breaks(s, to, e) {
          BreakIsReturned(s, rounds - |steps|, to, e);
        } else {
          DeadEndFails(s, rounds - |steps|, to);
        }
      }
    }
  }

  /** From the first response on, eight steps are allowed. */
  lemma SecureAnswerIff(s: Setting, initial: DnsMessage, call: nat, answer: Answer)
    requires initial.questions != []
    ensures Follow(s, MAX_CNAME_CHAIN_LEN + 1, call, initial, s.request, []) == Ok(answer) <==>
      exists steps, to ::
        |steps| <= 8 && Goes(s, Spot(call, initial, s.request, []), steps, to) && Ends(s, to, answer)
  {
    hide Goes, Ends, Follow;
    AnswerIff(s, MAX_CNAME_CHAIN_LEN + 1, Spot(call, initial, s.request, []), answer);
  }
}
