/**
 The loop that turns a response into a secure answer: it follows CNAME sets,
 asks again for targets the response does not cover, and lets a verifier
 judge every set and every denial. Transport and verifier are arbitrary.
 */
module SecureAnswers {
  import opened Bytes
  import opened DnsName
  import opened DnsWire
  import opened DnsQueries

  const MAX_CNAME_CHAIN_LEN := 8

  /** A delegated zone with the keys it is checked under. */
  datatype Zone = Zone(owner: Name, ds: RRset, keys: RRset, keySignatures: RRset)

  /** The denial records of a response, sorted by type. */
  datatype DenialRecords = DenialRecords(nsec: RRset, nsecSignatures: RRset, nsec3: RRset, nsec3Signatures: RRset)

  /** What the verifier says of a set with its signatures, and of a denial of a type or of a name below an encloser. */
  datatype Verifier = Verifier(positive: (Zone, RRset, RRset) -> Result<bool, ResolverError>,
                               noData: (Zone, Name, RecordType, DenialRecords) -> Result<bool, ResolverError>,
                               nameError: (Zone, Name, Name, DenialRecords) -> Result<bool, ResolverError>)

  datatype Setting = Setting(transport: Transport, verifier: Verifier, zone: Zone, request: Name, asked: RecordType)

  datatype Answer = Answer(name: Name, records: RRset, secure: bool)

  // ----------------------------------------------------------------- records

  function RecordsFor(records: RRset, owner: Name, recordType: RecordType): (r: RRset)
    ensures forall x :: x in r <==> x in records && x.name == owner && x.recordType == recordType
  {
    if records == [] then []
    else
      (if records[0].name == owner && records[0].recordType == recordType then [records[0]] else []) +
      RecordsFor(records[1..], owner, recordType)
  }

  function RecordsOfType(records: RRset, recordType: RecordType): RRset {
    if records == [] then []
    else
      (if records[0].recordType == recordType then [records[0]] else []) + RecordsOfType(records[1..], recordType)
  }

  /** The name the only record of a CNAME set leads to. */
  function CnameTarget(rrset: RRset): Result<Name, ResolverError> {
    if |rrset| != 1 || rrset[0].recordType != Cname then Err(DnssecFailed)
    else
      match ParseName(rrset[0].rdata, 0)
      case Err(_) => Err(DnssecFailed)
      case Ok((name, end)) => if end == |rrset[0].rdata| then Ok(name) else Err(DnssecFailed)
  }

  function Aliases(s: Setting, response: DnsMessage, owner: Name): RRset {
    if s.asked == Cname then [] else RecordsFor(response.answers, owner, Cname)
  }

  function CheckSet(s: Setting, owner: Name, rrset: RRset, response: DnsMessage): Result<(), ResolverError> {
    var signatures := RecordsFor(response.answers, owner, Rrsig);
    if signatures == [] then Err(DnssecFailed)
    else
      var secure :- s.verifier.positive(s.zone, rrset, signatures);
      if secure then Ok(()) else Err(DnssecFailed)
  }

  // ------------------------------------------------------------------ denials

  function NoDataRecords(response: DnsMessage, owner: Name): DenialRecords {
    var records := response.answers + response.authorities;
    DenialRecords(RecordsFor(records, owner, Nsec), RecordsOfType(records, Rrsig), RecordsOfType(records, Nsec3),
             RecordsOfType(records, Rrsig))
  }

  function NameErrorRecords(response: DnsMessage): DenialRecords {
    var records := response.answers + response.authorities;
    DenialRecords(RecordsOfType(records, Nsec), RecordsOfType(records, Rrsig), RecordsOfType(records, Nsec3),
             RecordsOfType(records, Rrsig))
  }

  function NoData(s: Setting, response: DnsMessage, owner: Name, prefix: RRset): Result<Answer, ResolverError> {
    if s.zone.keys == [] || s.zone.keySignatures == [] then Err(DnssecFailed)
    else
      var secure :- s.verifier.noData(s.zone, owner, s.asked, NoDataRecords(response, owner));
      if secure then Ok(Answer(owner, prefix, true)) else Err(DnssecFailed)
  }

  /** Proper ancestors of `name` from its parent up to its last `stop` labels. */
  function Ancestors(name: Name, stop: nat): (r: seq<Name>)
    requires stop <= |name|
  {
    if |name| == stop then [] else [name[1..]] + Ancestors(name[1..], stop)
  }

  function Candidates(name: Name, zone: Name): seq<Name> {
    if |name| <= |zone| || name[|name| - |zone|..] != zone then [] else Ancestors(name, |zone|)
  }

  /** The first candidate the verifier accepts settles it; an error before that is final. */
  function AnyAccepted(s: Setting, owner: Name, denial: DenialRecords, candidates: seq<Name>)
    : Result<(), ResolverError>
  {
    if candidates == [] then Err(DnssecFailed)
    else
      var secure :- s.verifier.nameError(s.zone, owner, candidates[0], denial);
      if secure then Ok(()) else AnyAccepted(s, owner, denial, candidates[1..])
  }

  function NameError(s: Setting, response: DnsMessage, owner: Name, prefix: RRset): Result<Answer, ResolverError> {
    if s.zone.keys == [] || s.zone.keySignatures == [] then Err(DnssecFailed)
    else
      var _ :- AnyAccepted(s, owner, NameErrorRecords(response), Candidates(owner, s.zone.owner));
      Ok(Answer(owner, prefix, true))
  }

  /** Each ancestor goes through its text form, which changes nothing. */
  method ClosestEncloserCandidates(name: Name, zone: Name) returns (r: Result<seq<Name>, ResolverError>)
    requires ValidName(name)
    ensures r == Ok(Candidates(name, zone))
  {
    hide ValidName, FromAscii, Join;
    if |name| <= |zone| || name[|name| - |zone|..] != zone {
      return Ok([]);
    }
    var candidates: seq<Name> := [];
    assert name[0..] == name;
    assert candidates + Ancestors(name, |zone|) == Ancestors(name, |zone|);
    for k := 0 to |name| - |zone|
      invariant Ancestors(name, |zone|) == candidates + Ancestors(name[k..], |zone|)
    {
      SuffixIsName(name, k + 1);
      var text := Join(name[k + 1..]);
      var candidate := ParseAscii(text);
      if candidate.Err? {
        return Err(InvalidDnsResponse);
      }
      assert name[k..][1..] == name[k + 1..];
      assert candidates + ([name[k + 1..]] + Ancestors(name[k + 1..], |zone|)) ==
             candidates + [name[k + 1..]] + Ancestors(name[k + 1..], |zone|);
      candidates := candidates + [candidate.value];
    }
    assert candidates + [] == candidates;
    r := Ok(candidates);
  }

  lemma {:induction false} AncestorsAre(name: Name, stop: nat, a: Name)
    requires stop <= |name|
    ensures a in Ancestors(name, stop) <==> stop <= |a| < |name| && a == name[|name| - |a|..]
    decreases |name|
  {
    if |name| > stop {
      var tail := name[1..];
      AncestorsAre(tail, stop, a);
      assert Ancestors(name, stop) == [tail] + Ancestors(tail, stop);
      hide Ancestors;
      assert tail[0..] == tail;
      if |a| < |name| { SuffixOfTail(name, |a|); }
    }
  }

  lemma SuffixOfTail(name: Name, n: nat)
    requires n < |name|
    ensures name[1..][|name| - 1 - n..] == name[|name| - n..]
  {
  }

  /** The candidates are exactly the proper ancestors of the name that are in the zone. */
  lemma CandidatesAre(name: Name, zone: Name, a: Name)
    ensures a in Candidates(name, zone) <==> IsStrictSubdomain(name, a) && IsSubdomainOrEqual(a, zone)
  {
    if IsStrictSubdomain(name, a) && IsSubdomainOrEqual(a, zone) {
      SubdomainTransitive(name, a, zone);
    }
    if |name| > |zone| && name[|name| - |zone|..] == zone {
      AncestorsAre(name, |zone|, a);
      if |zone| <= |a| < |name| && a == name[|name| - |a|..] { AncestorsNest(name, a, zone); }
    }
  }

  method ResolveNameError(s: Setting, response: DnsMessage, owner: Name, prefix: RRset)
    returns (r: Result<Answer, ResolverError>)
    requires ValidName(owner)
    ensures r == NameError(s, response, owner, prefix)
  {
    hide ValidName, Candidates, NameErrorRecords;
    if s.zone.keys == [] || s.zone.keySignatures == [] {
      return Err(DnssecFailed);
    }
    var denial := NameErrorRecords(response);
    var ancestors := ClosestEncloserCandidates(owner, s.zone.owner);
    var candidates: seq<Name>;
    match ancestors {
      case Err(e) => return Err(e);
      case Ok(names) => candidates := names;
    }
    assert candidates[0..] == candidates;
    for k := 0 to |candidates|
      invariant AnyAccepted(s, owner, denial, candidates) == AnyAccepted(s, owner, denial, candidates[k..])
    {
      assert candidates[k..][1..] == candidates[k + 1..];
      var secure :- s.verifier.nameError(s.zone, owner, candidates[k], denial);
      if secure {
        return Ok(Answer(owner, prefix, true));
      }
    }
    r := Err(DnssecFailed);
  }

  // ----------------------------------------------------------------- the loop

  /**
   What the loop gives with `rounds` of its rounds left, after `call`
   exchanges, at `owner` with the records collected so far.
   */
  function Follow(s: Setting, rounds: nat, call: nat, response: DnsMessage, owner: Name, records: RRset)
    : Result<Answer, ResolverError>
    requires response.questions != []
    decreases rounds
  {
    if rounds == 0 then Err(DnssecFailed)
    else
      var targets := RecordsFor(response.answers, owner, s.asked);
      var aliases := Aliases(s, response, owner);
      if targets != [] && aliases != [] then Err(DnssecFailed)
      else if targets != [] then
        var _ :- CheckSet(s, owner, targets, response);
        Ok(Answer(s.request, records + targets, true))
      else if aliases != [] then
        var _ :- CheckSet(s, owner, aliases, response);
        var next :- CnameTarget(aliases);
        if !IsSubdomainOrEqual(next, s.zone.owner) then Err(DnssecFailed)
        else Follow(s, rounds - 1, call, response, next, records + aliases)
      else if owner != s.request && response.questions[0].name != owner then
        var reply :- Query(s.transport, call, owner, s.asked);
        QueryIsAnswered(s.transport, call, owner, s.asked);
        Follow(s, rounds - 1, call + 1, reply, owner, records)
      else if Rcode(response) == NXDOMAIN then NameError(s, response, owner, records)
      else NoData(s, response, owner, records)
  }

  method ResolveSecureAnswer(s: Setting, initial: DnsMessage, firstCall: nat) returns (r: Result<Answer, ResolverError>)
    requires ValidName(s.request) && initial.questions != []
    ensures r == Follow(s, MAX_CNAME_CHAIN_LEN + 1, firstCall, initial, s.request, [])
  {
    hide ValidName, CheckSet, CnameTarget, NameError, NoData, Query, RecordsFor, IsSubdomainOrEqual;
    var response, owner, call := initial, s.request, firstCall;
    var records: RRset := [];
    for round := 0 to MAX_CNAME_CHAIN_LEN + 1
      invariant ValidName(owner) && response.questions != []
      invariant Follow(s, MAX_CNAME_CHAIN_LEN + 1, firstCall, initial, s.request, []) ==
                Follow(s, MAX_CNAME_CHAIN_LEN + 1 - round, call, response, owner, records)
    {
      var targets := RecordsFor(response.answers, owner, s.asked);
      var aliases := Aliases(s, response, owner);
      if targets != [] && aliases != [] {
        return Err(DnssecFailed);
      }
      if targets != [] {
        var _ :- CheckSet(s, owner, targets, response);
        return Ok(Answer(s.request, records + targets, true));
      }
      if aliases != [] {
        var _ :- CheckSet(s, owner, aliases, response);
        var next :- CnameTarget(aliases);
        if !IsSubdomainOrEqual(next, s.zone.owner) {
          return Err(DnssecFailed);
        }
        TargetIsValid(aliases);
        records := records + aliases;
        owner := next;
      } else if owner != s.request && response.questions[0].name != owner {
        var reply :- Query(s.transport, call, owner, s.asked);
        QueryIsAnswered(s.transport, call, owner, s.asked);
        response, call := reply, call + 1;
      } else if Rcode(response) == NXDOMAIN {
        r := ResolveNameError(s, response, owner, records);
        return;
      } else {
        return NoData(s, response, owner, records);
      }
    }
    r := Err(DnssecFailed);
  }

  lemma TargetIsValid(rrset: RRset)
    requires CnameTarget(rrset).Ok?
    ensures ValidName(CnameTarget(rrset).value)
  {
    ParsedNameIsValid(rrset[0].rdata, 0);
  }

  // ------------------------------------------------------ what an answer means

  /** One step along the chain: a CNAME set and the response it was taken from. */
  datatype Link = Link(owner: Name, rrset: RRset, target: Name, source: DnsMessage)

  /** A response the loop can have used: the first one, or the answer to a question of its own. */
  ghost predicate Received(s: Setting, initial: DnsMessage, m: DnsMessage) {
    m == initial || exists call: nat, owner: Name :: Query(s.transport, call, owner, s.asked) == Ok(m)
  }

  /** A whole set of a response, signed there, and accepted by the verifier. */
  ghost predicate Accepted(s: Setting, owner: Name, recordType: RecordType, rrset: RRset, m: DnsMessage) {
    && rrset != [] && rrset == RecordsFor(m.answers, owner, recordType)
    && RecordsFor(m.answers, owner, Rrsig) != []
    && s.verifier.positive(s.zone, rrset, RecordsFor(m.answers, owner, Rrsig)) == Ok(true)
  }

  /** Exactly one CNAME record, accepted, whose target is a name in the zone; no set of the asked type beside it. */
  ghost predicate IsLink(s: Setting, initial: DnsMessage, link: Link) {
    && Received(s, initial, link.source) && s.asked != Cname
    && Accepted(s, link.owner, Cname, link.rrset, link.source)
    && RecordsFor(link.source.answers, link.owner, s.asked) == []
    && |link.rrset| == 1 && CnameTarget(link.rrset) == Ok(link.target)
    && IsSubdomainOrEqual(link.target, s.zone.owner)
  }

  ghost predicate IsChain(s: Setting, initial: DnsMessage, start: Name, links: seq<Link>)
    decreases |links|
  {
    links == [] ||
    (links[0].owner == start && IsLink(s, initial, links[0]) && IsChain(s, initial, links[0].target, links[1..]))
  }

  ghost function ChainEnd(start: Name, links: seq<Link>): Name
    decreases |links|
  {
    if links == [] then start else ChainEnd(links[0].target, links[1..])
  }

  ghost function ChainRecords(links: seq<Link>): RRset {
    if links == [] then [] else links[0].rrset + ChainRecords(links[1..])
  }

  /** Accepted as missing below one of its ancestors in the zone. */
  ghost predicate NameDenied(s: Setting, owner: Name, m: DnsMessage) {
    exists a ::
      && IsStrictSubdomain(owner, a) && IsSubdomainOrEqual(a, s.zone.owner)
      && s.verifier.nameError(s.zone, owner, a, NameErrorRecords(m)) == Ok(true)
  }

  /** The verifier accepted that the last owner has no set of the asked type, or that it does not exist. */
  ghost predicate Denied(s: Setting, owner: Name, m: DnsMessage) {
    && s.zone.keys != [] && s.zone.keySignatures != []
    && RecordsFor(m.answers, owner, s.asked) == [] && Aliases(s, m, owner) == []
    && if Rcode(m) == NXDOMAIN then NameDenied(s, owner, m)
       else s.verifier.noData(s.zone, owner, s.asked, NoDataRecords(m, owner)) == Ok(true)
  }

  /** A chain from `start` of at most `most` links, ended by an accepted set or an accepted denial, and its records. */
  ghost predicate Explains(s: Setting, initial: DnsMessage, start: Name, most: nat, links: seq<Link>, last: DnsMessage,
                           before: RRset, answer: Answer)
  {
    && IsChain(s, initial, start, links) && |links| <= most && Received(s, initial, last) && answer.secure
    && var end := ChainEnd(start, links);
       var final := RecordsFor(last.answers, end, s.asked);
       && answer.records == before + ChainRecords(links) + final
       && if final != [] then
            answer.name == s.request && Accepted(s, end, s.asked, final, last) && Aliases(s, last, end) == []
          else
            && answer.name == end && Denied(s, end, last)
            && last.questions != [] && (end == s.request || last.questions[0].name == end)
  }

  ghost predicate Explained(s: Setting, initial: DnsMessage, start: Name, most: nat, before: RRset, answer: Answer) {
    exists links, last :: Explains(s, initial, start, most, links, last, before, answer)
  }

  lemma CheckedIsAccepted(s: Setting, owner: Name, recordType: RecordType, m: DnsMessage)
    requires RecordsFor(m.answers, owner, recordType) != []
    ensures CheckSet(s, owner, RecordsFor(m.answers, owner, recordType), m).Ok? <==>
            Accepted(s, owner, recordType, RecordsFor(m.answers, owner, recordType), m)
  {
    hide RecordsFor;
  }

  lemma {:induction false} AcceptedCandidate(s: Setting, owner: Name, denial: DenialRecords, candidates: seq<Name>)
    requires AnyAccepted(s, owner, denial, candidates).Ok?
    ensures exists a :: a in candidates && s.verifier.nameError(s.zone, owner, a, denial) == Ok(true)
  {
    if s.verifier.nameError(s.zone, owner, candidates[0], denial) == Ok(true) {
      assert candidates[0] in candidates;
    } else {
      AcceptedCandidate(s, owner, denial, candidates[1..]);
    }
  }

  lemma NameErrorDenies(s: Setting, m: DnsMessage, owner: Name, prefix: RRset)
    requires NameError(s, m, owner, prefix).Ok?
    ensures NameDenied(s, owner, m)
  {
    hide Candidates, NameErrorRecords;
    var candidates, denial := Candidates(owner, s.zone.owner), NameErrorRecords(m);
    AcceptedCandidate(s, owner, denial, candidates);
    var a :| a in candidates && s.verifier.nameError(s.zone, owner, a, denial) == Ok(true);
    CandidatesAre(owner, s.zone.owner, a);
  }

  lemma {:induction false} FollowIsExplained(s: Setting, initial: DnsMessage, rounds: nat, call: nat,
                                             response: DnsMessage, owner: Name, records: RRset)
    requires response.questions != [] && Received(s, initial, response)
    requires Follow(s, rounds, call, response, owner, records).Ok?
    ensures Explained(s, initial, owner, rounds - 1, records, Follow(s, rounds, call, response, owner, records).value)
    decreases rounds
  {
    hide Accepted, RecordsFor, NoData, NameError, Query, Rcode, IsSubdomainOrEqual, CnameTarget, Explained, IsLink;
    var answer := Follow(s, rounds, call, response, owner, records).value;
    var targets := RecordsFor(response.answers, owner, s.asked);
    var aliases := Aliases(s, response, owner);
    if targets != [] {
      EndsInSet(s, initial, response, owner, rounds - 1, records);
    } else if aliases != [] {
      CheckedIsAccepted(s, owner, Cname, response);
      SingleTarget(aliases);
      var next := CnameTarget(aliases).value;
      FollowIsExplained(s, initial, rounds - 1, call, response, next, records + aliases);
      FollowNeedsRounds(s, rounds - 1, call, response, next, records + aliases);
      IsLinkAt(s, initial, owner, response);
      ExplainLonger(s, initial, owner, rounds - 2, Link(owner, aliases, next, response), records, answer);
    } else if owner != s.request && response.questions[0].name != owner {
      var reply := Query(s.transport, call, owner, s.asked).value;
      QueryIsAnswered(s.transport, call, owner, s.asked);
      FollowIsExplained(s, initial, rounds - 1, call + 1, reply, owner, records);
      FollowNeedsRounds(s, rounds - 1, call + 1, reply, owner, records);
      ExplainedByMore(s, initial, owner, rounds - 2, records, answer);
    } else {
      EndsInDenial(s, initial, response, owner, rounds - 1, records);
    }
  }

  lemma FollowNeedsRounds(s: Setting, rounds: nat, call: nat, response: DnsMessage, owner: Name, records: RRset)
    requires response.questions != [] && Follow(s, rounds, call, response, owner, records).Ok?
    ensures rounds > 0
  {
  }

  /** The chain ends here with a set of the asked type. */
  lemma EndsInSet(s: Setting, initial: DnsMessage, m: DnsMessage, owner: Name, most: nat, records: RRset)
    requires Received(s, initial, m) && RecordsFor(m.answers, owner, s.asked) != [] && Aliases(s, m, owner) == []
    requires CheckSet(s, owner, RecordsFor(m.answers, owner, s.asked), m).Ok?
    ensures Explained(s, initial, owner, most, records,
                      Answer(s.request, records + RecordsFor(m.answers, owner, s.asked), true))
  {
    hide Accepted, RecordsFor, Received, Aliases, Denied;
    CheckedIsAccepted(s, owner, s.asked, m);
    assert records + [] == records;
    assert Explains(s, initial, owner, most, [], m, records,
                    Answer(s.request, records + RecordsFor(m.answers, owner, s.asked), true));
  }

  /** The chain ends here with a denial. */
  lemma EndsInDenial(s: Setting, initial: DnsMessage, m: DnsMessage, owner: Name, most: nat, records: RRset)
    requires Received(s, initial, m) && m.questions != [] && (owner == s.request || m.questions[0].name == owner)
    requires RecordsFor(m.answers, owner, s.asked) == [] && Aliases(s, m, owner) == []
    requires (if Rcode(m) == NXDOMAIN then NameError(s, m, owner, records) else NoData(s, m, owner, records)).Ok?
    ensures Explained(s, initial, owner, most, records,
                      (if Rcode(m) == NXDOMAIN then NameError(s, m, owner, records)
                       else NoData(s, m, owner, records)).value)
  {
    hide Accepted, RecordsFor, Received, Aliases, Denied, NameError, NoData, Rcode;
    DenialIsAccepted(s, m, owner, records);
    assert records + [] + [] == records;
    assert Explains(s, initial, owner, most, [], m, records, Answer(owner, records, true));
  }

  lemma IsLinkAt(s: Setting, initial: DnsMessage, owner: Name, m: DnsMessage)
    requires Received(s, initial, m) && RecordsFor(m.answers, owner, s.asked) == [] && Aliases(s, m, owner) != []
    requires Accepted(s, owner, Cname, Aliases(s, m, owner), m) && |Aliases(s, m, owner)| == 1
    requires CnameTarget(Aliases(s, m, owner)).Ok?
    requires IsSubdomainOrEqual(CnameTarget(Aliases(s, m, owner)).value, s.zone.owner)
    ensures IsLink(s, initial, Link(owner, Aliases(s, m, owner), CnameTarget(Aliases(s, m, owner)).value, m))
  {
    hide RecordsFor, Received, CnameTarget, IsSubdomainOrEqual;
  }

  lemma ExplainedByMore(s: Setting, initial: DnsMessage, start: Name, most: nat, before: RRset, answer: Answer)
    requires Explained(s, initial, start, most, before, answer)
    ensures Explained(s, initial, start, most + 1, before, answer)
  {
    hide IsChain, Accepted, Denied, RecordsFor, Received, Aliases;
    var links, last :| Explains(s, initial, start, most, links, last, before, answer);
    assert Explains(s, initial, start, most + 1, links, last, before, answer);
  }

  lemma SingleTarget(rrset: RRset)
    requires CnameTarget(rrset).Ok?
    ensures |rrset| == 1
  {
  }

  lemma DenialIsAccepted(s: Setting, m: DnsMessage, owner: Name, records: RRset)
    requires RecordsFor(m.answers, owner, s.asked) == [] && Aliases(s, m, owner) == []
    requires (if Rcode(m) == NXDOMAIN then NameError(s, m, owner, records) else NoData(s, m, owner, records)).Ok?
    ensures Denied(s, owner, m)
    ensures (if Rcode(m) == NXDOMAIN then NameError(s, m, owner, records) else NoData(s, m, owner, records)).value ==
            Answer(owner, records, true)
  {
    hide RecordsFor, Aliases;
    if Rcode(m) == NXDOMAIN { NameErrorDenies(s, m, owner, records); }
  }

  lemma ExplainLonger(s: Setting, initial: DnsMessage, owner: Name, most: nat, link: Link, records: RRset,
                      answer: Answer)
    requires link.owner == owner && IsLink(s, initial, link)
    requires Explained(s, initial, link.target, most, records + link.rrset, answer)
    ensures Explained(s, initial, owner, most + 1, records, answer)
  {
    hide IsLink, Accepted, Denied, RecordsFor, Received, Aliases;
    var links, last :| Explains(s, initial, link.target, most, links, last, records + link.rrset, answer);
    var more := [link] + links;
    assert more[1..] == links;
    var final := RecordsFor(last.answers, ChainEnd(owner, more), s.asked);
    assert records + link.rrset + ChainRecords(links) + final == records + ChainRecords(more) + final;
    assert Explains(s, initial, owner, most + 1, more, last, records, answer);
  }

  /**
   A secure answer, whatever transport and verifier do: a chain of at most
   eight single CNAME records from the name asked for, each owned by the
   target before it and leading to a name in the zone, each accepted, ended
   by an accepted set of the asked type, with no CNAME set beside it, or an
   accepted denial.
   */
  lemma SecureAnswerIsExplained(s: Setting, initial: DnsMessage, call: nat)
    requires initial.questions != []
    requires Follow(s, MAX_CNAME_CHAIN_LEN + 1, call, initial, s.request, []).Ok?
    ensures Explained(s, initial, s.request, MAX_CNAME_CHAIN_LEN, [],
                      Follow(s, MAX_CNAME_CHAIN_LEN + 1, call, initial, s.request, []).value)
  {
    FollowIsExplained(s, initial, MAX_CNAME_CHAIN_LEN + 1, call, initial, s.request, []);
  }

  // ------------------------------------------------- chains in a single response

  ghost predicate AllFrom(links: seq<Link>, m: DnsMessage) {
    forall link :: link in links ==> link.source == m
  }

  /**
   A chain that one response holds as a whole is followed to its end exactly
   when the rounds suffice: one for each link and one for the set at the end.
   */
  lemma {:induction false} ChainInOneResponse(s: Setting, m: DnsMessage, rounds: nat, call: nat, start: Name,
                                              links: seq<Link>, records: RRset)
    requires m.questions != [] && IsChain(s, m, start, links) && AllFrom(links, m)
    requires var end := ChainEnd(start, links);
      && Accepted(s, end, s.asked, RecordsFor(m.answers, end, s.asked), m) && Aliases(s, m, end) == []
    ensures Follow(s, rounds, call, m, start, records) ==
      if |links| < rounds then
        Ok(Answer(s.request, records + ChainRecords(links) +
                  RecordsFor(m.answers, ChainEnd(start, links), s.asked), true))
      else Err(DnssecFailed)
    decreases rounds
  {
    hide RecordsFor, CnameTarget, IsSubdomainOrEqual, Query, NameError, NoData, Rcode;
    if rounds > 0 {
      if links == [] {
        CheckedIsAccepted(s, start, s.asked, m);
        assert records + [] == records;
      } else {
        var link := links[0];
        assert link in links && link.source == m;
        CheckedIsAccepted(s, start, Cname, m);
        assert AllFrom(links[1..], m);
        ChainInOneResponse(s, m, rounds - 1, call, link.target, links[1..], records + link.rrset);
        var final := RecordsFor(m.answers, ChainEnd(start, links), s.asked);
        assert records + link.rrset + ChainRecords(links[1..]) + final == records + ChainRecords(links) + final;
      }
    }
  }
}
