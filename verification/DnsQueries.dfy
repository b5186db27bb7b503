/**
 One question to a nameserver: the query as it is sent, the checks a response
 must pass, and the second try over TCP. The transport is any pair of
 functions that answer each exchange as they please.
 */
module DnsQueries {
  import opened Bytes
  import opened DnsName
  import opened DnsWire
  import opened MessageLayout
  import opened NameLayout
  import DnsMessages

  const CLASS_IN: u16 := 1
  const OPT_TYPE: u16 := 41
  const DO_FLAG: u32 := 0x8000
  const NOERROR := 0
  const NXDOMAIN := 3
  const UDP_PAYLOAD: u16 := 1232

  datatype ResolverError =
    | DnssecFailed
    | DnsTransport(detail: string)
    | InvalidDnsResponse
    | OtherError(detail: string)

  /** What comes back on the exchange with a given number, and the id a query takes from the shared counter. */
  datatype Transport = Transport(udp: (nat, Bytes) -> Result<Bytes, ResolverError>,
                                 tcp: (nat, Bytes) -> Result<Bytes, ResolverError>,
                                 id: nat -> u16)

  // -------------------------------------------------------------------- flags

  predicate IsResponse(m: DnsMessage) { m.header.flags / 0x8000 % 2 == 1 }

  predicate IsTruncated(m: DnsMessage) { m.header.flags / 0x200 % 2 == 1 }

  function Opcode(m: DnsMessage): nat { m.header.flags / 0x800 % 16 }

  function Rcode(m: DnsMessage): nat { m.header.flags % 16 }

  // ------------------------------------------------------------------ queries

  function QueryMessage(id: u16, name: Name, recordType: RecordType): DnsMessage {
    DnsMessage(DnsHeader(id, 0, 1, 0, 0, 1), [DnsQuestion(name, recordType, CLASS_IN)], [], [],
               [ResourceRecord([], RecordType.Unknown(OPT_TYPE), UDP_PAYLOAD, DO_FLAG, [])])
  }

  function BuildQuery(id: u16, name: Name, recordType: RecordType): Result<Bytes, ResolverError> {
    match DnsMessages.EncodeMessage(QueryMessage(id, name, recordType), UDP_PAYLOAD)
    case Err(_) => Err(InvalidDnsResponse)
    case Ok(octets) => Ok(octets)
  }

  /** A response to this very question, of no other kind than an answer or a name error. */
  predicate Answers(m: DnsMessage, id: u16, name: Name, recordType: RecordType) {
    && m.header.id == id && IsResponse(m) && Opcode(m) == 0 && Rcode(m) in {NOERROR, NXDOMAIN}
    && m.questions == [DnsQuestion(name, recordType, CLASS_IN)]
  }

  function ParseResponse(id: u16, name: Name, recordType: RecordType, octets: Bytes)
    : Result<DnsMessage, ResolverError>
  {
    match DnsMessages.ParseMessage(octets)
    case Err(_) => Err(InvalidDnsResponse)
    case Ok(m) =>
      if m.header.id != id || !IsResponse(m) || Opcode(m) != 0 || !(Rcode(m) == NOERROR || Rcode(m) == NXDOMAIN) ||
         |m.questions| != 1 || m.questions[0].name != name || m.questions[0].recordType != recordType ||
         m.questions[0].class_ != CLASS_IN
      then Err(InvalidDnsResponse)
      else Ok(m)
  }

  predicate RetriesOverTcp(e: ResolverError) { e.DnsTransport? || e.InvalidDnsResponse? }

  function QueryTcp(t: Transport, call: nat, id: u16, name: Name, recordType: RecordType, query: Bytes)
    : Result<DnsMessage, ResolverError>
  {
    var octets :- t.tcp(call, query);
    var response :- ParseResponse(id, name, recordType, octets);
    if IsTruncated(response) then Err(InvalidDnsResponse) else Ok(response)
  }

  function Query(t: Transport, call: nat, name: Name, recordType: RecordType): Result<DnsMessage, ResolverError> {
    var id := t.id(call);
    var query :- BuildQuery(id, name, recordType);
    match t.udp(call, query)
    case Err(e) => if RetriesOverTcp(e) then QueryTcp(t, call, id, name, recordType, query) else Err(e)
    case Ok(octets) =>
      match ParseResponse(id, name, recordType, octets)
      case Err(e) => if RetriesOverTcp(e) then QueryTcp(t, call, id, name, recordType, query) else Err(e)
      case Ok(response) =>
        if IsTruncated(response) then QueryTcp(t, call, id, name, recordType, query) else Ok(response)
  }

  /** Whatever the transport does, a response that is used answers the question asked, whole, and parses canonically. */
  lemma QueryIsAnswered(t: Transport, call: nat, name: Name, recordType: RecordType)
    requires Query(t, call, name, recordType).Ok?
    ensures var m := Query(t, call, name, recordType).value;
      Answers(m, t.id(call), name, recordType) && !IsTruncated(m) && DnsMessages.CanonicalMessage(m)
  {
    hide BuildQuery, ParseResponse, Answers, DnsMessages.CanonicalMessage;
    var m := Query(t, call, name, recordType).value;
    var query := BuildQuery(t.id(call), name, recordType).value;
    if t.udp(call, query).Ok? { ResponseAnswers(t.id(call), name, recordType, t.udp(call, query).value); }
    if t.tcp(call, query).Ok? { ResponseAnswers(t.id(call), name, recordType, t.tcp(call, query).value); }
  }

  lemma ResponseAnswers(id: u16, name: Name, recordType: RecordType, octets: Bytes)
    ensures var r := ParseResponse(id, name, recordType, octets);
      r.Ok? ==> Answers(r.value, id, name, recordType) && DnsMessages.CanonicalMessage(r.value)
  {
    if DnsMessages.ParseMessage(octets).Ok? {
      DnsMessages.ParsedMessageReencodes(octets, 0);
    }
  }

  /** Every valid name fits a query, and a server that parses the query reads exactly the question asked. */
  lemma QueryIsUnderstood(id: u16, name: Name, recordType: RecordType)
    requires ValidName(name) && CanonicalType(recordType)
    ensures BuildQuery(id, name, recordType).Ok?
    ensures DnsMessages.ParseMessage(BuildQuery(id, name, recordType).value) == Ok(QueryMessage(id, name, recordType))
  {
    hide ValidName, DnsMessages.ParseMessage, DnsMessages.WriteHeader;
    var m := QueryMessage(id, name, recordType);
    RootIsValid();
    assert DnsMessages.CanonicalMessage(m);
    DnsMessages.CanonicalRoundTrip(m, UDP_PAYLOAD);
    QuerySize(m);
  }

  lemma RootIsValid()
    ensures ValidName([])
  {
  }

  lemma QuerySize(m: DnsMessage)
    requires |m.questions| == 1 && m.answers == [] && m.authorities == [] && |m.additionals| == 1
    requires ValidName(m.questions[0].name) && m.additionals[0].name == [] && m.additionals[0].rdata == []
    ensures |DnsMessages.WriteMessage(m)| <= UDP_PAYLOAD
  {
    hide BigEndian16, BigEndian32, Code;
    var q, r := m.questions[0], m.additionals[0];
    assert m.questions[1..] == [] && m.additionals[1..] == [];
    NameSize(q.name);
    assert |DnsMessages.WriteQuestions(m.questions)| == |DnsMessages.WriteQuestion(q)| == LabelsLen(q.name) + 5;
    assert WriteName(r.name) == [0];
    assert |DnsMessages.WriteRecords(m.additionals)| == |DnsMessages.WriteRecord(r)| == 11;
  }

  lemma {:induction false} NameSize(name: Name)
    ensures |WriteName(name)| == LabelsLen(name) + 1
  {
    if name != [] { NameSize(name[1..]); }
  }

  // ---------------------------------------------------------- octet by octet

  /** The query: id, no flags, one question and one additional record; the question in class 1; and an OPT record that
      offers 1232 octets of payload and sets the DO flag. */
  lemma QueryOctets(id: u16, name: Name, recordType: RecordType)
    requires ValidName(name)
    ensures BuildQuery(id, name, recordType) ==
            Ok([id / 256, id % 256, 0, 0, 0, 1, 0, 0, 0, 0, 0, 1] + (Laid(name) + [0] +
               [Code(recordType) / 256, Code(recordType) % 256, 0, 1]) +
               [0, 0, 41, 4, 208, 0, 0, 128, 0, 0, 0])
  {
    hide ValidName, DnsMessages.WriteHeader, Code, WriteName, Laid;
    var m := QueryMessage(id, name, recordType);
    WrittenIsLaid(name);
    QueryParts(m, id, name, recordType);
    QuerySize(m);
    QueryHasNoFault(m);
  }

  lemma QueryHasNoFault(m: DnsMessage)
    requires |m.questions| == 1 && m.answers == [] && m.authorities == [] && |m.additionals| == 1
    requires ValidName(m.questions[0].name) && m.additionals[0].name == [] && m.additionals[0].rdata == []
    ensures DnsMessages.MessageFault(m) == None
  {
    assert m.questions[1..] == [] && m.additionals[1..] == [];
    DnsMessages.NameEncodes(m.questions[0].name);
    RootIsValid();
    DnsMessages.NameEncodes([]);
    hide EncodeName, ValidName;
    assert DnsMessages.QuestionFault(m.questions[0]) == None && DnsMessages.RecordFault(m.additionals[0]) == None;
    NoFaultInOne(m.questions, DnsMessages.QuestionFault);
    NoFaultInOne(m.additionals, DnsMessages.RecordFault);
  }

  lemma NoFaultInOne<T>(items: seq<T>, fault: T -> Option<ParseError>)
    requires |items| == 1 && fault(items[0]) == None
    ensures DnsMessages.FirstFault(items, fault) == None
  {
    assert items[1..] == [];
  }

  lemma QueryParts(m: DnsMessage, id: u16, name: Name, recordType: RecordType)
    requires m == QueryMessage(id, name, recordType)
    ensures DnsMessages.WriteMessage(m) ==
            [id / 256, id % 256, 0, 0, 0, 1, 0, 0, 0, 0, 0, 1] +
            (WriteName(name) + [Code(recordType) / 256, Code(recordType) % 256, 0, 1]) +
            [0, 0, 41, 4, 208, 0, 0, 128, 0, 0, 0]
  {
    OptOctets(m.additionals[0]);
    hide Code;
    var q := m.questions[0];
    assert m.questions[1..] == [] && m.additionals[1..] == [];
    assert DnsMessages.WriteHeader(m) == [id / 256, id % 256, 0, 0, 0, 1, 0, 0, 0, 0, 0, 1];
    assert BigEndian16(Code(recordType)) + BigEndian16(1) == [Code(recordType) / 256, Code(recordType) % 256, 0, 1];
    hide BigEndian16, DnsMessages.WriteHeader, DnsMessages.WriteRecord, WriteName;
    assert DnsMessages.WriteRecords(m.additionals) == DnsMessages.WriteRecord(m.additionals[0]);
    assert DnsMessages.WriteQuestions(m.questions) == DnsMessages.WriteQuestion(q);
  }

  lemma OptOctets(r: ResourceRecord)
    requires r == ResourceRecord([], RecordType.Unknown(41), 1232, 0x8000, [])
    ensures DnsMessages.WriteRecord(r) == [0, 0, 41, 4, 208, 0, 0, 128, 0, 0, 0]
  {
    assert Code(r.recordType) == 41 && WriteName(r.name) == [0];
    assert BigEndian16(41) == [0, 41] && BigEndian16(1232) == [4, 208] && BigEndian16(0) == [0, 0];
    FourOctets(0x8000);
    hide Code, WriteName, BigEndian16, BigEndian32;
  }

  /** Octets that hold a usable answer: a response to a standard query, without error or with a name error, with the
      query's id and its question. */
  ghost predicate Responds(octets: Bytes, id: u16, name: Name, recordType: RecordType, m: DnsMessage) {
    && MessageStands(octets, m) && m.header.id == id
    && m.header.flags >= 0x8000 && m.header.flags / 0x800 % 16 == 0 && m.header.flags % 16 in {0, 3}
    && m.questions == [DnsQuestion(name, recordType, 1)]
  }

  ghost predicate IsWhole(m: DnsMessage) { m.header.flags / 0x200 % 2 == 0 }

  ghost predicate UdpAnswers(t: Transport, call: nat, query: Bytes, id: u16, name: Name, recordType: RecordType,
                             m: DnsMessage)
  {
    t.udp(call, query).Ok? && Responds(t.udp(call, query).value, id, name, recordType, m) && IsWhole(m)
  }

  ghost predicate TcpAnswers(t: Transport, call: nat, query: Bytes, id: u16, name: Name, recordType: RecordType,
                             m: DnsMessage)
  {
    t.tcp(call, query).Ok? && Responds(t.tcp(call, query).value, id, name, recordType, m) && IsWhole(m)
  }

  lemma RespondsIff(octets: Bytes, id: u16, name: Name, recordType: RecordType, m: DnsMessage)
    ensures ParseResponse(id, name, recordType, octets) == Ok(m) <==> Responds(octets, id, name, recordType, m)
  {
    hide DnsMessages.ParseMessage, MessageStands;
    MessageIff(octets, m);
  }

  /** A message is the answer exactly if UDP brings it whole, or UDP fails in a way that another try may mend and TCP
      brings it whole. */
  lemma QueryIff(t: Transport, call: nat, name: Name, recordType: RecordType, m: DnsMessage)
    ensures Query(t, call, name, recordType) == Ok(m) <==>
      var (id, built) := (t.id(call), BuildQuery(t.id(call), name, recordType));
      && built.Ok?
      && (|| UdpAnswers(t, call, built.value, id, name, recordType, m)
          || (&& (t.udp(call, built.value).Err? ==>
                    t.udp(call, built.value).error.DnsTransport? || t.udp(call, built.value).error.InvalidDnsResponse?)
              && (forall other :: !UdpAnswers(t, call, built.value, id, name, recordType, other))
              && TcpAnswers(t, call, built.value, id, name, recordType, m)))
  {
    hide BuildQuery, ParseResponse, UdpAnswers, TcpAnswers;
    var (id, built) := (t.id(call), BuildQuery(t.id(call), name, recordType));
    if built.Ok? {
      var query := built.value;
      TcpIff(t, call, query, id, name, recordType, m);
      forall other
        ensures UdpAnswers(t, call, query, id, name, recordType, other) <==>
          t.udp(call, query).Ok? && ParseResponse(id, name, recordType, t.udp(call, query).value) == Ok(other) &&
          !IsTruncated(other)
      {
        UdpIff(t, call, query, id, name, recordType, other);
      }
      hide QueryTcp;
      if t.udp(call, query).Ok? { ResponseFault(id, name, recordType, t.udp(call, query).value); }
    }
  }

  /** A query fails exactly if it cannot be written, or UDP fails for good, or UDP brings no answer and TCP fails or
      brings none. */
  lemma QueryFailsIff(t: Transport, call: nat, name: Name, recordType: RecordType, e: ResolverError)
    ensures Query(t, call, name, recordType) == Err(e) <==>
      var (id, built) := (t.id(call), BuildQuery(t.id(call), name, recordType));
      if built.Err? then e == InvalidDnsResponse
      else
        var (udp, tcp) := (t.udp(call, built.value), t.tcp(call, built.value));
        if udp.Err? && !udp.error.DnsTransport? && !udp.error.InvalidDnsResponse? then udp == Err(e)
        else
          && (forall m :: !UdpAnswers(t, call, built.value, id, name, recordType, m))
          && if tcp.Err? then tcp == Err(e)
             else e == InvalidDnsResponse && forall m :: !TcpAnswers(t, call, built.value, id, name, recordType, m)
  {
    hide DnsMessages.EncodeMessage, QueryMessage, ParseResponse, UdpAnswers, TcpAnswers, QueryTcp;
    var (id, built) := (t.id(call), BuildQuery(t.id(call), name, recordType));
    if built.Ok? {
      var query := built.value;
      TcpFailsIff(t, call, query, id, name, recordType, e);
      forall m
        ensures UdpAnswers(t, call, query, id, name, recordType, m) <==>
          t.udp(call, query).Ok? && ParseResponse(id, name, recordType, t.udp(call, query).value) == Ok(m) &&
          !IsTruncated(m)
      {
        UdpIff(t, call, query, id, name, recordType, m);
      }
      if t.udp(call, query).Ok? { ResponseFault(id, name, recordType, t.udp(call, query).value); }
    }
  }

  lemma TcpFailsIff(t: Transport, call: nat, query: Bytes, id: u16, name: Name, recordType: RecordType,
                    e: ResolverError)
    ensures QueryTcp(t, call, id, name, recordType, query) == Err(e) <==>
      if t.tcp(call, query).Err? then t.tcp(call, query) == Err(e)
      else e == InvalidDnsResponse && forall m :: !TcpAnswers(t, call, query, id, name, recordType, m)
  {
    hide ParseResponse, TcpAnswers;
    forall m
      ensures TcpAnswers(t, call, query, id, name, recordType, m) <==>
        QueryTcp(t, call, id, name, recordType, query) == Ok(m)
    {
      TcpIff(t, call, query, id, name, recordType, m);
    }
    if t.tcp(call, query).Ok? { ResponseFault(id, name, recordType, t.tcp(call, query).value); }
  }

  lemma UdpIff(t: Transport, call: nat, query: Bytes, id: u16, name: Name, recordType: RecordType, m: DnsMessage)
    ensures UdpAnswers(t, call, query, id, name, recordType, m) <==>
      t.udp(call, query).Ok? && ParseResponse(id, name, recordType, t.udp(call, query).value) == Ok(m) &&
      !IsTruncated(m)
  {
    hide ParseResponse, Responds;
    if t.udp(call, query).Ok? { RespondsIff(t.udp(call, query).value, id, name, recordType, m); }
  }

  lemma TcpIff(t: Transport, call: nat, query: Bytes, id: u16, name: Name, recordType: RecordType, m: DnsMessage)
    ensures TcpAnswers(t, call, query, id, name, recordType, m) <==>
      QueryTcp(t, call, id, name, recordType, query) == Ok(m)
  {
    hide ParseResponse, Responds;
    if t.tcp(call, query).Ok? { RespondsIff(t.tcp(call, query).value, id, name, recordType, m); }
  }

  lemma ResponseFault(id: u16, name: Name, recordType: RecordType, octets: Bytes)
    ensures ParseResponse(id, name, recordType, octets).Err? ==>
      ParseResponse(id, name, recordType, octets) == Err(InvalidDnsResponse)
  {
  }
}
