/** Where everything stands in a DNS message (section 4.1 of RFC 1035), in octets. */
module MessageLayout {
  import opened Bytes
  import opened DnsName
  import opened DnsWire
  import opened DnsMessages

  /** Two octets as a number, the high one first. */
  ghost function Number16(s: Bytes, at: nat): nat
    requires at + 2 <= |s|
  {
    s[at] as int * 256 + s[at + 1] as int
  }

  /** A name, a type, a class. */
  ghost predicate QuestionStands(message: Bytes, at: nat, q: DnsQuestion, end: nat) {
    end >= 4 && end <= |message| &&
    var fields := end - 4;
    && ParseName(message, at) == Ok((q.name, fields))
    && q.recordType == FromCode(Number16(message, fields)) && q.class_ == Number16(message, fields + 2)
  }

  /** A name, a type, a class, four octets of lifetime, the length of the data, the data. */
  ghost predicate RecordStands(message: Bytes, at: nat, r: ResourceRecord, end: nat) {
    end >= 10 + |r.rdata| && end <= |message| &&
    var fields := end - 10 - |r.rdata|;
    && ParseName(message, at) == Ok((r.name, fields))
    && r.recordType == FromCode(Number16(message, fields)) && r.class_ == Number16(message, fields + 2)
    && r.ttl == Number16(message, fields + 4) * 0x1_0000 + Number16(message, fields + 6)
    && |r.rdata| == Number16(message, fields + 8) && r.rdata == message[fields + 10..end]
  }

  ghost predicate QuestionsStand(message: Bytes, at: nat, qs: seq<DnsQuestion>, end: nat)
    decreases |qs|
  {
    if qs == [] then at == end
    else exists next :: QuestionStands(message, at, qs[0], next) && QuestionsStand(message, next, qs[1..], end)
  }

  ghost predicate RecordsStand(message: Bytes, at: nat, rs: seq<ResourceRecord>, end: nat)
    decreases |rs|
  {
    if rs == [] then at == end
    else exists next :: RecordStands(message, at, rs[0], next) && RecordsStand(message, next, rs[1..], end)
  }

  /** Six fields of two octets. */
  ghost predicate HeaderStands(message: Bytes, h: DnsHeader) {
    && |message| >= 12
    && h.id == Number16(message, 0) && h.flags == Number16(message, 2) && h.questionCount == Number16(message, 4)
    && h.answerCount == Number16(message, 6) && h.authorityCount == Number16(message, 8)
    && h.additionalCount == Number16(message, 10)
  }

  /** A message: header, questions, answers, authorities, additional records, in this order, and nothing behind them. */
  ghost predicate MessageStands(message: Bytes, m: DnsMessage) {
    && HeaderStands(message, m.header)
    && |m.questions| == m.header.questionCount <= 16
    && |m.answers| == m.header.answerCount && |m.authorities| == m.header.authorityCount
    && |m.additionals| == m.header.additionalCount
    && |m.answers| + |m.authorities| + |m.additionals| <= 2048
    && SectionsStand(message, m)
  }

  ghost predicate SectionsStand(message: Bytes, m: DnsMessage) {
    exists a, b, c ::
      && QuestionsStand(message, 12, m.questions, a) && RecordsStand(message, a, m.answers, b)
      && RecordsStand(message, b, m.authorities, c) && RecordsStand(message, c, m.additionals, |message|)
  }

  lemma QuestionIff(message: Bytes, at: nat, q: DnsQuestion, end: nat)
    ensures ParseQuestion(message, at) == Ok((q, end)) <==> QuestionStands(message, at, q, end)
  {
    hide ParseName, FromCode;
  }

  lemma RecordIff(message: Bytes, at: nat, r: ResourceRecord, end: nat)
    ensures ParseRecord(message, at) == Ok((r, end)) <==> RecordStands(message, at, r, end)
  {
    hide ParseName, FromCode;
  }

  lemma {:induction false} QuestionsIff(message: Bytes, at: nat, qs: seq<DnsQuestion>, end: nat)
    ensures ParseQuestions(message, at, |qs|) == Ok((qs, end)) <==> QuestionsStand(message, at, qs, end)
    decreases |qs|
  {
    hide ParseQuestion, QuestionStands;
    if qs != [] {
      if ParseQuestion(message, at).Ok? {
        var (first, next) := ParseQuestion(message, at).value;
        QuestionIff(message, at, first, next);
        QuestionsIff(message, next, qs[1..], end);
        assert qs == [qs[0]] + qs[1..];
      }
      if QuestionsStand(message, at, qs, end) {
        var next :| QuestionStands(message, at, qs[0], next) && QuestionsStand(message, next, qs[1..], end);
        QuestionIff(message, at, qs[0], next);
        QuestionsIff(message, next, qs[1..], end);
        assert qs == [qs[0]] + qs[1..];
      }
    }
  }

  lemma {:induction false} RecordsIff(message: Bytes, at: nat, rs: seq<ResourceRecord>, end: nat)
    ensures ParseRecords(message, at, |rs|) == Ok((rs, end)) <==> RecordsStand(message, at, rs, end)
    decreases |rs|
  {
    hide ParseRecord, RecordStands;
    if rs != [] {
      if ParseRecord(message, at).Ok? {
        var (first, next) := ParseRecord(message, at).value;
        RecordIff(message, at, first, next);
        RecordsIff(message, next, rs[1..], end);
        assert rs == [rs[0]] + rs[1..];
      }
      if RecordsStand(message, at, rs, end) {
        var next :| RecordStands(message, at, rs[0], next) && RecordsStand(message, next, rs[1..], end);
        RecordIff(message, at, rs[0], next);
        RecordsIff(message, next, rs[1..], end);
        assert rs == [rs[0]] + rs[1..];
      }
    }
  }

  lemma HeaderIff(message: Bytes, h: DnsHeader)
    requires |message| >= 12
    ensures ParseHeader(message) == h <==> HeaderStands(message, h)
  {
  }

  lemma SectionsParse(message: Bytes, m: DnsMessage)
    requires ParseMessage(message) == Ok(m)
    ensures SectionsStand(message, m)
  {
    hide ParseHeader, ParseQuestions, ParseRecords, QuestionsStand, RecordsStand;
    var h := ParseHeader(message);
    var (questions, a) := ParseQuestions(message, 12, h.questionCount).value;
    var (answers, b) := ParseRecords(message, a, h.answerCount).value;
    var (authorities, c) := ParseRecords(message, b, h.authorityCount).value;
    ParsedMessageReencodes(message, 0);
    QuestionsIff(message, 12, m.questions, a);
    RecordsIff(message, a, m.answers, b);
    RecordsIff(message, b, m.authorities, c);
    RecordsIff(message, c, m.additionals, |message|);
  }

  /** A message is parsed exactly if it stands there whole. */
  lemma MessageIff(message: Bytes, m: DnsMessage)
    ensures ParseMessage(message) == Ok(m) <==> MessageStands(message, m)
  {
    hide ParseQuestions, ParseRecords, QuestionsStand, RecordsStand, ParseHeader, HeaderStands, SectionsStand;
    if |message| >= 12 { HeaderIff(message, m.header); }
    if ParseMessage(message) == Ok(m) {
      SectionsParse(message, m);
      ParsedMessageReencodes(message, 0);
    }
    if MessageStands(message, m) { SectionsAreParsed(message, m); }
  }

  lemma SectionsAreParsed(message: Bytes, m: DnsMessage)
    requires MessageStands(message, m)
    ensures ParseMessage(message) == Ok(m)
  {
    hide ParseQuestions, ParseRecords, QuestionsStand, RecordsStand, ParseHeader;
    HeaderIff(message, m.header);
    var a, b, c :|
      QuestionsStand(message, 12, m.questions, a) && RecordsStand(message, a, m.answers, b) &&
      RecordsStand(message, b, m.authorities, c) && RecordsStand(message, c, m.additionals, |message|);
    QuestionsIff(message, 12, m.questions, a);
    RecordsIff(message, a, m.answers, b);
    RecordsIff(message, b, m.authorities, c);
    RecordsIff(message, c, m.additionals, |message|);
  }

  /** The types with names of their own, by number. */
  lemma AssignedCodes()
    ensures FromCode(1) == A && FromCode(2) == Ns && FromCode(5) == Cname && FromCode(6) == Soa && FromCode(16) == Txt
    ensures FromCode(28) == Aaaa && FromCode(33) == Srv && FromCode(43) == Ds && FromCode(46) == Rrsig
    ensures FromCode(47) == Nsec && FromCode(48) == Dnskey && FromCode(50) == Nsec3 && FromCode(52) == Tlsa
    ensures FromCode(64) == Svcb && FromCode(65) == Https
    ensures forall code: u16 ::
      code !in {1, 2, 5, 6, 16, 28, 33, 43, 46, 47, 48, 50, 52, 64, 65} <==> FromCode(code) == RecordType.Unknown(code)
  {
  }
}
