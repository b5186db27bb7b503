/** Whole DNS messages: parsing, encoding, and the round trips between them. */
module DnsMessages {
  import opened Bytes
  import opened DnsName
  import opened DnsWire

  // ------------------------------------------------------------------ parsing

  function ParseQuestion(message: Bytes, offset: nat): Result<(DnsQuestion, nat), ParseError> {
    match ParseName(message, offset)
    case Err(e) => Err(e)
    case Ok((name, cursor)) =>
      if cursor + 4 > |message| then Err(UnexpectedEof)
      else Ok((DnsQuestion(name, FromCode(Read16(message, cursor)), Read16(message, cursor + 2)), cursor + 4))
  }

  function ParseRecord(message: Bytes, offset: nat): Result<(ResourceRecord, nat), ParseError> {
    match ParseName(message, offset)
    case Err(e) => Err(e)
    case Ok((name, cursor)) =>
      if cursor + 10 > |message| then Err(UnexpectedEof)
      else
        var end := cursor + 10 + Read16(message, cursor + 8);
        if end > |message| then Err(UnexpectedEof)
        else
          Ok((ResourceRecord(name, FromCode(Read16(message, cursor)), Read16(message, cursor + 2),
                             Read32(message, cursor + 4), message[cursor + 10..end]), end))
  }

  function ParseQuestions(message: Bytes, cursor: nat, count: nat): Result<(seq<DnsQuestion>, nat), ParseError>
    decreases count
  {
    if count == 0 then Ok(([], cursor))
    else
      match ParseQuestion(message, cursor)
      case Err(e) => Err(e)
      case Ok((first, next)) =>
        match ParseQuestions(message, next, count - 1)
        case Err(e) => Err(e)
        case Ok((rest, end)) => Ok(([first] + rest, end))
  }

  function ParseRecords(message: Bytes, cursor: nat, count: nat): Result<(seq<ResourceRecord>, nat), ParseError>
    decreases count
  {
    if count == 0 then Ok(([], cursor))
    else
      match ParseRecord(message, cursor)
      case Err(e) => Err(e)
      case Ok((first, next)) =>
        match ParseRecords(message, next, count - 1)
        case Err(e) => Err(e)
        case Ok((rest, end)) => Ok(([first] + rest, end))
  }

  function ParseHeader(message: Bytes): DnsHeader
    requires |message| >= 12
  {
    DnsHeader(Read16(message, 0), Read16(message, 2), Read16(message, 4),
              Read16(message, 6), Read16(message, 8), Read16(message, 10))
  }

  function ParseMessage(message: Bytes): Result<DnsMessage, ParseError> {
    if |message| < 12 then Err(UnexpectedEof)
    else
      var header := ParseHeader(message);
      if header.questionCount > MAX_DNS_QUESTIONS then Err(LengthLimit)
      else if header.answerCount + header.authorityCount + header.additionalCount > MAX_DNS_RECORDS then
        Err(LengthLimit)
      else
        match ParseQuestions(message, 12, header.questionCount)
        case Err(e) => Err(e)
        case Ok((questions, next)) =>
          match ParseRecords(message, next, header.answerCount)
          case Err(e) => Err(e)
          case Ok((answers, next')) =>
            match ParseRecords(message, next', header.authorityCount)
            case Err(e) => Err(e)
            case Ok((authorities, next'')) =>
              match ParseRecords(message, next'', header.additionalCount)
              case Err(e) => Err(e)
              case Ok((additionals, end)) =>
                if end != |message| then Err(TrailingBytes)
                else Ok(DnsMessage(header, questions, answers, authorities, additionals))
  }

  // ----------------------------------------------------------------- encoding

  function WriteQuestion(q: DnsQuestion): Bytes {
    WriteName(q.name) + (BigEndian16(Code(q.recordType)) + BigEndian16(q.class_))
  }

  function WriteRecord(r: ResourceRecord): Bytes {
    WriteName(r.name) + (BigEndian16(Code(r.recordType)) + (BigEndian16(r.class_) + (BigEndian32(r.ttl) +
    (BigEndian16(|r.rdata| % 0x1_0000) + r.rdata))))
  }

  function WriteQuestions(qs: seq<DnsQuestion>): Bytes {
    if qs == [] then [] else WriteQuestion(qs[0]) + WriteQuestions(qs[1..])
  }

  function WriteRecords(rs: seq<ResourceRecord>): Bytes {
    if rs == [] then [] else WriteRecord(rs[0]) + WriteRecords(rs[1..])
  }

  function WriteHeader(m: DnsMessage): (s: Bytes)
    ensures |s| == 12
  {
    BigEndian16(m.header.id) + (BigEndian16(m.header.flags) + (BigEndian16(|m.questions| % 0x1_0000) +
    (BigEndian16(|m.answers| % 0x1_0000) + (BigEndian16(|m.authorities| % 0x1_0000) +
    BigEndian16(|m.additionals| % 0x1_0000)))))
  }

  function WriteMessage(m: DnsMessage): Bytes {
    WriteHeader(m) + (WriteQuestions(m.questions) + (WriteRecords(m.answers) + (WriteRecords(m.authorities) +
    WriteRecords(m.additionals))))
  }

  /** What is wrong with a record, if anything: first its data, then its name. */
  function RecordFault(r: ResourceRecord): Option<ParseError> {
    if |r.rdata| > 0xffff then Some(LengthLimit)
    else if EncodeName(r.name).Err? then Some(EncodeName(r.name).error)
    else None
  }

  function QuestionFault(q: DnsQuestion): Option<ParseError> {
    if EncodeName(q.name).Err? then Some(EncodeName(q.name).error) else None
  }

  function FirstFault<T>(items: seq<T>, fault: T -> Option<ParseError>): Option<ParseError> {
    if items == [] then None else if fault(items[0]).Some? then fault(items[0]) else FirstFault(items[1..], fault)
  }

  /** The first fault met in writing order. */
  function MessageFault(m: DnsMessage): Option<ParseError> {
    if FirstFault(m.questions, QuestionFault).Some? then FirstFault(m.questions, QuestionFault)
    else if FirstFault(m.answers, RecordFault).Some? then FirstFault(m.answers, RecordFault)
    else if FirstFault(m.authorities, RecordFault).Some? then FirstFault(m.authorities, RecordFault)
    else FirstFault(m.additionals, RecordFault)
  }

  function EncodeMessage(m: DnsMessage, maxLen: nat): Result<Bytes, ParseError> {
    if |m.questions| > MAX_DNS_QUESTIONS || |m.answers| + |m.authorities| + |m.additionals| > MAX_DNS_RECORDS then
      Err(LengthLimit)
    else if MessageFault(m).Some? then Err(MessageFault(m).value)
    else if |WriteMessage(m)| > maxLen then Err(LengthLimit)
    else Ok(WriteMessage(m))
  }

  // -------------------------------------------------------------- round trips

  ghost predicate CanonicalQuestion(q: DnsQuestion) {
    ValidName(q.name) && CanonicalType(q.recordType)
  }

  ghost predicate CanonicalRecord(r: ResourceRecord) {
    ValidName(r.name) && CanonicalType(r.recordType) && |r.rdata| <= 0xffff
  }

  /** A message as the parser delivers it: valid names, types by name, counts that tell the truth. */
  ghost predicate CanonicalMessage(m: DnsMessage) {
    && |m.questions| == m.header.questionCount <= MAX_DNS_QUESTIONS
    && |m.answers| == m.header.answerCount && |m.authorities| == m.header.authorityCount
    && |m.additionals| == m.header.additionalCount
    && |m.answers| + |m.authorities| + |m.additionals| <= MAX_DNS_RECORDS
    && (forall q :: q in m.questions ==> CanonicalQuestion(q))
    && (forall r :: r in m.answers || r in m.authorities || r in m.additionals ==> CanonicalRecord(r))
  }

  lemma ParseWrittenQuestion(message: Bytes, at: nat, q: DnsQuestion)
    requires CanonicalQuestion(q) && At(message, at, WriteQuestion(q))
    ensures ParseQuestion(message, at) == Ok((q, at + |WriteQuestion(q)|))
  {
    hide ValidName, ParseName, EncodeName, Read16, BigEndian16;
    var code, class_ := BigEndian16(Code(q.recordType)), BigEndian16(q.class_);
    AtSplit(message, at, WriteName(q.name), code + class_);
    var cursor := at + |WriteName(q.name)|;
    AtSplit(message, cursor, code, class_);
    ParseWrittenName(message, at, q.name);
    ReadWritten16(message, cursor, Code(q.recordType));
    ReadWritten16(message, cursor + 2, q.class_);
  }

  /** Where the fields of a written record stand. */
  lemma RecordFields(message: Bytes, at: nat, r: ResourceRecord)
    requires |r.rdata| <= 0xffff && At(message, at, WriteRecord(r))
    ensures var cursor := at + |WriteName(r.name)|;
      && At(message, at, WriteName(r.name))
      && cursor + 10 + |r.rdata| <= |message| && at + |WriteRecord(r)| == cursor + 10 + |r.rdata|
      && Read16(message, cursor) == Code(r.recordType)
      && Read16(message, cursor + 2) == r.class_
      && Read32(message, cursor + 4) == r.ttl
      && Read16(message, cursor + 8) == |r.rdata|
      && message[cursor + 10..cursor + 10 + |r.rdata|] == r.rdata
  {
    hide BigEndian16, BigEndian32, Read16, Read32, WriteName, Code, At;
    var code, class_, ttl := BigEndian16(Code(r.recordType)), BigEndian16(r.class_), BigEndian32(r.ttl);
    var len := BigEndian16(|r.rdata|);
    var cursor := at + |WriteName(r.name)|;
    AtSplit(message, at, WriteName(r.name), code + (class_ + (ttl + (len + r.rdata))));
    AtSplit(message, cursor, code, class_ + (ttl + (len + r.rdata)));
    AtSplit(message, cursor + 2, class_, ttl + (len + r.rdata));
    AtSplit(message, cursor + 4, ttl, len + r.rdata);
    AtSplit(message, cursor + 8, len, r.rdata);
    AtIs(message, cursor + 10, r.rdata);
    ReadWritten16(message, cursor, Code(r.recordType));
    ReadWritten16(message, cursor + 2, r.class_);
    ReadWritten32(message, cursor + 4, r.ttl);
    ReadWritten16(message, cursor + 8, |r.rdata|);
  }

  lemma AtIs(s: Bytes, at: nat, piece: Bytes)
    requires At(s, at, piece)
    ensures at + |piece| <= |s| && s[at..at + |piece|] == piece
  {
  }

  lemma ParseWrittenRecord(message: Bytes, at: nat, r: ResourceRecord)
    requires CanonicalRecord(r) && At(message, at, WriteRecord(r))
    ensures ParseRecord(message, at) == Ok((r, at + |WriteRecord(r)|))
  {
    hide ValidName, ParseName, EncodeName, Read16, Read32, At, WriteRecord;
    RecordFields(message, at, r);
    ParseWrittenName(message, at, r.name);
  }

  lemma NameEncodes(name: Name)
    requires ValidName(name)
    ensures EncodeName(name).Ok?
  {
  }

  lemma {:induction false} ParseWrittenQuestions(message: Bytes, at: nat, qs: seq<DnsQuestion>)
    requires (forall q :: q in qs ==> CanonicalQuestion(q)) && At(message, at, WriteQuestions(qs))
    ensures ParseQuestions(message, at, |qs|) == Ok((qs, at + |WriteQuestions(qs)|))
    decreases |qs|
  {
    hide CanonicalQuestion, WriteQuestion, ParseQuestion, At;
    if qs != [] {
      var first, rest := qs[0], qs[1..];
      AtSplit(message, at, WriteQuestion(first), WriteQuestions(rest));
      ParseWrittenQuestion(message, at, first);
      ParseWrittenQuestions(message, at + |WriteQuestion(first)|, rest);
      assert qs == [first] + rest;
    }
  }

  lemma {:induction false} CanonicalQuestionsHaveNoFault(qs: seq<DnsQuestion>)
    requires forall q :: q in qs ==> CanonicalQuestion(q)
    ensures FirstFault(qs, QuestionFault) == None
    decreases |qs|
  {
    hide ValidName;
    if qs != [] {
      assert CanonicalQuestion(qs[0]);
      NameEncodes(qs[0].name);
      CanonicalQuestionsHaveNoFault(qs[1..]);
    }
  }

  lemma {:induction false} ParseWrittenRecords(message: Bytes, at: nat, rs: seq<ResourceRecord>)
    requires (forall r :: r in rs ==> CanonicalRecord(r)) && At(message, at, WriteRecords(rs))
    ensures ParseRecords(message, at, |rs|) == Ok((rs, at + |WriteRecords(rs)|))
    decreases |rs|
  {
    hide CanonicalRecord, WriteRecord, ParseRecord, At;
    if rs != [] {
      var first, rest := rs[0], rs[1..];
      AtSplit(message, at, WriteRecord(first), WriteRecords(rest));
      ParseWrittenRecord(message, at, first);
      ParseWrittenRecords(message, at + |WriteRecord(first)|, rest);
      assert rs == [first] + rest;
    }
  }

  lemma {:induction false} CanonicalRecordsHaveNoFault(rs: seq<ResourceRecord>)
    requires forall r :: r in rs ==> CanonicalRecord(r)
    ensures FirstFault(rs, RecordFault) == None
    decreases |rs|
  {
    hide ValidName;
    if rs != [] {
      assert CanonicalRecord(rs[0]);
      NameEncodes(rs[0].name);
      CanonicalRecordsHaveNoFault(rs[1..]);
    }
  }

  lemma ParseWrittenHeader(message: Bytes, m: DnsMessage)
    requires CanonicalMessage(m) && At(message, 0, WriteHeader(m))
    ensures |message| >= 12 && ParseHeader(message) == m.header
  {
    hide BigEndian16, Read16, CanonicalQuestion, CanonicalRecord, At;
    AtIs(message, 0, WriteHeader(m));
    var h := m.header;
    var additionals := BigEndian16(h.additionalCount);
    var authorities := BigEndian16(h.authorityCount) + additionals;
    var answers := BigEndian16(h.answerCount) + authorities;
    var questions := BigEndian16(h.questionCount) + answers;
    AtSplit(message, 0, BigEndian16(h.id), BigEndian16(h.flags) + questions);
    AtSplit(message, 2, BigEndian16(h.flags), questions);
    AtSplit(message, 4, BigEndian16(h.questionCount), answers);
    AtSplit(message, 6, BigEndian16(h.answerCount), authorities);
    AtSplit(message, 8, BigEndian16(h.authorityCount), additionals);
    ReadWritten16(message, 0, h.id);
    ReadWritten16(message, 2, h.flags);
    ReadWritten16(message, 4, h.questionCount);
    ReadWritten16(message, 6, h.answerCount);
    ReadWritten16(message, 8, h.authorityCount);
    ReadWritten16(message, 10, h.additionalCount);
  }

  /** Every canonical message encodes if it is short enough, and its encoding parses back to it. */
  lemma CanonicalRoundTrip(m: DnsMessage, maxLen: nat)
    requires CanonicalMessage(m)
    ensures EncodeMessage(m, maxLen) == if |WriteMessage(m)| > maxLen then Err(LengthLimit) else Ok(WriteMessage(m))
    ensures ParseMessage(WriteMessage(m)) == Ok(m)
  {
    hide CanonicalQuestion, CanonicalRecord, ParseQuestions, ParseRecords, WriteQuestions, WriteRecords, WriteHeader,
      ParseHeader, QuestionFault, RecordFault, FirstFault;
    var message := WriteMessage(m);
    var additionals := WriteRecords(m.additionals);
    var authorities := WriteRecords(m.authorities) + additionals;
    var answers := WriteRecords(m.answers) + authorities;
    var questions := WriteQuestions(m.questions) + answers;
    assert At(message, 0, WriteHeader(m) + questions);
    AtSplit(message, 0, WriteHeader(m), questions);
    AtSplit(message, 12, WriteQuestions(m.questions), answers);
    var next := 12 + |WriteQuestions(m.questions)|;
    AtSplit(message, next, WriteRecords(m.answers), authorities);
    var next' := next + |WriteRecords(m.answers)|;
    AtSplit(message, next', WriteRecords(m.authorities), additionals);
    var next'' := next' + |WriteRecords(m.authorities)|;
    hide At;
    ParseWrittenHeader(message, m);
    ParseWrittenQuestions(message, 12, m.questions);
    ParseWrittenRecords(message, next, m.answers);
    ParseWrittenRecords(message, next', m.authorities);
    ParseWrittenRecords(message, next'', m.additionals);
    CanonicalQuestionsHaveNoFault(m.questions);
    CanonicalRecordsHaveNoFault(m.answers);
    CanonicalRecordsHaveNoFault(m.authorities);
    CanonicalRecordsHaveNoFault(m.additionals);
  }

  lemma {:induction false} ParsedQuestionsAreCanonical(message: Bytes, cursor: nat, count: nat)
    requires ParseQuestions(message, cursor, count).Ok?
    ensures var (qs, _) := ParseQuestions(message, cursor, count).value;
      |qs| == count && forall q :: q in qs ==> CanonicalQuestion(q)
    decreases count
  {
    hide ValidName;
    if count > 0 {
      ParsedNameIsValid(message, cursor);
      var (first, next) := ParseQuestion(message, cursor).value;
      CodesAgree(Code(first.recordType));
      ParsedQuestionsAreCanonical(message, next, count - 1);
    }
  }

  lemma ParsedRecordIsCanonical(message: Bytes, cursor: nat)
    requires ParseRecord(message, cursor).Ok?
    ensures CanonicalRecord(ParseRecord(message, cursor).value.0)
  {
    hide ValidName, ParseName, FromCode, Code, Read32;
    ParsedNameIsValid(message, cursor);
    CodesAgree(Read16(message, ParseName(message, cursor).value.1));
  }

  lemma {:induction false} ParsedRecordsAreCanonical(message: Bytes, cursor: nat, count: nat)
    requires ParseRecords(message, cursor, count).Ok?
    ensures var (rs, _) := ParseRecords(message, cursor, count).value;
      |rs| == count && forall r :: r in rs ==> CanonicalRecord(r)
    decreases count
  {
    hide ParseRecord, CanonicalRecord;
    if count > 0 {
      ParsedRecordIsCanonical(message, cursor);
      var (first, next) := ParseRecord(message, cursor).value;
      ParsedRecordsAreCanonical(message, next, count - 1);
    }
  }

  /** Whatever parses, compressed or not, is canonical, and so re-encodes to octets that parse to the same message. */
  lemma ParsedMessageReencodes(message: Bytes, maxLen: nat)
    requires ParseMessage(message).Ok?
    ensures var m := ParseMessage(message).value;
      && CanonicalMessage(m)
      && (EncodeMessage(m, maxLen).Ok? <==> |WriteMessage(m)| <= maxLen)
      && (EncodeMessage(m, maxLen).Ok? ==> ParseMessage(EncodeMessage(m, maxLen).value) == Ok(m))
  {
    hide CanonicalQuestion, CanonicalRecord, ParseQuestions, ParseRecords, WriteMessage, MessageFault;
    var m := ParseMessage(message).value;
    ParsedQuestionsAreCanonical(message, 12, m.header.questionCount);
    var next := ParseQuestions(message, 12, m.header.questionCount).value.1;
    ParsedRecordsAreCanonical(message, next, m.header.answerCount);
    var next' := ParseRecords(message, next, m.header.answerCount).value.1;
    ParsedRecordsAreCanonical(message, next', m.header.authorityCount);
    var next'' := ParseRecords(message, next', m.header.authorityCount).value.1;
    ParsedRecordsAreCanonical(message, next'', m.header.additionalCount);
    CanonicalRoundTrip(m, maxLen);
  }

  // ------------------------------------------------------------- step by step

  function MoreQuestions(done: seq<DnsQuestion>, rest: Result<(seq<DnsQuestion>, nat), ParseError>)
    : Result<(seq<DnsQuestion>, nat), ParseError>
  {
    match rest case Err(e) => Err(e) case Ok((questions, end)) => Ok((done + questions, end))
  }

  /** Question after question, the cursor moving on. */
  method ReadQuestions(message: Bytes, start: nat, count: nat) returns (r: Result<(seq<DnsQuestion>, nat), ParseError>)
    ensures r == ParseQuestions(message, start, count)
  {
    hide ParseQuestion;
    var questions: seq<DnsQuestion> := [];
    var cursor := start;
    assert forall rest: seq<DnsQuestion> :: [] + rest == rest;
    for k := 0 to count
      invariant ParseQuestions(message, start, count) ==
                MoreQuestions(questions, ParseQuestions(message, cursor, count - k))
    {
      var next := ParseQuestion(message, cursor);
      if next.Err? {
        return Err(next.error);
      }
      assert forall rest: seq<DnsQuestion> :: questions + ([next.value.0] + rest) == questions + [next.value.0] + rest;
      questions := questions + [next.value.0];
      cursor := next.value.1;
    }
    assert questions + [] == questions;
    r := Ok((questions, cursor));
  }

  function MoreRecords(done: seq<ResourceRecord>, rest: Result<(seq<ResourceRecord>, nat), ParseError>)
    : Result<(seq<ResourceRecord>, nat), ParseError>
  {
    match rest case Err(e) => Err(e) case Ok((records, end)) => Ok((done + records, end))
  }

  /** Record after record, the cursor moving on. */
  method ReadRecords(message: Bytes, start: nat, count: nat) returns (r: Result<(seq<ResourceRecord>, nat), ParseError>)
    ensures r == ParseRecords(message, start, count)
  {
    hide ParseRecord;
    var records: seq<ResourceRecord> := [];
    var cursor := start;
    assert forall rest: seq<ResourceRecord> :: [] + rest == rest;
    for k := 0 to count
      invariant ParseRecords(message, start, count) == MoreRecords(records, ParseRecords(message, cursor, count - k))
    {
      var next := ParseRecord(message, cursor);
      if next.Err? {
        return Err(next.error);
      }
      assert forall rest: seq<ResourceRecord> :: records + ([next.value.0] + rest) == records + [next.value.0] + rest;
      records := records + [next.value.0];
      cursor := next.value.1;
    }
    assert records + [] == records;
    r := Ok((records, cursor));
  }

  method Parse(message: Bytes) returns (r: Result<DnsMessage, ParseError>)
    ensures r == ParseMessage(message)
  {
    hide ParseQuestions, ParseRecords;
    if |message| < 12 {
      return Err(UnexpectedEof);
    }
    var header := ParseHeader(message);
    if header.questionCount > MAX_DNS_QUESTIONS {
      return Err(LengthLimit);
    }
    if header.answerCount + header.authorityCount + header.additionalCount > MAX_DNS_RECORDS {
      return Err(LengthLimit);
    }
    var questions := ReadQuestions(message, 12, header.questionCount);
    if questions.Err? {
      return Err(questions.error);
    }
    var answers := ReadRecords(message, questions.value.1, header.answerCount);
    if answers.Err? {
      return Err(answers.error);
    }
    var authorities := ReadRecords(message, answers.value.1, header.authorityCount);
    if authorities.Err? {
      return Err(authorities.error);
    }
    var additionals := ReadRecords(message, authorities.value.1, header.additionalCount);
    if additionals.Err? {
      return Err(additionals.error);
    }
    if additionals.value.1 != |message| {
      return Err(TrailingBytes);
    }
    r := Ok(DnsMessage(header, questions.value.0, answers.value.0, authorities.value.0, additionals.value.0));
  }

  lemma EncodedNameIsWritten(name: Name)
    ensures EncodeName(name).Ok? ==> EncodeName(name).value == WriteName(name)
  {
  }

  method EncodeQuestion(item: DnsQuestion, out: Bytes) returns (r: Result<Bytes, ParseError>)
    ensures r == match QuestionFault(item) case Some(e) => Err(e) case None => Ok(out + WriteQuestion(item))
  {
    hide BigEndian16, BigEndian32, Code, WriteName, EncodeName;
    var named := EncodeWire(item.name, out);
    if named.Err? {
      return named;
    }
    EncodedNameIsWritten(item.name);
    var buffer := named.value;
    buffer := buffer + BigEndian16(Code(item.recordType));
    buffer := buffer + BigEndian16(item.class_);
    assert buffer == out + WriteQuestion(item);
    r := Ok(buffer);
  }

  method EncodeQuestions(items: seq<DnsQuestion>, out: Bytes) returns (r: Result<Bytes, ParseError>)
    ensures r == match FirstFault(items, QuestionFault)
                 case Some(e) => Err(e)
                 case None => Ok(out + WriteQuestions(items))
  {
    hide WriteQuestion, QuestionFault;
    var buffer := out;
    assert items[0..] == items;
    for k := 0 to |items|
      invariant FirstFault(items, QuestionFault) == FirstFault(items[k..], QuestionFault)
      invariant out + WriteQuestions(items) == buffer + WriteQuestions(items[k..])
    {
      assert items[k..][0] == items[k] && items[k..][1..] == items[k + 1..];
      var next := EncodeQuestion(items[k], buffer);
      if next.Err? {
        return next;
      }
      buffer := next.value;
    }
    assert items[|items|..] == [] && buffer + [] == buffer;
    r := Ok(buffer);
  }

  method EncodeRecord(item: ResourceRecord, out: Bytes) returns (r: Result<Bytes, ParseError>)
    ensures r == match RecordFault(item) case Some(e) => Err(e) case None => Ok(out + WriteRecord(item))
  {
    hide BigEndian16, BigEndian32, Code, WriteName, EncodeName;
    if |item.rdata| > 0xffff {
      return Err(LengthLimit);
    }
    var named := EncodeWire(item.name, out);
    if named.Err? {
      return named;
    }
    EncodedNameIsWritten(item.name);
    var buffer := named.value;
    buffer := buffer + BigEndian16(Code(item.recordType));
    buffer := buffer + BigEndian16(item.class_);
    buffer := buffer + BigEndian32(item.ttl);
    buffer := buffer + BigEndian16(|item.rdata|);
    buffer := buffer + item.rdata;
    assert buffer == out + WriteRecord(item);
    r := Ok(buffer);
  }

  method EncodeRecords(items: seq<ResourceRecord>, out: Bytes) returns (r: Result<Bytes, ParseError>)
    ensures r == match FirstFault(items, RecordFault) case Some(e) => Err(e) case None => Ok(out + WriteRecords(items))
  {
    hide WriteRecord, RecordFault;
    var buffer := out;
    assert items[0..] == items;
    for k := 0 to |items|
      invariant FirstFault(items, RecordFault) == FirstFault(items[k..], RecordFault)
      invariant out + WriteRecords(items) == buffer + WriteRecords(items[k..])
    {
      assert items[k..][0] == items[k] && items[k..][1..] == items[k + 1..];
      var next := EncodeRecord(items[k], buffer);
      if next.Err? {
        return next;
      }
      buffer := next.value;
    }
    assert items[|items|..] == [] && buffer + [] == buffer;
    r := Ok(buffer);
  }

  /** The encoder: header, sections in order, and the length cap checked at the end. */
  method Encode(m: DnsMessage, maxLen: nat) returns (r: Result<Bytes, ParseError>)
    ensures r == EncodeMessage(m, maxLen)
  {
    hide FirstFault, WriteQuestions, WriteRecords, WriteHeader;
    if |m.questions| > MAX_DNS_QUESTIONS || |m.answers| + |m.authorities| + |m.additionals| > MAX_DNS_RECORDS {
      return Err(LengthLimit);
    }
    r := EncodeQuestions(m.questions, WriteHeader(m));
    if r.Err? {
      return;
    }
    r := EncodeRecords(m.answers, r.value);
    if r.Err? {
      return;
    }
    r := EncodeRecords(m.authorities, r.value);
    if r.Err? {
      return;
    }
    r := EncodeRecords(m.additionals, r.value);
    if r.Err? {
      return;
    }
    assert r.value == WriteMessage(m);
    if |r.value| > maxLen {
      return Err(LengthLimit);
    }
  }
}
