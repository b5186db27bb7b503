/**
 Why a DNS message is refused: the first thing in it that cannot be read, found
 by its place in the octets.
 */
module MessageFaults {
  import opened Bytes
  import opened DnsName
  import opened DnsWire
  import opened DnsMessages
  import opened NameLayout
  import opened MessageLayout

  // -------------------------------------------------------------------- names

  /** Where the reading of a name is: pointers followed and octets of labels read so far. */
  datatype Place = Place(at: nat, jumps: nat, used: nat)

  ghost predicate PassesLabel(message: Bytes, p: Place, q: Place) {
    && p.at < |message| && 1 <= message[p.at] <= 63 && p.at + 1 + message[p.at] as int <= |message|
    && RawLabel(message[p.at + 1..p.at + 1 + message[p.at] as int])
    && q == Place(p.at + 1 + message[p.at] as int, p.jumps, p.used + 1 + message[p.at] as int) && q.used <= 253
  }

  ghost predicate FollowsPointer(message: Bytes, p: Place, q: Place) {
    PointsTo(message, p.at, q.at) && p.jumps < 16 && q == Place(q.at, p.jumps + 1, p.used)
  }

  /** A trail of labels passed and pointers followed. */
  ghost predicate IsTrail(message: Bytes, trail: seq<Place>) {
    && trail != []
    && (|trail| > 1 ==>
          && (PassesLabel(message, trail[0], trail[1]) || FollowsPointer(message, trail[0], trail[1]))
          && IsTrail(message, trail[1..]))
  }

  /** Nothing more is read here: the message ends, or what stands here is no label and no pointer to follow. */
  ghost predicate Stuck(message: Bytes, p: Place, e: ParseError) {
    if p.at >= |message| then e == UnexpectedEof
    else
      var first := message[p.at] as int;
      if first >= 192 then
        if p.at + 1 == |message| then e == UnexpectedEof
        else e == InvalidDnsPointer && ((first - 192) * 256 + message[p.at + 1] as int >= |message| || p.jumps == 16)
      else if first >= 64 then e == InvalidDnsLabel
      else
        && first > 0
        && if p.at + 1 + first > |message| then e == UnexpectedEof
           else if !RawLabel(message[p.at + 1..p.at + 1 + first]) then e == InvalidDnsLabel
           else e == LengthLimit && p.used + 1 + first > 253
  }

  ghost predicate GetsStuck(message: Bytes, p: Place, trail: seq<Place>, e: ParseError) {
    IsTrail(message, trail) && trail[0] == p && Stuck(message, trail[|trail| - 1], e)
  }

  ghost predicate NameFails(message: Bytes, at: nat, e: ParseError) {
    exists trail :: GetsStuck(message, Place(at, 0, 0), trail, e)
  }

  lemma NextPlace(message: Bytes, p: Place, q: Place)
    requires p.jumps <= 16 && (PassesLabel(message, p, q) || FollowsPointer(message, p, q))
    ensures q.jumps <= 16
    ensures ParseLabels(message, p.at, p.jumps, p.used).Err? <==> ParseLabels(message, q.at, q.jumps, q.used).Err?
    ensures ParseLabels(message, p.at, p.jumps, p.used).Err? ==>
      ParseLabels(message, p.at, p.jumps, p.used) == ParseLabels(message, q.at, q.jumps, q.used)
  {
    hide ParseLabels, RawLabel;
    if PassesLabel(message, p, q) {
      OneLabel(message, p.at, p.jumps, p.used, message[p.at + 1..q.at]);
    } else {
      OnePointer(message, p.at, p.jumps, p.used, q.at);
    }
  }

  lemma StuckIff(message: Bytes, p: Place, e: ParseError)
    requires p.jumps <= 16 && Stuck(message, p, e)
    ensures ParseLabels(message, p.at, p.jumps, p.used) == Err(e)
  {
    hide RawLabel, IsValidLabel;
    if p.at < |message| && 0 < message[p.at] < 64 && p.at + 1 + message[p.at] as int <= |message| {
      RawLabelIff(message[p.at + 1..p.at + 1 + message[p.at] as int]);
    }
  }

  lemma {:induction false} StuckIsReported(message: Bytes, p: Place, trail: seq<Place>, e: ParseError)
    requires p.jumps <= 16 && GetsStuck(message, p, trail, e)
    ensures ParseLabels(message, p.at, p.jumps, p.used) == Err(e)
    decreases |trail|
  {
    hide ParseLabels, Stuck, PassesLabel, FollowsPointer;
    if |trail| == 1 {
      StuckIff(message, p, e);
    } else {
      NextPlace(message, p, trail[1]);
      StuckIsReported(message, trail[1], trail[1..], e);
    }
  }

  lemma {:induction false} ReportedIsStuck(message: Bytes, p: Place) returns (trail: seq<Place>)
    requires p.jumps <= 16 && ParseLabels(message, p.at, p.jumps, p.used).Err?
    ensures GetsStuck(message, p, trail, ParseLabels(message, p.at, p.jumps, p.used).error)
    decreases 16 - p.jumps, |message| - p.at
  {
    hide RawLabel, IsValidLabel;
    var e := ParseLabels(message, p.at, p.jumps, p.used).error;
    if p.at < |message| && 0 < message[p.at] < 64 && p.at + 1 + message[p.at] as int <= |message| {
      RawLabelIff(message[p.at + 1..p.at + 1 + message[p.at] as int]);
    }
    trail := [p];
    if !Stuck(message, p, e) {
      var q := if message[p.at] < 64 then
                 Place(p.at + 1 + message[p.at] as int, p.jumps, p.used + 1 + message[p.at] as int)
               else Place((message[p.at] as int - 192) * 256 + message[p.at + 1] as int, p.jumps + 1, p.used);
      NextPlace(message, p, q);
      var later := ReportedIsStuck(message, q);
      trail := [p] + later;
      assert trail[1..] == later;
    }
  }

  /** Reading a name fails exactly if labels and pointers lead to a place where it gets stuck, and then for the reason
      found there. */
  lemma NameFailsIff(message: Bytes, at: nat, e: ParseError)
    ensures ParseName(message, at) == Err(e) <==> NameFails(message, at, e)
  {
    hide ParseLabels, GetsStuck;
    if ParseName(message, at) == Err(e) {
      var trail := ReportedIsStuck(message, Place(at, 0, 0));
    }
    if trail :| GetsStuck(message, Place(at, 0, 0), trail, e) {
      StuckIsReported(message, Place(at, 0, 0), trail, e);
    }
  }

  // ----------------------------------------------------------------- messages

  /** The name fails, or the message ends within the fields behind it. */
  ghost predicate QuestionFails(message: Bytes, at: nat, e: ParseError) {
    || NameFails(message, at, e)
    || (e == UnexpectedEof &&
        exists name, fields :: ParseName(message, at) == Ok((name, fields)) && CutsShort(message, fields, 4))
  }

  ghost predicate CutsShort(message: Bytes, fields: nat, length: nat) {
    fields + length > |message|
  }

  ghost predicate RecordFails(message: Bytes, at: nat, e: ParseError) {
    || NameFails(message, at, e)
    || (e == UnexpectedEof &&
        exists name, fields ::
          && ParseName(message, at) == Ok((name, fields))
          && (CutsShort(message, fields, 10) || CutsShort(message, fields, 10 + Number16(message, fields + 8))))
  }

  /** Fewer than `count` questions stand, and what follows is none. */
  ghost predicate QuestionsFail(message: Bytes, at: nat, count: nat, e: ParseError) {
    exists qs, end :: |qs| < count && QuestionsStand(message, at, qs, end) && QuestionFails(message, end, e)
  }

  ghost predicate RecordsFail(message: Bytes, at: nat, count: nat, e: ParseError) {
    exists rs, end :: |rs| < count && RecordsStand(message, at, rs, end) && RecordFails(message, end, e)
  }

  /** The additional records fail, or there is more behind them. */
  ghost predicate AdditionalsFail(message: Bytes, at: nat, h: DnsHeader, e: ParseError) {
    || RecordsFail(message, at, h.additionalCount, e)
    || (e == TrailingBytes &&
        exists rs, end :: |rs| == h.additionalCount && RecordsStand(message, at, rs, end) && end != |message|)
  }

  ghost predicate AuthoritiesFail(message: Bytes, at: nat, h: DnsHeader, e: ParseError) {
    || RecordsFail(message, at, h.authorityCount, e)
    || exists rs, end ::
         |rs| == h.authorityCount && RecordsStand(message, at, rs, end) && AdditionalsFail(message, end, h, e)
  }

  ghost predicate AnswersFail(message: Bytes, at: nat, h: DnsHeader, e: ParseError) {
    || RecordsFail(message, at, h.answerCount, e)
    || exists rs, end ::
         |rs| == h.answerCount && RecordsStand(message, at, rs, end) && AuthoritiesFail(message, end, h, e)
  }

  /** The sections stand up to one that fails, or all of them and there is more behind them. */
  ghost predicate SectionsFail(message: Bytes, h: DnsHeader, e: ParseError) {
    || QuestionsFail(message, 12, h.questionCount, e)
    || exists qs, end ::
         |qs| == h.questionCount && QuestionsStand(message, 12, qs, end) && AnswersFail(message, end, h, e)
  }

  ghost predicate MessageFails(message: Bytes, e: ParseError) {
    if |message| < 12 then e == UnexpectedEof
    else if Number16(message, 4) > 16 || Number16(message, 6) + Number16(message, 8) + Number16(message, 10) > 2048
    then e == LengthLimit
    else exists h :: HeaderStands(message, h) && SectionsFail(message, h, e)
  }

  lemma QuestionFailsIff(message: Bytes, at: nat, e: ParseError)
    ensures ParseQuestion(message, at) == Err(e) <==> QuestionFails(message, at, e)
  {
    hide ParseName, NameFails, FromCode;
    NameFailsIff(message, at, e);
  }

  lemma RecordFailsIff(message: Bytes, at: nat, e: ParseError)
    ensures ParseRecord(message, at) == Err(e) <==> RecordFails(message, at, e)
  {
    hide ParseName, NameFails, FromCode;
    NameFailsIff(message, at, e);
  }

  lemma {:induction false} QuestionsFailIff(message: Bytes, at: nat, count: nat, e: ParseError)
    ensures ParseQuestions(message, at, count) == Err(e) <==> QuestionsFail(message, at, count, e)
    decreases count
  {
    hide ParseQuestion, QuestionStands, QuestionFails;
    if count > 0 {
      QuestionFailsIff(message, at, e);
      if ParseQuestion(message, at).Ok? {
        var (first, next) := ParseQuestion(message, at).value;
        QuestionIff(message, at, first, next);
        QuestionsFailIff(message, next, count - 1, e);
        if qs, end :| |qs| < count - 1 && QuestionsStand(message, next, qs, end) && QuestionFails(message, end, e) {
          assert ([first] + qs)[1..] == qs;
          assert QuestionsStand(message, at, [first] + qs, end);
        }
      } else if QuestionFails(message, at, e) {
        assert QuestionsStand(message, at, [], at);
      }
      if qs, end :| |qs| < count && QuestionsStand(message, at, qs, end) && QuestionFails(message, end, e) {
        if qs != [] {
          var next :| QuestionStands(message, at, qs[0], next) && QuestionsStand(message, next, qs[1..], end);
          QuestionIff(message, at, qs[0], next);
        }
      }
    }
  }

  lemma {:induction false} RecordsFailIff(message: Bytes, at: nat, count: nat, e: ParseError)
    ensures ParseRecords(message, at, count) == Err(e) <==> RecordsFail(message, at, count, e)
    decreases count
  {
    hide ParseRecord, RecordStands, RecordFails;
    if count > 0 {
      RecordFailsIff(message, at, e);
      if ParseRecord(message, at).Ok? {
        var (first, next) := ParseRecord(message, at).value;
        RecordIff(message, at, first, next);
        RecordsFailIff(message, next, count - 1, e);
        if rs, end :| |rs| < count - 1 && RecordsStand(message, next, rs, end) && RecordFails(message, end, e) {
          assert ([first] + rs)[1..] == rs;
          assert RecordsStand(message, at, [first] + rs, end);
        }
      } else if RecordFails(message, at, e) {
        assert RecordsStand(message, at, [], at);
      }
      if rs, end :| |rs| < count && RecordsStand(message, at, rs, end) && RecordFails(message, end, e) {
        if rs != [] {
          var next :| RecordStands(message, at, rs[0], next) && RecordsStand(message, next, rs[1..], end);
          RecordIff(message, at, rs[0], next);
        }
      }
    }
  }

  lemma {:induction false} RecordsRead(message: Bytes, at: nat, count: nat)
    ensures ParseRecords(message, at, count).Ok? ==> |ParseRecords(message, at, count).value.0| == count
    decreases count
  {
    hide ParseRecord;
    if count > 0 && ParseRecord(message, at).Ok? {
      RecordsRead(message, ParseRecord(message, at).value.1, count - 1);
    }
  }

  lemma {:induction false} QuestionsRead(message: Bytes, at: nat, count: nat)
    ensures ParseQuestions(message, at, count).Ok? ==> |ParseQuestions(message, at, count).value.0| == count
    decreases count
  {
    hide ParseQuestion;
    if count > 0 && ParseQuestion(message, at).Ok? {
      QuestionsRead(message, ParseQuestion(message, at).value.1, count - 1);
    }
  }

  /** The records of a section that stand are those that are read. */
  lemma RecordsStandIff(message: Bytes, at: nat, count: nat)
    ensures forall rs, end: nat ::
      |rs| == count && RecordsStand(message, at, rs, end) <==> ParseRecords(message, at, count) == Ok((rs, end))
  {
    hide RecordsStand, ParseRecords;
    RecordsRead(message, at, count);
    forall rs, end: nat
      ensures |rs| == count && RecordsStand(message, at, rs, end) <==>
        ParseRecords(message, at, count) == Ok((rs, end))
    {
      if |rs| == count { RecordsIff(message, at, rs, end); }
    }
  }

  lemma QuestionsStandIff(message: Bytes, at: nat, count: nat)
    ensures forall qs, end: nat ::
      |qs| == count && QuestionsStand(message, at, qs, end) <==> ParseQuestions(message, at, count) == Ok((qs, end))
  {
    hide QuestionsStand, ParseQuestions;
    QuestionsRead(message, at, count);
    forall qs, end: nat
      ensures |qs| == count && QuestionsStand(message, at, qs, end) <==>
        ParseQuestions(message, at, count) == Ok((qs, end))
    {
      if |qs| == count { QuestionsIff(message, at, qs, end); }
    }
  }

  lemma AdditionalsFailIff(message: Bytes, at: nat, h: DnsHeader, e: ParseError)
    ensures var r := ParseRecords(message, at, h.additionalCount);
      AdditionalsFail(message, at, h, e) <==> r == Err(e) || (r.Ok? && r.value.1 != |message| && e == TrailingBytes)
  {
    hide ParseRecords, RecordsFail, RecordsStand;
    RecordsFailIff(message, at, h.additionalCount, e);
    RecordsStandIff(message, at, h.additionalCount);
    var r := ParseRecords(message, at, h.additionalCount);
    if r.Ok? { assert RecordsStand(message, at, r.value.0, r.value.1); }
  }

  lemma AuthoritiesFailIff(message: Bytes, at: nat, h: DnsHeader, e: ParseError)
    ensures var r := ParseRecords(message, at, h.authorityCount);
      AuthoritiesFail(message, at, h, e) <==> r == Err(e) || (r.Ok? && AdditionalsFail(message, r.value.1, h, e))
  {
    hide ParseRecords, RecordsFail, RecordsStand, AdditionalsFail;
    RecordsFailIff(message, at, h.authorityCount, e);
    RecordsStandIff(message, at, h.authorityCount);
    var r := ParseRecords(message, at, h.authorityCount);
    if r.Ok? { assert RecordsStand(message, at, r.value.0, r.value.1); }
  }

  lemma AnswersFailIff(message: Bytes, at: nat, h: DnsHeader, e: ParseError)
    ensures var r := ParseRecords(message, at, h.answerCount);
      AnswersFail(message, at, h, e) <==> r == Err(e) || (r.Ok? && AuthoritiesFail(message, r.value.1, h, e))
  {
    hide ParseRecords, RecordsFail, RecordsStand, AuthoritiesFail;
    RecordsFailIff(message, at, h.answerCount, e);
    RecordsStandIff(message, at, h.answerCount);
    var r := ParseRecords(message, at, h.answerCount);
    if r.Ok? { assert RecordsStand(message, at, r.value.0, r.value.1); }
  }

  lemma SectionsFailIff(message: Bytes, h: DnsHeader, e: ParseError)
    ensures var r := ParseQuestions(message, 12, h.questionCount);
      SectionsFail(message, h, e) <==> r == Err(e) || (r.Ok? && AnswersFail(message, r.value.1, h, e))
  {
    hide ParseQuestions, QuestionsFail, QuestionsStand, AnswersFail;
    QuestionsFailIff(message, 12, h.questionCount, e);
    QuestionsStandIff(message, 12, h.questionCount);
    var r := ParseQuestions(message, 12, h.questionCount);
    if r.Ok? { assert QuestionsStand(message, 12, r.value.0, r.value.1); }
  }

  /** A message is refused exactly for the first thing in it that cannot be read. */
  lemma MessageFailsIff(message: Bytes, e: ParseError)
    ensures ParseMessage(message) == Err(e) <==> MessageFails(message, e)
  {
    if |message| >= 12 {
      var h := ParseHeader(message);
      forall g ensures HeaderStands(message, g) <==> g == h { HeaderIff(message, g); }
      assert HeaderStands(message, h);
      hide ParseHeader, ParseQuestions, ParseRecords, SectionsFail, AnswersFail, AuthoritiesFail, AdditionalsFail;
      assert h.questionCount == Number16(message, 4) && h.answerCount == Number16(message, 6) &&
             h.authorityCount == Number16(message, 8) && h.additionalCount == Number16(message, 10);
      hide HeaderStands;
      SectionsFailIff(message, h, e);
      if ParseQuestions(message, 12, h.questionCount).Ok? {
        var a := ParseQuestions(message, 12, h.questionCount).value.1;
        AnswersFailIff(message, a, h, e);
        if ParseRecords(message, a, h.answerCount).Ok? {
          var b := ParseRecords(message, a, h.answerCount).value.1;
          AuthoritiesFailIff(message, b, h, e);
          if ParseRecords(message, b, h.authorityCount).Ok? {
            AdditionalsFailIff(message, ParseRecords(message, b, h.authorityCount).value.1, h, e);
          }
        }
      }
    }
  }
}
