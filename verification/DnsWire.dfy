/** DNS messages on the wire: names with compression pointers, questions, records, whole messages. */
module DnsWire {
  import opened Bytes
  import opened DnsName

  const MAX_DNS_QUESTIONS: nat := 16
  const MAX_DNS_RECORDS: nat := 2048
  const MAX_JUMPS: nat := 16

  datatype RecordType =
    | A | Ns | Cname | Soa | Txt | Aaaa | Srv | Ds | Rrsig | Nsec | Dnskey | Nsec3 | Tlsa | Svcb | Https
    | Unknown(raw: u16)

  function FromCode(code: u16): RecordType {
    match code
    case 1 => A case 2 => Ns case 5 => Cname case 6 => Soa case 16 => Txt case 28 => Aaaa case 33 => Srv
    case 43 => Ds case 46 => Rrsig case 47 => Nsec case 48 => Dnskey case 50 => Nsec3 case 52 => Tlsa
    case 64 => Svcb case 65 => Https
    case other => Unknown(other)
  }

  function Code(t: RecordType): u16 {
    match t
    case A => 1 case Ns => 2 case Cname => 5 case Soa => 6 case Txt => 16 case Aaaa => 28 case Srv => 33
    case Ds => 43 case Rrsig => 46 case Nsec => 47 case Dnskey => 48 case Nsec3 => 50 case Tlsa => 52
    case Svcb => 64 case Https => 65
    case Unknown(raw) => raw
  }

  /** A type as the parser names it: `Unknown` only for codes without a name of their own. */
  ghost predicate CanonicalType(t: RecordType) {
    FromCode(Code(t)) == t
  }

  lemma CodesAgree(code: u16)
    ensures Code(FromCode(code)) == code && CanonicalType(FromCode(code))
  {
  }

  datatype DnsHeader = DnsHeader(id: u16, flags: u16, questionCount: u16, answerCount: u16,
                                 authorityCount: u16, additionalCount: u16)

  datatype DnsQuestion = DnsQuestion(name: Name, recordType: RecordType, class_: u16)

  datatype ResourceRecord = ResourceRecord(name: Name, recordType: RecordType, class_: u16, ttl: u32, rdata: Bytes)

  type RRset = seq<ResourceRecord>

  datatype DnsMessage = DnsMessage(header: DnsHeader, questions: seq<DnsQuestion>, answers: seq<ResourceRecord>,
                                   authorities: seq<ResourceRecord>, additionals: seq<ResourceRecord>)

  // ------------------------------------------------------------------ numbers

  function BigEndian16(n: u16): (s: Bytes)
    ensures |s| == 2
  {
    [n / 256, n % 256]
  }

  function BigEndian32(n: u32): (s: Bytes)
    ensures |s| == 4
  {
    BigEndian16(n / 0x1_0000) + BigEndian16(n % 0x1_0000)
  }

  lemma FourOctets(n: u32)
    ensures BigEndian32(n) == [n / 0x100_0000, n / 0x1_0000 % 256, n / 0x100 % 256, n % 256]
  {
    LowOctets(n);
    assert n / 0x1_0000 / 256 == n / 0x100_0000;
  }

  function Read16(s: Bytes, at: nat): u16
    requires at + 2 <= |s|
  {
    s[at] as int * 256 + s[at + 1] as int
  }

  function Read32(s: Bytes, at: nat): u32
    requires at + 4 <= |s|
  {
    Read16(s, at) * 0x1_0000 + Read16(s, at + 2)
  }

  /** `piece` stands at `at` in `s`. */
  ghost predicate At(s: Bytes, at: nat, piece: Bytes) {
    at + |piece| <= |s| && s[at..at + |piece|] == piece
  }

  lemma AtSplit(s: Bytes, at: nat, a: Bytes, b: Bytes)
    ensures At(s, at, a + b) <==> At(s, at, a) && At(s, at + |a|, b)
  {
    if at + |a| + |b| <= |s| {
      assert s[at..at + |a + b|] == s[at..at + |a|] + s[at + |a|..at + |a| + |b|];
      if At(s, at, a + b) {
        assert s[at..at + |a|] == (a + b)[..|a|] && s[at + |a|..at + |a| + |b|] == (a + b)[|a|..];
      }
    }
  }

  lemma ReadWritten16(s: Bytes, at: nat, n: u16)
    requires At(s, at, BigEndian16(n))
    ensures Read16(s, at) == n
  {
    assert s[at] == s[at..at + 2][0] && s[at + 1] == s[at..at + 2][1];
  }

  lemma ReadWritten32(s: Bytes, at: nat, n: u32)
    requires At(s, at, BigEndian32(n))
    ensures Read32(s, at) == n
  {
    AtSplit(s, at, BigEndian16(n / 0x1_0000), BigEndian16(n % 0x1_0000));
    ReadWritten16(s, at, n / 0x1_0000);
    ReadWritten16(s, at + 2, n % 0x1_0000);
  }

  // -------------------------------------------------------------------- names

  /**
   The labels from `cursor` on, following pointers, and where the name ends in
   the place it was found; `used` octets of labels and `jumps` pointers came before.
   */
  function ParseLabels(message: Bytes, cursor: nat, jumps: nat, used: nat): Result<(Name, nat), ParseError>
    requires jumps <= MAX_JUMPS
    decreases MAX_JUMPS - jumps, |message| - cursor
  {
    if cursor >= |message| then Err(UnexpectedEof)
    else
      var length := message[cursor];
      if length >= 0xc0 then
        if cursor + 1 >= |message| then Err(UnexpectedEof)
        else
          var pointer := (length as int - 0xc0) * 256 + message[cursor + 1] as int;
          if pointer >= |message| || jumps == MAX_JUMPS then Err(InvalidDnsPointer)
          else
            match ParseLabels(message, pointer, jumps + 1, used)
            case Err(e) => Err(e)
            case Ok((labels, _)) => Ok((labels, cursor + 2))
      else if length >= 0x40 then Err(InvalidDnsLabel)
      else if length == 0 then Ok(([], cursor + 1))
      else
        var end := cursor + 1 + length as int;
        if end > |message| then Err(UnexpectedEof)
        else
          var part := message[cursor + 1..end];
          if !IsValidLabel(part) then Err(InvalidDnsLabel)
          else if used + |part| + 1 > MAX_DNS_NAME_LEN then Err(LengthLimit)
          else
            match ParseLabels(message, end, jumps, used + |part| + 1)
            case Err(e) => Err(e)
            case Ok((labels, after)) => Ok(([Lowercase(part)] + labels, after))
  }

  function ParseName(message: Bytes, offset: nat): Result<(Name, nat), ParseError> {
    ParseLabels(message, offset, 0, 0)
  }

  /** One label of a message after the other, with the pointers followed in the same loop. */
  method ParseWire(message: Bytes, offset: nat) returns (r: Result<(Name, nat), ParseError>)
    ensures r == ParseName(message, offset)
  {
    hide IsValidLabel, Lowercase, LabelsLen;
    var labels: Name := [];
    var cursor: nat := offset;
    NoLabels();
    var consumed: Option<nat> := None;
    var jumps: nat := 0;
    var used := 0;
    assert forall rest: Name :: [] + rest == rest;
    while true
      invariant jumps <= MAX_JUMPS && used == LabelsLen(labels)
      invariant ParseName(message, offset) == Resumed(labels, consumed, ParseLabels(message, cursor, jumps, used))
      decreases MAX_JUMPS - jumps, |message| - cursor
    {
      if cursor >= |message| {
        return Err(UnexpectedEof);
      }
      var length := message[cursor];
      if length >= 0xc0 {
        if cursor + 1 >= |message| {
          return Err(UnexpectedEof);
        }
        var pointer := (length as int - 0xc0) * 256 + message[cursor + 1] as int;
        if pointer >= |message| {
          return Err(InvalidDnsPointer);
        }
        if jumps < MAX_JUMPS { ResumedPointer(message, cursor, jumps, used, labels, consumed); }
        if consumed.None? {
          consumed := Some(cursor + 2);
        }
        cursor := pointer;
        if jumps + 1 > MAX_JUMPS {
          return Err(InvalidDnsPointer);
        }
        jumps := jumps + 1;
        continue;
      }
      if length >= 0x40 {
        return Err(InvalidDnsLabel);
      }
      if length == 0 {
        assert labels + [] == labels;
        return Ok((labels, if consumed.Some? then consumed.value else cursor + 1));
      }
      var end := cursor + 1 + length as int;
      if end > |message| {
        return Err(UnexpectedEof);
      }
      var part := message[cursor + 1..end];
      if !IsValidLabel(part) {
        return Err(InvalidDnsLabel);
      }
      LabelsLenSnoc(labels, Lowercase(part));
      if used + |part| + 1 <= MAX_DNS_NAME_LEN {
        ResumedLabel(message, cursor, jumps, used, labels, consumed);
      }
      labels := labels + [Lowercase(part)];
      used := used + |part| + 1;
      if used > MAX_DNS_NAME_LEN {
        return Err(LengthLimit);
      }
      cursor := end;
    }
  }

  /** What a parse that is under way comes to, given how the rest of it turns out. */
  function Resumed(labels: Name, consumed: Option<nat>, rest: Result<(Name, nat), ParseError>)
    : Result<(Name, nat), ParseError>
  {
    match rest
    case Err(e) => Err(e)
    case Ok((more, after)) => Ok((labels + more, if consumed.Some? then consumed.value else after))
  }

  lemma ResumedLabel(message: Bytes, cursor: nat, jumps: nat, used: nat, labels: Name, consumed: Option<nat>)
    requires jumps <= MAX_JUMPS && cursor < |message| && 0 < message[cursor] < 0x40
    requires cursor + 1 + message[cursor] as int <= |message|
    requires var part := message[cursor + 1..cursor + 1 + message[cursor] as int];
      IsValidLabel(part) && used + |part| + 1 <= MAX_DNS_NAME_LEN
    ensures var end := cursor + 1 + message[cursor] as int;
      var part := message[cursor + 1..end];
      Resumed(labels, consumed, ParseLabels(message, cursor, jumps, used)) ==
      Resumed(labels + [Lowercase(part)], consumed, ParseLabels(message, end, jumps, used + |part| + 1))
  {
    hide IsValidLabel, Lowercase;
    var end := cursor + 1 + message[cursor] as int;
    var part := message[cursor + 1..end];
    var rest := ParseLabels(message, end, jumps, used + |part| + 1);
    if rest.Ok? {
      assert labels + ([Lowercase(part)] + rest.value.0) == labels + [Lowercase(part)] + rest.value.0;
    }
  }

  lemma ResumedPointer(message: Bytes, cursor: nat, jumps: nat, used: nat, labels: Name, consumed: Option<nat>)
    requires jumps < MAX_JUMPS && cursor + 1 < |message| && message[cursor] >= 0xc0
    requires (message[cursor] as int - 0xc0) * 256 + message[cursor + 1] as int < |message|
    ensures var pointer := (message[cursor] as int - 0xc0) * 256 + message[cursor + 1] as int;
      Resumed(labels, consumed, ParseLabels(message, cursor, jumps, used)) ==
      Resumed(labels, if consumed.Some? then consumed else Some(cursor + 2),
              ParseLabels(message, pointer, jumps + 1, used))
  {
  }

  lemma NoLabels()
    ensures LabelsLen([]) == 0
  {
  }

  lemma {:induction false} LabelsLenSnoc(labels: Name, part: Bytes)
    ensures LabelsLen(labels + [part]) == LabelsLen(labels) + |part| + 1
  {
    if labels != [] {
      LabelsLenSnoc(labels[1..], part);
      assert (labels + [part])[1..] == labels[1..] + [part];
    }
  }

  lemma {:induction false} ParsedLabelsAreValid(message: Bytes, cursor: nat, jumps: nat, used: nat)
    requires jumps <= MAX_JUMPS && ParseLabels(message, cursor, jumps, used).Ok?
    requires used <= MAX_DNS_NAME_LEN
    ensures var (labels, after) := ParseLabels(message, cursor, jumps, used).value;
      && (forall i :: 0 <= i < |labels| ==> StoredLabel(labels[i]))
      && used + LabelsLen(labels) <= MAX_DNS_NAME_LEN
      && cursor < after <= |message|
    decreases MAX_JUMPS - jumps, |message| - cursor
  {
    var length := message[cursor];
    if length >= 0xc0 {
      var pointer := (length as int - 0xc0) * 256 + message[cursor + 1] as int;
      ParsedLabelsAreValid(message, pointer, jumps + 1, used);
    } else if length > 0 {
      var end := cursor + 1 + length as int;
      var part := message[cursor + 1..end];
      ParsedLabelsAreValid(message, end, jumps, used + |part| + 1);
      LowercaseIsStored(part);
      var rest := ParseLabels(message, end, jumps, used + |part| + 1).value.0;
      var labels := [Lowercase(part)] + rest;
      assert labels[1..] == rest && forall i :: 0 < i < |labels| ==> labels[i] == rest[i - 1];
    }
  }

  lemma {:induction false} LowercaseTwice(part: Bytes)
    ensures Lowercase(Lowercase(part)) == Lowercase(part)
  {
    if part != [] {
      LowercaseTwice(part[1..]);
      assert ([LowerOctet(part[0])] + Lowercase(part[1..]))[1..] == Lowercase(part[1..]);
    }
  }

  lemma LowercaseIsStored(part: Bytes)
    requires 0 < |part| <= MAX_DNS_LABEL_LEN && IsValidLabel(part)
    ensures StoredLabel(Lowercase(part))
  {
    LowercaseTwice(part);
    if part == [STAR] {
      assert Lowercase(part) == [STAR];
    }
  }

  /** Labels and a closing zero, without any compression. */
  function WriteName(name: Name): Bytes {
    if name == [] then [0] else [|name[0]| % 256] + name[0] + WriteName(name[1..])
  }

  /** Writing fails only for a label that no parsed name has. */
  function EncodeName(name: Name): Result<Bytes, ParseError> {
    if exists i :: 0 <= i < |name| && |name[i]| > MAX_DNS_LABEL_LEN then Err(InvalidDnsLabel) else Ok(WriteName(name))
  }

  method EncodeWire(name: Name, out: Bytes) returns (r: Result<Bytes, ParseError>)
    ensures r == match EncodeName(name) case Err(e) => Err(e) case Ok(wire) => Ok(out + wire)
  {
    var buffer := out;
    assert name[0..] == name;
    for k := 0 to |name|
      invariant forall i :: 0 <= i < k ==> |name[i]| <= MAX_DNS_LABEL_LEN
      invariant out + WriteName(name) == buffer + WriteName(name[k..])
    {
      if |name[k]| > MAX_DNS_LABEL_LEN {
        return Err(InvalidDnsLabel);
      }
      assert name[k..][1..] == name[k + 1..];
      buffer := buffer + [|name[k]|] + name[k];
    }
    r := Ok(buffer + [0]);
  }

  lemma StoredLabelFits(part: Bytes)
    requires StoredLabel(part)
    ensures 0 < |part| < 0x40
  {
  }

  /** One written label is read, and the reader goes on behind it. */
  lemma ParseWrittenLabel(message: Bytes, at: nat, part: Bytes, jumps: nat, used: nat)
    requires jumps <= MAX_JUMPS && StoredLabel(part) && used + |part| + 1 <= MAX_DNS_NAME_LEN
    requires At(message, at, [|part|] + part)
    ensures ParseLabels(message, at, jumps, used) ==
            match ParseLabels(message, at + 1 + |part|, jumps, used + |part| + 1)
            case Err(e) => Err(e)
            case Ok((labels, after)) => Ok(([part] + labels, after))
  {
    hide IsValidLabel, Lowercase;
    var piece := [|part|] + part;
    assert message[at] == message[at..at + |piece|][0];
    assert message[at + 1..at + 1 + |part|] == message[at..at + |piece|][1..];
  }

  lemma NameUnfolds(name: Name)
    requires name != [] && |name[0]| < 0x40
    ensures WriteName(name) == [|name[0]|] + name[0] + WriteName(name[1..])
    ensures LabelsLen(name) == |name[0]| + 1 + LabelsLen(name[1..])
    ensures name == [name[0]] + name[1..]
  {
  }

  lemma ParseWrittenRoot(message: Bytes, at: nat, used: nat)
    requires At(message, at, WriteName([]))
    ensures ParseLabels(message, at, 0, used) == Ok(([], at + |WriteName([])|))
  {
    assert message[at] == message[at..at + 1][0];
  }

  lemma {:induction false} ParseWrittenLabels(message: Bytes, at: nat, name: Name, used: nat)
    requires forall i :: 0 <= i < |name| ==> StoredLabel(name[i])
    requires used + LabelsLen(name) <= MAX_DNS_NAME_LEN && At(message, at, WriteName(name))
    ensures ParseLabels(message, at, 0, used) == Ok((name, at + |WriteName(name)|))
    decreases |name|
  {
    hide *;
    if name == [] {
      ParseWrittenRoot(message, at, used);
    } else {
      var part, rest := name[0], name[1..];
      StoredLabelFits(part);
      NameUnfolds(name);
      AtSplit(message, at, [|part|] + part, WriteName(rest));
      ParseWrittenLabel(message, at, part, 0, used);
      ParseWrittenLabels(message, at + 1 + |part|, rest, used + |part| + 1);
    }
  }

  /** A valid name written anywhere in a message is read back, and the reader stops right behind it. */
  lemma ParseWrittenName(message: Bytes, at: nat, name: Name)
    requires ValidName(name) && At(message, at, WriteName(name))
    ensures ParseName(message, at) == Ok((name, at + |WriteName(name)|))
    ensures EncodeName(name) == Ok(WriteName(name))
  {
    ParseWrittenLabels(message, at, name, 0);
  }

  /** Every parsed name is valid, wherever its pointers led. */
  lemma ParsedNameIsValid(message: Bytes, offset: nat)
    requires ParseName(message, offset).Ok?
    ensures ValidName(ParseName(message, offset).value.0)
    ensures offset < ParseName(message, offset).value.1 <= |message|
  {
    ParsedLabelsAreValid(message, offset, 0, 0);
  }
}
