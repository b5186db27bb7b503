/**
 What the octets of a name look like: runs of labels, each behind its length,
 a run ended by a zero or by a pointer to the next run.
 */
module NameLayout {
  import opened Bytes
  import opened DnsName
  import opened DnsWire

  /** 1 to 63 octets, all of them digits, letters, hyphens or underscores; or a star alone. */
  ghost predicate RawLabel(part: Bytes) {
    && 1 <= |part| <= 63
    && (part == [42] ||
        forall i :: 0 <= i < |part| ==>
          part[i] in {45, 95} || 48 <= part[i] <= 57 || 65 <= part[i] <= 90 || 97 <= part[i] <= 122)
  }

  /** The octets 65 to 90, which are capital letters, raised by 32. */
  ghost predicate IsFolded(part: Bytes, label_: Bytes) {
    && |label_| == |part|
    && forall i :: 0 <= i < |part| ==>
         label_[i] as int == if 65 <= part[i] <= 90 then part[i] as int + 32 else part[i] as int
  }

  ghost predicate AreFolded(parts: seq<Bytes>, name: Name) {
    |name| == |parts| && forall i :: 0 <= i < |parts| ==> IsFolded(parts[i], name[i])
  }

  /** Labels one behind the other, each behind its length. */
  ghost function Laid(parts: seq<Bytes>): Bytes {
    if parts == [] then [] else [|parts[0]| % 256] + parts[0] + Laid(parts[1..])
  }

  /** A run of labels and where it stands. */
  datatype Run = Run(at: nat, parts: seq<Bytes>)

  ghost function EndOf(run: Run): nat {
    run.at + |Laid(run.parts)|
  }

  ghost predicate Stands(message: Bytes, run: Run) {
    && (forall part :: part in run.parts ==> RawLabel(part))
    && EndOf(run) <= |message| && message[run.at..EndOf(run)] == Laid(run.parts)
  }

  /** Two octets that point to `target`: 14 bits behind two set ones. */
  ghost predicate PointsTo(message: Bytes, at: nat, target: nat) {
    at + 1 < |message| && message[at] >= 192 &&
    (message[at] as int - 192) * 256 + message[at + 1] as int == target < |message|
  }

  /** Runs that lead from one to the next, the last of them ended by a zero. */
  ghost predicate IsPath(message: Bytes, path: seq<Run>) {
    && path != [] && Stands(message, path[0])
    && if |path| == 1 then EndOf(path[0]) < |message| && message[EndOf(path[0])] == 0
       else PointsTo(message, EndOf(path[0]), path[1].at) && IsPath(message, path[1..])
  }

  ghost function AllParts(path: seq<Run>): seq<Bytes> {
    if path == [] then [] else path[0].parts + AllParts(path[1..])
  }

  /** A name stands at `cursor`, by some path that leaves room for `jumps` pointers and `used` octets before it. */
  ghost predicate NameStands(message: Bytes, cursor: nat, jumps: nat, used: nat, path: seq<Run>, name: Name, end: nat) {
    && IsPath(message, path) && path[0].at == cursor
    && |path| + jumps <= 17 && used + |Laid(AllParts(path))| <= 253
    && AreFolded(AllParts(path), name)
    && end == EndOf(path[0]) + if |path| == 1 then 1 else 2
  }

  lemma RawLabelIff(part: Bytes)
    ensures RawLabel(part) <==> 0 < |part| <= 63 && IsValidLabel(part)
  {
  }

  lemma FoldedIff(part: Bytes, label_: Bytes)
    ensures IsFolded(part, label_) <==> label_ == Lowercase(part)
  {
  }

  lemma FoldedCons(part: Bytes, parts: seq<Bytes>, name: Name)
    ensures AreFolded([part] + parts, name) <==>
      name != [] && name[0] == Lowercase(part) && AreFolded(parts, name[1..])
  {
    hide IsFolded;
    if name != [] {
      FoldedIff(part, name[0]);
      if AreFolded([part] + parts, name) {
        assert forall i :: 0 <= i < |parts| ==> ([part] + parts)[i + 1] == parts[i] && name[i + 1] == name[1..][i];
      }
      if name[0] == Lowercase(part) && AreFolded(parts, name[1..]) {
        assert forall i :: 0 < i < |name| ==> ([part] + parts)[i] == parts[i - 1] && name[i] == name[1..][i - 1];
      }
    }
  }

  lemma LaidCons(first: Bytes, rest: seq<Bytes>)
    requires |first| < 256
    ensures Laid([first] + rest) == [|first|] + first + Laid(rest)
    ensures |Laid([first] + rest)| == 1 + |first| + |Laid(rest)|
  {
    assert ([first] + rest)[1..] == rest;
  }

  lemma AllPartsCons(first: Bytes, at: nat, run: Run, others: seq<Run>)
    ensures AllParts([Run(at, [first] + run.parts)] + others) == [first] + AllParts([run] + others)
  {
    var longer := [Run(at, [first] + run.parts)] + others;
    assert longer[1..] == others && ([run] + others)[1..] == others;
    assert [first] + run.parts + AllParts(others) == [first] + (run.parts + AllParts(others));
  }

  /** A run behind its first label. */
  lemma RunBehindLabel(message: Bytes, at: nat, first: Bytes, rest: seq<Bytes>)
    requires |first| < 64
    ensures Stands(message, Run(at, [first] + rest)) <==>
      && RawLabel(first) && at + 1 + |first| <= |message| && message[at] as int == |first|
      && message[at + 1..at + 1 + |first|] == first
      && Stands(message, Run(at + 1 + |first|, rest))
    ensures EndOf(Run(at, [first] + rest)) == EndOf(Run(at + 1 + |first|, rest))
  {
    hide RawLabel;
    var end := EndOf(Run(at, [first] + rest));
    LaidCons(first, rest);
    var middle := at + 1 + |first|;
    hide Laid;
    if end <= |message| {
      SliceInThree(message, at, middle, end, |first|, first, Laid(rest));
    }
    assert forall part :: part in [first] + rest <==> part == first || part in rest;
  }

  lemma SliceInThree(message: Bytes, at: nat, middle: nat, end: nat, length: byte, first: Bytes, rest: Bytes)
    requires middle == at + 1 + |first| && end == middle + |rest| <= |message|
    ensures message[at..end] == [length] + first + rest <==>
      message[at] == length && message[at + 1..middle] == first && message[middle..end] == rest
  {
    assert message[at..end] == [message[at]] + message[at + 1..middle] + message[middle..end];
    var whole := [length] + first + rest;
    if message[at..end] == whole {
      assert message[at] == message[at..end][0] == whole[0];
      assert message[at + 1..middle] == message[at..end][1..1 + |first|] == whole[1..1 + |first|];
      assert message[middle..end] == message[at..end][1 + |first|..] == whole[1 + |first|..];
    }
  }

  /** A path with a label in front is a path behind it. */
  lemma PathBehindLabel(message: Bytes, at: nat, first: Bytes, run: Run, others: seq<Run>)
    requires |first| < 64 && run.at == at + 1 + |first|
    ensures var path, longer := [run] + others, [Run(at, [first] + run.parts)] + others;
      && (IsPath(message, longer) <==>
            && RawLabel(first) && at + 1 + |first| <= |message| && message[at] as int == |first|
            && message[at + 1..at + 1 + |first|] == first && IsPath(message, path))
      && EndOf(longer[0]) == EndOf(path[0]) && AllParts(longer) == [first] + AllParts(path)
      && |Laid(AllParts(longer))| == 1 + |first| + |Laid(AllParts(path))|
  {
    RunBehindLabel(message, at, first, run.parts);
    AllPartsCons(first, at, run, others);
    LaidCons(first, AllParts([run] + others));
    assert run == Run(at + 1 + |first|, run.parts);
    var path, longer := [run] + others, [Run(at, [first] + run.parts)] + others;
    assert longer[1..] == path[1..] == others;
    hide Stands, EndOf, AllParts, Laid, RawLabel;
  }

  lemma NothingFolded(name: Name)
    ensures AreFolded([], name) <==> name == []
    ensures Laid([]) == []
  {
  }

  /** Whatever the parser reads stands there. */
  lemma {:induction false} ParsedStands(message: Bytes, cursor: nat, jumps: nat, used: nat) returns (path: seq<Run>)
    requires jumps <= MAX_JUMPS && used <= 253 && ParseLabels(message, cursor, jumps, used).Ok?
    ensures var (name, end) := ParseLabels(message, cursor, jumps, used).value;
      NameStands(message, cursor, jumps, used, path, name, end)
    decreases MAX_JUMPS - jumps, |message| - cursor
  {
    hide IsValidLabel, Lowercase, RawLabel, AreFolded, AllParts, IsPath;
    var (name, end) := ParseLabels(message, cursor, jumps, used).value;
    var length := message[cursor];
    if length >= 0xc0 {
      var target := (length as int - 0xc0) * 256 + message[cursor + 1] as int;
      var later := ParsedStands(message, target, jumps + 1, used);
      path := [Run(cursor, [])] + later;
      PointerBeforePath(message, cursor, later);
    } else if length == 0 {
      path := [Run(cursor, [])];
      RootStands(message, cursor);
    } else {
      var part := message[cursor + 1..cursor + 1 + length as int];
      RawLabelIff(part);
      var later := ParsedStands(message, cursor + 1 + |part|, jumps, used + |part| + 1);
      PathIsNotEmpty(message, later);
      assert later == [later[0]] + later[1..];
      PathBehindLabel(message, cursor, part, later[0], later[1..]);
      path := [Run(cursor, [part] + later[0].parts)] + later[1..];
      FoldedCons(part, AllParts(later), name);
      assert name[1..] == ParseLabels(message, cursor + 1 + |part|, jumps, used + |part| + 1).value.0;
    }
  }

  lemma PathIsNotEmpty(message: Bytes, path: seq<Run>)
    requires IsPath(message, path)
    ensures path != [] && Stands(message, path[0])
    ensures forall part :: part in path[0].parts ==> RawLabel(part)
  {
    hide RawLabel;
  }

  lemma OneLabel(message: Bytes, cursor: nat, jumps: nat, used: nat, part: Bytes)
    requires jumps <= MAX_JUMPS && RawLabel(part) && used + |part| + 1 <= 253
    requires cursor + 1 + |part| <= |message| && message[cursor] as int == |part|
    requires message[cursor + 1..cursor + 1 + |part|] == part
    ensures ParseLabels(message, cursor, jumps, used) ==
            match ParseLabels(message, cursor + 1 + |part|, jumps, used + |part| + 1)
            case Err(e) => Err(e)
            case Ok((labels, after)) => Ok(([Lowercase(part)] + labels, after))
  {
    RawLabelIff(part);
    hide IsValidLabel, Lowercase;
  }

  lemma OnePointer(message: Bytes, cursor: nat, jumps: nat, used: nat, target: nat)
    requires jumps < MAX_JUMPS && PointsTo(message, cursor, target)
    ensures ParseLabels(message, cursor, jumps, used) ==
            match ParseLabels(message, target, jumps + 1, used)
            case Err(e) => Err(e)
            case Ok((labels, after)) => Ok((labels, cursor + 2))
  {
    hide IsValidLabel, Lowercase;
  }

  lemma RootStands(message: Bytes, cursor: nat)
    requires cursor < |message| && message[cursor] == 0
    ensures IsPath(message, [Run(cursor, [])]) && EndOf(Run(cursor, [])) == cursor
    ensures AllParts([Run(cursor, [])]) == [] && AreFolded([], [])
  {
    assert AllParts([]) == [];
  }

  lemma PointerBeforePath(message: Bytes, cursor: nat, later: seq<Run>)
    requires IsPath(message, later) && PointsTo(message, cursor, later[0].at)
    ensures var path := [Run(cursor, [])] + later;
      IsPath(message, path) && EndOf(path[0]) == cursor && AllParts(path) == AllParts(later)
  {
    var path := [Run(cursor, [])] + later;
    assert path[1..] == later;
    assert [] + AllParts(later) == AllParts(later);
  }

  /** Whatever stands is read. */
  lemma {:induction false} StandingIsParsed(message: Bytes, cursor: nat, jumps: nat, used: nat, path: seq<Run>,
                                            name: Name, end: nat)
    requires jumps <= MAX_JUMPS && NameStands(message, cursor, jumps, used, path, name, end)
    ensures ParseLabels(message, cursor, jumps, used) == Ok((name, end))
    decreases |path|, |path[0].parts|
  {
    hide Lowercase, RawLabel, AreFolded, AllParts, Laid, Stands, PointsTo, ParseLabels;
    var run, others := path[0], path[1..];
    PathIsNotEmpty(message, path);
    if run.parts != [] {
      var first := run.parts[0];
      assert first in run.parts;
      RawLabelIff(first);
      var next := Run(cursor + 1 + |first|, run.parts[1..]);
      assert run.parts == [first] + next.parts && path == [run] + others;
      PathBehindLabel(message, cursor, first, next, others);
      FoldedCons(first, AllParts([next] + others), name);
      hide IsPath;
      StandingIsParsed(message, next.at, jumps, used + |first| + 1, [next] + others, name[1..], end);
      OneLabel(message, cursor, jumps, used, first);
      assert name == [name[0]] + name[1..];
    } else {
      EmptyRun(path);
      if |path| > 1 {
        var end' := EndOf(others[0]) + if |others| == 1 then 1 else 2;
        StandingIsParsed(message, others[0].at, jumps + 1, used, others, name, end');
        OnePointer(message, cursor, jumps, used, others[0].at);
      } else {
        NothingFolded(name);
        RootIsParsed(message, cursor, jumps, used);
      }
    }
  }

  lemma EmptyRun(path: seq<Run>)
    requires path != [] && path[0].parts == []
    ensures AllParts(path) == AllParts(path[1..]) && EndOf(path[0]) == path[0].at
    ensures |path| == 1 ==> AllParts(path) == []
  {
    assert [] + AllParts(path[1..]) == AllParts(path[1..]);
  }

  lemma RootIsParsed(message: Bytes, cursor: nat, jumps: nat, used: nat)
    requires jumps <= MAX_JUMPS && cursor < |message| && message[cursor] == 0
    ensures ParseLabels(message, cursor, jumps, used) == Ok(([], cursor + 1))
  {
  }

  /**
   A name is read exactly if it stands there: runs of labels, the first at the
   given place, linked by at most 16 pointers and ended by a zero; at most 253
   octets of labels with their lengths; capital letters turned small; and
   reading goes on behind the zero or the first pointer.
   */
  lemma NameIsReadIff(message: Bytes, at: nat, name: Name, end: nat)
    ensures ParseName(message, at) == Ok((name, end)) <==>
      exists path :: NameStands(message, at, 0, 0, path, name, end)
  {
    hide NameStands, ParseLabels;
    if ParseName(message, at) == Ok((name, end)) {
      var path := ParsedStands(message, at, 0, 0);
    }
    if path :| NameStands(message, at, 0, 0, path, name, end) {
      StandingIsParsed(message, at, 0, 0, path, name, end);
    }
  }

  /** A name written out is its labels laid out and a zero. */
  lemma {:induction false} WrittenIsLaid(name: Name)
    ensures WriteName(name) == Laid(name) + [0]
  {
    if name != [] { WrittenIsLaid(name[1..]); }
  }

  // --------------------------------------------------------------------- text

  ghost predicate AllSpaces(s: Bytes) {
    forall i :: 0 <= i < |s| ==> 9 <= s[i] <= 13 || s[i] == 32
  }

  ghost predicate AllDots(s: Bytes) {
    forall i :: 0 <= i < |s| ==> s[i] == 46
  }

  /** Labels with single dots between them; dots may follow; spaces may stand around it all. */
  ghost predicate TextStands(s: Bytes, front: Bytes, parts: seq<Bytes>, dots: Bytes, back: Bytes) {
    && s == front + Join(parts) + dots + back && AllSpaces(front) && AllDots(dots) && AllSpaces(back)
    && forall part :: part in parts ==> RawLabel(part)
  }

  lemma {:induction false} FrontIsTrimmed(s: Bytes) returns (front: Bytes)
    ensures s == front + TrimFront(s) && AllSpaces(front)
    ensures TrimFront(s) == [] || !IsSpace(TrimFront(s)[0])
  {
    front := [];
    if s != [] && IsSpace(s[0]) {
      var more := FrontIsTrimmed(s[1..]);
      front := [s[0]] + more;
      assert s == [s[0]] + s[1..];
    }
  }

  lemma TrimBackOne(s: Bytes)
    ensures s != [] && IsSpace(s[|s| - 1]) ==> TrimBack(s) == TrimBack(s[..|s| - 1])
    ensures s == [] || !IsSpace(s[|s| - 1]) ==> TrimBack(s) == s
  {
  }

  lemma {:induction false} BackIsTrimmed(s: Bytes) returns (back: Bytes)
    ensures s == TrimBack(s) + back && AllSpaces(back)
    ensures TrimBack(s) == [] || !IsSpace(TrimBack(s)[|TrimBack(s)| - 1])
  {
    hide TrimBack;
    TrimBackOne(s);
    back := [];
    if s != [] && IsSpace(s[|s| - 1]) {
      var more := BackIsTrimmed(s[..|s| - 1]);
      back := more + [s[|s| - 1]];
      SpaceBehind(s, TrimBack(s), more);
    }
  }

  lemma SpaceBehind(s: Bytes, trimmed: Bytes, more: Bytes)
    requires s != [] && s[..|s| - 1] == trimmed + more
    ensures s == trimmed + (more + [s[|s| - 1]])
  {
    assert s == s[..|s| - 1] + [s[|s| - 1]];
  }

  lemma {:induction false} DotsAreTrimmed(s: Bytes) returns (dots: Bytes)
    ensures s == TrimDots(s) + dots && AllDots(dots)
  {
    dots := [];
    if s != [] && s[|s| - 1] == DOT {
      var more := DotsAreTrimmed(s[..|s| - 1]);
      dots := more + [DOT];
      assert s == s[..|s| - 1] + [DOT];
    }
  }

  lemma {:induction false} TrimsFront(front: Bytes, s: Bytes)
    requires AllSpaces(front) && (s == [] || !IsSpace(s[0]))
    ensures TrimFront(front + s) == s
    decreases |front|
  {
    if front == [] {
      assert front + s == s;
    } else {
      assert (front + s)[1..] == front[1..] + s;
      TrimsFront(front[1..], s);
    }
  }

  lemma {:induction false} TrimsBack(s: Bytes, back: Bytes)
    requires AllSpaces(back) && (s == [] || !IsSpace(s[|s| - 1]))
    ensures TrimBack(s + back) == s
    decreases |back|
  {
    if back == [] {
      assert s + back == s;
    } else {
      assert (s + back)[..|s + back| - 1] == s + back[..|back| - 1];
      TrimsBack(s, back[..|back| - 1]);
    }
  }

  lemma {:induction false} TrimsDots(s: Bytes, dots: Bytes)
    requires AllDots(dots) && (s == [] || s[|s| - 1] != DOT)
    ensures TrimDots(s + dots) == s
    decreases |dots|
  {
    if dots == [] {
      assert s + dots == s;
    } else {
      assert (s + dots)[..|s + dots| - 1] == s + dots[..|dots| - 1];
      TrimsDots(s, dots[..|dots| - 1]);
    }
  }

  lemma {:induction false} JoinOfSplit(s: Bytes)
    ensures Join(Split(s)) == s
  {
    if s != [] {
      var rest := Split(s[1..]);
      JoinOfSplit(s[1..]);
      if s[0] == DOT {
        var pieces := [[]] + rest;
        assert pieces[1..] == rest && [] + [DOT] + Join(rest) == [DOT] + Join(rest);
      } else {
        var pieces := [[s[0]] + rest[0]] + rest[1..];
        assert pieces[1..] == rest[1..];
        if |rest| > 1 {
          assert [s[0]] + rest[0] + [DOT] + Join(rest[1..]) == [s[0]] + (rest[0] + [DOT] + Join(rest[1..]));
        }
      }
      assert s == [s[0]] + s[1..];
    }
  }

  lemma {:induction false} CheckLabelsIff(pieces: seq<Bytes>, labels: Name)
    ensures CheckLabels(pieces) == Some(labels) <==>
      (forall part :: part in pieces ==> RawLabel(part)) && AreFolded(pieces, labels)
  {
    hide RawLabel, IsFolded, AreFolded, Lowercase;
    if pieces == [] {
      NothingFolded(labels);
    } else {
      var first, rest := pieces[0], pieces[1..];
      assert pieces == [first] + rest;
      RawLabelIff(first);
      FoldedCons(first, rest, labels);
      if CheckLabels(rest).Some? {
        CheckLabelsIff(rest, CheckLabels(rest).value);
      }
      if labels != [] {
        CheckLabelsIff(rest, labels[1..]);
        assert labels == [labels[0]] + labels[1..];
      }
    }
  }

  lemma {:induction false} LaidLength(labels: Name)
    ensures |Laid(labels)| == LabelsLen(labels)
  {
    if labels != [] { LaidLength(labels[1..]); }
  }

  lemma {:induction false} FoldedLength(parts: seq<Bytes>, name: Name)
    requires AreFolded(parts, name)
    ensures |Laid(parts)| == |Laid(name)|
  {
    hide IsFolded, Lowercase;
    if parts == [] {
      NothingFolded(name);
    } else {
      assert parts == [parts[0]] + parts[1..];
      FoldedCons(parts[0], parts[1..], name);
      FoldedLength(parts[1..], name[1..]);
    }
  }

  lemma PartOctets(part: Bytes)
    requires RawLabel(part)
    ensures DOT !in part && !IsSpace(part[0]) && !IsSpace(part[|part| - 1]) && part[|part| - 1] != DOT
  {
  }

  lemma {:induction false} JoinedEnds(parts: seq<Bytes>)
    requires parts != [] && forall part :: part in parts ==> RawLabel(part)
    ensures var s := Join(parts);
      s != [] && !IsSpace(s[0]) && !IsSpace(s[|s| - 1]) && s[|s| - 1] != DOT
  {
    assert parts[0] in parts;
    PartOctets(parts[0]);
    hide RawLabel;
    if |parts| > 1 {
      JoinedEnds(parts[1..]);
      var s, later := Join(parts), Join(parts[1..]);
      assert s == parts[0] + [DOT] + later && s[|s| - 1] == later[|later| - 1];
    }
  }

  lemma TextIsTrimmed(s: Bytes, front: Bytes, parts: seq<Bytes>, dots: Bytes, back: Bytes)
    requires TextStands(s, front, parts, dots, back)
    ensures TrimDots(TrimBack(TrimFront(s))) == Join(parts)
  {
    hide RawLabel;
    var core := Join(parts) + dots;
    if parts != [] { JoinedEnds(parts); }
    assert core == [] || (!IsSpace(core[0]) && !IsSpace(core[|core| - 1]));
    TrimsDots(Join(parts), dots);
    hide Join;
    if core == [] {
      NothingButSpaces(s);
    } else {
      assert s == front + (core + back);
      TrimsFront(front, core + back);
      TrimsBack(core, back);
    }
  }

  lemma {:induction false} NothingButSpaces(s: Bytes)
    requires AllSpaces(s)
    ensures TrimFront(s) == []
  {
    if s != [] { NothingButSpaces(s[1..]); }
  }

  lemma SplitOfJoined(parts: seq<Bytes>)
    requires parts != [] && forall part :: part in parts ==> RawLabel(part)
    ensures Split(Join(parts)) == parts
  {
    forall i | 0 <= i < |parts| ensures DOT !in parts[i] { PartOctets(parts[i]); }
    SplitJoined(parts);
  }

  lemma TextFound(s: Bytes) returns (front: Bytes, dots: Bytes, back: Bytes)
    ensures s == front + TrimDots(TrimBack(TrimFront(s))) + dots + back
    ensures AllSpaces(front) && AllDots(dots) && AllSpaces(back)
  {
    front := FrontIsTrimmed(s);
    back := BackIsTrimmed(TrimFront(s));
    dots := DotsAreTrimmed(TrimBack(TrimFront(s)));
    var core := TrimDots(TrimBack(TrimFront(s)));
    hide TrimFront, TrimBack, TrimDots;
    assert front + (core + dots + back) == front + core + dots + back;
  }

  /** A name is read from text exactly if it stands there: labels joined by dots, capital letters turned small, at most
      253 octets of labels with their lengths. */
  lemma TextIsReadIff(s: Bytes, name: Name)
    ensures FromAscii(s) == Ok(name) <==>
      exists front, parts, dots, back ::
        TextStands(s, front, parts, dots, back) && |Laid(parts)| <= 253 && AreFolded(parts, name)
  {
    hide AreFolded, RawLabel, TrimDots, TrimBack, TrimFront, CheckLabels, Split, Join, Laid;
    var core := TrimDots(TrimBack(TrimFront(s)));
    if FromAscii(s) == Ok(name) {
      var front, dots, back := TextFound(s);
      var parts := if core == [] then [] else Split(core);
      if core == [] {
        JoinNone();
        NothingFolded([]);
      } else {
        CheckLabelsIff(parts, name);
        JoinOfSplit(core);
        LaidLength(name);
        FoldedLength(parts, name);
      }
      assert TextStands(s, front, parts, dots, back);
    }
    if front, parts, dots, back :|
      TextStands(s, front, parts, dots, back) && |Laid(parts)| <= 253 && AreFolded(parts, name)
    {
      TextIsTrimmed(s, front, parts, dots, back);
      if parts == [] {
        JoinNone();
        NothingFolded(name);
      } else {
        JoinedEnds(parts);
        SplitOfJoined(parts);
        CheckLabelsIff(parts, name);
        LaidLength(name);
        FoldedLength(parts, name);
      }
    }
  }

  /** A text is too long exactly if labels stand there that are, and no name at all exactly if no labels stand there. */
  lemma TextFailsIff(s: Bytes)
    ensures FromAscii(s) == Err(LengthLimit) <==>
      exists front, parts, dots, back :: TextStands(s, front, parts, dots, back) && |Laid(parts)| > 253
    ensures FromAscii(s) == Err(InvalidDnsLabel) <==>
      forall front, parts, dots, back :: !TextStands(s, front, parts, dots, back)
  {
    hide AreFolded, RawLabel, TrimDots, TrimBack, TrimFront, CheckLabels, Split, Join, Laid;
    var core := TrimDots(TrimBack(TrimFront(s)));
    var pieces := if core == [] then [] else Split(core);
    if core == [] || CheckLabels(pieces).Some? {
      var labels := if core == [] then [] else CheckLabels(pieces).value;
      var front, dots, back := TextFound(s);
      if core == [] {
        JoinNone();
        NothingFolded([]);
      } else {
        CheckLabelsIff(pieces, labels);
        JoinOfSplit(core);
        LaidLength(labels);
        FoldedLength(pieces, labels);
      }
      assert TextStands(s, front, pieces, dots, back);
    }
    forall front, parts, dots, back | TextStands(s, front, parts, dots, back)
      ensures if |Laid(parts)| > 253 then FromAscii(s) == Err(LengthLimit) else FromAscii(s).Ok?
    {
      TextDecides(s, front, parts, dots, back);
    }
  }

  lemma TextDecides(s: Bytes, front: Bytes, parts: seq<Bytes>, dots: Bytes, back: Bytes)
    requires TextStands(s, front, parts, dots, back)
    ensures if |Laid(parts)| > 253 then FromAscii(s) == Err(LengthLimit) else FromAscii(s).Ok?
  {
    hide RawLabel, TrimDots, TrimBack, TrimFront, CheckLabels, Split, Join, Laid;
    var small: Name := seq(|parts|, i requires 0 <= i < |parts| => Lowercase(parts[i]));
    forall i | 0 <= i < |parts| ensures IsFolded(parts[i], small[i]) { FoldedIff(parts[i], small[i]); }
    assert AreFolded(parts, small);
    hide AreFolded, IsFolded, Lowercase;
    TextIsTrimmed(s, front, parts, dots, back);
    if parts == [] {
      JoinNone();
      NothingFolded(small);
    } else {
      JoinedEnds(parts);
      SplitOfJoined(parts);
      CheckLabelsIff(parts, small);
      LaidLength(small);
      FoldedLength(parts, small);
    }
  }
}
