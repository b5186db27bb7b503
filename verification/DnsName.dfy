/** Domain names as lists of labels: their text form, their canonical order, and who sits under whom. */
module DnsName {
  import opened Bytes
  import opened Order

  const MAX_DNS_NAME_LEN: nat := 253
  const MAX_DNS_LABEL_LEN: nat := 63

  const DOT: byte := 46
  const STAR: byte := 42

  type Name = seq<Bytes>

  predicate IsLabelOctet(b: byte) {
    48 <= b <= 57 || 65 <= b <= 90 || 97 <= b <= 122 || b == 45 || b == 95
  }

  predicate IsValidLabel(part: Bytes) {
    part == [STAR] || forall i :: 0 <= i < |part| ==> IsLabelOctet(part[i])
  }

  function Lowercase(part: Bytes): (lower: Bytes)
    ensures |lower| == |part|
    ensures forall i :: 0 <= i < |part| ==> lower[i] == LowerOctet(part[i])
  {
    if part == [] then [] else [LowerOctet(part[0])] + Lowercase(part[1..])
  }

  function LowerOctet(b: byte): byte {
    if 65 <= b <= 90 then b + 32 else b
  }

  /** Octets the labels take on the wire, without the root label. */
  function LabelsLen(labels: Name): nat {
    if labels == [] then 0 else |labels[0]| + 1 + LabelsLen(labels[1..])
  }

  /** A label as names hold it: not empty, short enough, of the allowed octets, in lower case. */
  ghost predicate StoredLabel(part: Bytes) {
    0 < |part| <= MAX_DNS_LABEL_LEN && IsValidLabel(part) && Lowercase(part) == part
  }

  /** What every parsed name is. */
  ghost predicate ValidName(name: Name) {
    (forall i :: 0 <= i < |name| ==> StoredLabel(name[i])) && LabelsLen(name) <= MAX_DNS_NAME_LEN
  }

  // ------------------------------------------------------------------ as text

  predicate IsSpace(b: byte) { 9 <= b <= 13 || b == 32 }

  function TrimFront(s: Bytes): Bytes {
    if s != [] && IsSpace(s[0]) then TrimFront(s[1..]) else s
  }

  function TrimBack(s: Bytes): Bytes {
    if s != [] && IsSpace(s[|s| - 1]) then TrimBack(s[..|s| - 1]) else s
  }

  function TrimDots(s: Bytes): Bytes {
    if s != [] && s[|s| - 1] == DOT then TrimDots(s[..|s| - 1]) else s
  }

  /** The pieces of `s` between dots. */
  function Split(s: Bytes): (pieces: seq<Bytes>)
    ensures pieces != []
  {
    if s == [] then [[]]
    else
      var rest := Split(s[1..]);
      if s[0] == DOT then [[]] + rest else [[s[0]] + rest[0]] + rest[1..]
  }

  function Join(labels: Name): Bytes {
    if labels == [] then []
    else if |labels| == 1 then labels[0]
    else labels[0] + [DOT] + Join(labels[1..])
  }

  /** The labels, lower-cased, unless one is empty, too long or holds a foreign octet. */
  function CheckLabels(pieces: seq<Bytes>): Option<Name> {
    if pieces == [] then Some([])
    else if pieces[0] == [] || |pieces[0]| > MAX_DNS_LABEL_LEN || !IsValidLabel(pieces[0]) then None
    else
      match CheckLabels(pieces[1..])
      case None => None
      case Some(rest) => Some([Lowercase(pieces[0])] + rest)
  }

  function FromAscii(s: Bytes): Result<Name, ParseError> {
    var trimmed := TrimDots(TrimBack(TrimFront(s)));
    if trimmed == [] then Ok([])
    else
      match CheckLabels(Split(trimmed))
      case None => Err(InvalidDnsLabel)
      case Some(labels) => if LabelsLen(labels) + 1 > MAX_DNS_NAME_LEN + 1 then Err(LengthLimit) else Ok(labels)
  }

  lemma {:induction false} SplitPiece(part: Bytes, rest: Bytes)
    requires DOT !in part
    ensures Split(part + [DOT] + rest) == [part] + Split(rest)
    ensures Split(part) == [part]
  {
    var s := part + [DOT] + rest;
    if part == [] {
      assert s == [DOT] + rest && s[1..] == rest;
    } else {
      SplitPiece(part[1..], rest);
      assert s[1..] == part[1..] + [DOT] + rest;
      assert part == [part[0]] + part[1..];
    }
  }

  lemma {:induction false} SplitJoined(labels: Name)
    requires labels != [] && forall i :: 0 <= i < |labels| ==> DOT !in labels[i]
    ensures Split(Join(labels)) == labels
  {
    SplitPiece(labels[0], if |labels| == 1 then [] else Join(labels[1..]));
    if |labels| > 1 { SplitJoined(labels[1..]); }
  }

  lemma {:induction false} CheckStoredLabels(labels: Name)
    requires forall i :: 0 <= i < |labels| ==> StoredLabel(labels[i])
    ensures CheckLabels(labels) == Some(labels)
  {
    if labels != [] {
      CheckStoredLabels(labels[1..]);
      assert StoredLabel(labels[0]) && labels == [labels[0]] + labels[1..];
    }
  }

  lemma StoredLabelOctets(part: Bytes)
    requires StoredLabel(part)
    ensures DOT !in part && !IsSpace(part[0]) && !IsSpace(part[|part| - 1]) && part[|part| - 1] != DOT
  {
  }

  /** Nothing of `s` is trimmed. */
  predicate Trimmed(s: Bytes) {
    s != [] && !IsSpace(s[0]) && !IsSpace(s[|s| - 1]) && s[|s| - 1] != DOT
  }

  lemma {:induction false} JoinTrimmed(labels: Name)
    requires labels != [] && forall i :: 0 <= i < |labels| ==> StoredLabel(labels[i])
    ensures Trimmed(Join(labels))
  {
    StoredLabelOctets(labels[0]);
    if |labels| > 1 { JoinTrimmed(labels[1..]); }
  }

  lemma TrimmedStays(s: Bytes)
    requires Trimmed(s)
    ensures TrimDots(TrimBack(TrimFront(s))) == s
  {
  }

  /** Writing stored labels as text and reading them back gives the labels, if they are short enough for a name. */
  lemma FromAsciiJoined(labels: Name)
    requires forall i :: 0 <= i < |labels| ==> StoredLabel(labels[i])
    ensures FromAscii(Join(labels)) == if LabelsLen(labels) > MAX_DNS_NAME_LEN then Err(LengthLimit) else Ok(labels)
  {
    hide StoredLabel, Split, Join, CheckLabels, TrimDots, TrimBack, TrimFront;
    if labels != [] {
      forall i | 0 <= i < |labels| ensures DOT !in labels[i] { StoredLabelOctets(labels[i]); }
      JoinTrimmed(labels);
      TrimmedStays(Join(labels));
      SplitJoined(labels);
      CheckStoredLabels(labels);
    } else {
      JoinNone();
    }
  }

  lemma JoinNone()
    ensures Join([]) == [] && FromAscii([]) == Ok([]) && LabelsLen([]) == 0
  {
  }

  /** Reading text: trim it, cut it at the dots, and check label after label. */
  method ParseAscii(s: Bytes) returns (r: Result<Name, ParseError>)
    ensures r == FromAscii(s)
  {
    var trimmed := TrimDots(TrimBack(TrimFront(s)));
    if trimmed == [] {
      return Ok([]);
    }
    var pieces := Split(trimmed);
    var labels: Name := [];
    assert pieces[0..] == pieces;
    assert forall rest: Name :: [] + rest == rest;
    for k := 0 to |pieces|
      invariant CheckLabels(pieces) == Prefixed(labels, CheckLabels(pieces[k..]))
    {
      var part := pieces[k];
      assert pieces[k..][0] == part && pieces[k..][1..] == pieces[k + 1..];
      if part == [] || |part| > MAX_DNS_LABEL_LEN || !IsValidLabel(part) {
        return Err(InvalidDnsLabel);
      }
      PrefixedSnoc(labels, Lowercase(part), CheckLabels(pieces[k + 1..]));
      labels := labels + [Lowercase(part)];
    }
    assert pieces[|pieces|..] == [] && labels + [] == labels;
    if LabelsLen(labels) + 1 > MAX_DNS_NAME_LEN + 1 {
      return Err(LengthLimit);
    }
    r := Ok(labels);
  }

  function Prefixed(done: Name, rest: Option<Name>): Option<Name> {
    if rest.None? then None else Some(done + rest.value)
  }

  lemma PrefixedSnoc(done: Name, part: Bytes, rest: Option<Name>)
    ensures Prefixed(done, Prefixed([part], rest)) == Prefixed(done + [part], rest)
  {
    if rest.Some? { assert done + ([part] + rest.value) == done + [part] + rest.value; }
  }

  // ---------------------------------------------------------- order and descent

  /** Canonical order: labels compared from the root down. */
  method CanonicalCompare(left: Name, right: Name) returns (r: Ordering)
    ensures r == CompareFromEnd(left, right)
  {
    var i := 0;
    assert left[..|left|] == left && right[..|right|] == right;
    while true
      invariant i <= |left| && i <= |right|
      invariant CompareFromEnd(left, right) == CompareFromEnd(left[..|left| - i], right[..|right| - i])
      decreases |left| - i
    {
      if i < |left| && i < |right| {
        var ordering := CompareBytes(left[|left| - 1 - i], right[|right| - 1 - i]);
        if ordering != Equal {
          return ordering;
        }
        assert left[..|left| - i][..|left| - i - 1] == left[..|left| - (i + 1)];
        assert right[..|right| - i][..|right| - i - 1] == right[..|right| - (i + 1)];
        i := i + 1;
      } else if i < |right| {
        return Less;
      } else if i < |left| {
        return Greater;
      } else {
        return Equal;
      }
    }
  }

  predicate IsSubdomainOrEqual(name: Name, parent: Name) {
    |name| >= |parent| && name[|name| - |parent|..] == parent
  }

  predicate IsStrictSubdomain(name: Name, parent: Name) {
    |name| > |parent| && name[|name| - |parent|..] == parent
  }

  /** A name comes before everything below it. */
  lemma {:induction false} AncestorsFirst(name: Name, parent: Name)
    requires IsStrictSubdomain(name, parent)
    ensures CompareFromEnd(parent, name) == Less
    decreases |parent|
  {
    if parent != [] {
      CompareBytesFlip(parent[|parent| - 1], name[|name| - 1]);
      AncestorsFirst(name[..|name| - 1], parent[..|parent| - 1]);
    }
  }

  lemma SubdomainTransitive(a: Name, b: Name, c: Name)
    requires IsSubdomainOrEqual(a, b) && IsSubdomainOrEqual(b, c)
    ensures IsSubdomainOrEqual(a, c)
  {
    assert a[|a| - |c|..] == a[|a| - |b|..][|b| - |c|..];
  }

  /** Two ancestors of one name: the longer one lies below the shorter. */
  lemma AncestorsNest(name: Name, a: Name, b: Name)
    requires IsSubdomainOrEqual(name, a) && IsSubdomainOrEqual(name, b) && |a| >= |b|
    ensures IsSubdomainOrEqual(a, b)
  {
    assert a[|a| - |b|..] == name[|name| - |a|..][|a| - |b|..] == name[|name| - |b|..];
  }

  lemma {:induction false} SuffixLen(labels: Name, k: nat)
    requires k <= |labels|
    ensures LabelsLen(labels[k..]) <= LabelsLen(labels)
  {
    if k > 0 {
      SuffixLen(labels[1..], k - 1);
      assert labels[1..][k - 1..] == labels[k..];
    } else {
      assert labels[0..] == labels;
    }
  }

  /** Every ancestor of a valid name is valid, and survives being written as text. */
  lemma SuffixIsName(name: Name, k: nat)
    requires ValidName(name) && k <= |name|
    ensures ValidName(name[k..]) && FromAscii(Join(name[k..])) == Ok(name[k..])
  {
    SuffixLen(name, k);
    FromAsciiJoined(name[k..]);
  }
}
