/** Where everything stands in a name-tree proof on the wire, in octets. */
module ProofLayout {
  import opened Bytes
  import opened Urkel
  import opened UrkelWire

  /** A size below 128 in one octet; a larger one in two, the high one first and its top bit set; then the bits, eight
      to an octet. */
  ghost predicate PrefixStands(s: Bytes, at: nat, prefix: BitPrefix, end: nat) {
    at < |s| && end <= |s| &&
    if s[at] < 128 then
      prefix.size == s[at] as int && end == at + 1 + (prefix.size + 7) / 8 && prefix.data == s[at + 1..end]
    else
      at + 1 < |s| && prefix.size == (s[at] as int - 128) * 256 + s[at + 1] as int && prefix.size >= 128
      && end == at + 2 + (prefix.size + 7) / 8 && prefix.data == s[at + 2..end]
  }

  /** A hash, and in front of it, if the node is marked, a prefix of 1 to 256 bits. */
  ghost predicate NodeStands(s: Bytes, at: nat, marked: bool, node: ProofNode, end: nat) {
    end >= 32 && end <= |s| && node.hash == s[end - 32..end] &&
    if marked then 1 <= node.prefix.size <= 256 && PrefixStands(s, at, node.prefix, end - 32)
    else node.prefix == BitPrefix(0, []) && end == at + 32
  }

  /** Nodes from number `index` on, the marked ones having their bit set. */
  ghost predicate NodesStand(s: Bytes, at: nat, bitmap: Bytes, index: nat, nodes: seq<ProofNode>, end: nat)
    decreases |nodes|
  {
    if nodes == [] then at == end
    else
      exists next: nat ::
        && NodeStands(s, at, BitSet(bitmap, index), nodes[0], next)
        && NodesStand(s, next, bitmap, index + 1, nodes[1..], end)
  }

  /** What ends the proof, by its type. */
  ghost predicate BodyStands(s: Bytes, at: nat, proofType: byte, body: ProofBody) {
    at <= |s| &&
    match body
    case Deadend => proofType == 0 && at == |s|
    case Short(prefix, left, right) =>
      && proofType == 1 && at + 64 <= |s| && 1 <= prefix.size <= 256 && PrefixStands(s, at, prefix, |s| - 64)
      && left == s[|s| - 64..|s| - 32] && right == s[|s| - 32..]
    case Collision(key, valueHash) =>
      proofType == 2 && at + 64 == |s| && key == s[at..at + 32] && valueHash == s[at + 32..]
    case Exists(value) =>
      proofType == 3 && at + 2 <= |s| && |value| == s[at] as int + 256 * s[at + 1] as int && value == s[at + 2..]
  }

  /** At most 256 KiB: type and depth, the number of nodes, a bit for each of them, the nodes, the body. */
  ghost predicate ProofStands(s: Bytes, p: UrkelProof) {
    && 4 <= |s| <= 262_144
    && s[0] as int + 256 * s[1] as int == p.proofType as int * 16_384 + p.depth && p.depth <= 256
    && s[2] as int + 256 * s[3] as int == |p.nodes| <= 256
    && var marks := (|p.nodes| + 7) / 8;
       && 4 + marks <= |s|
       && exists end: nat ::
            && NodesStand(s, 4 + marks, s[4..4 + marks], 0, p.nodes, end)
            && BodyStands(s, end, p.proofType, p.body)
  }

  lemma Slices(s: Bytes, at: nat, i: nat, j: nat)
    requires at <= |s| && i <= j <= |s| - at
    ensures s[at..][i..j] == s[at + i..at + j] && s[at..][j..] == s[at + j..]
  {
  }

  lemma PrefixIff(s: Bytes, at: nat, prefix: BitPrefix, end: nat)
    requires at <= |s| && end <= |s|
    ensures ParsePrefix(s[at..]) == Some((prefix, s[end..])) <==> PrefixStands(s, at, prefix, end)
  {
    var rest := s[at..];
    if rest != [] {
      var wide := s[at] >= 128;
      if !wide || |rest| >= 2 {
        var size := if wide then (s[at] as int - 128) * 256 + s[at + 1] as int else s[at] as int;
        var start := if wide then 2 else 1;
        var n := (size + 7) / 8;
        if start + n <= |rest| {
          Slices(s, at, start, start + n);
          assert s[at + start + n..] == s[end..] ==> |s[at + start + n..]| == |s[end..]|;
        }
      }
    }
  }

  lemma NodeIff(s: Bytes, at: nat, marked: bool, node: ProofNode, end: nat)
    requires at <= |s| && end <= |s|
    ensures ParseNode(marked, s[at..]) == Some((node, s[end..])) <==> NodeStands(s, at, marked, node, end)
  {
    hide ParsePrefix, PrefixStands;
    var rest := s[at..];
    if marked {
      if end >= 32 {
        PrefixIff(s, at, node.prefix, end - 32);
        HashThere(s, end - 32);
      }
      if ParsePrefix(rest).Some? {
        var (prefix, later) := ParsePrefix(rest).value;
        var middle := PrefixRest(s, at);
        HashThere(s, middle);
        SameRest(s, middle + 32, end);
      }
    } else {
      HashThere(s, at);
      if at + 32 <= |s| { SameRest(s, at + 32, end); }
    }
  }

  lemma SameRest(s: Bytes, a: nat, b: nat)
    requires b <= |s|
    ensures a <= |s| && s[a..] == s[b..] ==> a == b
  {
    if a <= |s| && s[a..] == s[b..] { assert |s[a..]| == |s[b..]|; }
  }

  lemma HashThere(s: Bytes, at: nat)
    requires at <= |s|
    ensures ParseHash(s[at..]) == if at + 32 > |s| then None else Some((s[at..at + 32], s[at + 32..]))
  {
    if at + 32 <= |s| { Slices(s, at, 0, 32); }
  }

  lemma PrefixRest(s: Bytes, at: nat) returns (end: nat)
    requires at <= |s| && ParsePrefix(s[at..]).Some?
    ensures at < end <= |s| && ParsePrefix(s[at..]).value.1 == s[end..]
  {
    var rest := ParsePrefix(s[at..]).value.1;
    end := |s| - |rest|;
    Slices(s, at, end - at, |s| - at);
  }

  lemma NodeRest(s: Bytes, at: nat, marked: bool) returns (end: nat)
    requires at <= |s| && ParseNode(marked, s[at..]).Some?
    ensures at < end <= |s| && ParseNode(marked, s[at..]).value.1 == s[end..]
  {
    hide ParsePrefix;
    if marked {
      var middle := PrefixRest(s, at);
      HashThere(s, middle);
      end := middle + 32;
    } else {
      HashThere(s, at);
      end := at + 32;
    }
  }

  lemma {:induction false} NodesIff(s: Bytes, at: nat, bitmap: Bytes, index: nat, nodes: seq<ProofNode>, end: nat)
    requires at <= |s| && end <= |s|
    ensures ParseNodes(bitmap, index, index + |nodes|, s[at..]) == Some((nodes, s[end..])) <==>
            NodesStand(s, at, bitmap, index, nodes, end)
    decreases |nodes|
  {
    hide ParseNode, NodeStands, HasBit, BitSet;
    BitsAreNumbered(bitmap, index);
    if nodes == [] {
      SameRest(s, at, end);
    } else {
      var marked := HasBit(bitmap, index);
      if ParseNode(marked, s[at..]).Some? {
        var next := NodeRest(s, at, marked);
        NodeIff(s, at, marked, ParseNode(marked, s[at..]).value.0, next);
        NodesIff(s, next, bitmap, index + 1, nodes[1..], end);
        assert nodes == [nodes[0]] + nodes[1..];
      }
      if NodesStand(s, at, bitmap, index, nodes, end) {
        var next: nat :| NodeStands(s, at, BitSet(bitmap, index), nodes[0], next) &&
                         NodesStand(s, next, bitmap, index + 1, nodes[1..], end);
        NodeEnds(s, at, BitSet(bitmap, index), nodes[0], next);
        NodeIff(s, at, marked, nodes[0], next);
        NodesIff(s, next, bitmap, index + 1, nodes[1..], end);
        assert nodes == [nodes[0]] + nodes[1..];
      }
    }
  }

  lemma NodeEnds(s: Bytes, at: nat, marked: bool, node: ProofNode, end: nat)
    requires NodeStands(s, at, marked, node, end)
    ensures end <= |s|
  {
  }

  lemma BodyIff(s: Bytes, at: nat, proofType: byte, body: ProofBody)
    requires at <= |s|
    ensures ParseBody(proofType, s[at..]) == Some(body) <==> BodyStands(s, at, proofType, body)
  {
    hide ParsePrefix, PrefixStands;
    var rest := s[at..];
    if proofType == TYPE_SHORT {
      ShortIff(s, at, body);
    } else if proofType == TYPE_COLLISION {
      if |rest| == 64 { Slices(s, at, 0, 32); }
    } else if proofType == TYPE_EXISTS {
      if |rest| >= 2 { Slices(s, at, 2, |rest|); }
    }
  }

  lemma ShortIff(s: Bytes, at: nat, body: ProofBody)
    requires at <= |s|
    ensures ParseBody(TYPE_SHORT, s[at..]) == Some(body) <==> BodyStands(s, at, TYPE_SHORT, body)
  {
    hide ParsePrefix, PrefixStands;
    if ParsePrefix(s[at..]).Some? {
      var prefix := ParsePrefix(s[at..]).value.0;
      var middle := PrefixRest(s, at);
      PrefixIff(s, at, prefix, middle);
      if middle + 64 == |s| { Slices(s, middle, 0, 32); Slices(s, middle, 32, 64); }
    }
    if body.Short? && |s| >= 64 && PrefixStands(s, at, body.prefix, |s| - 64) {
      PrefixIff(s, at, body.prefix, |s| - 64);
      Slices(s, |s| - 64, 0, 32);
      Slices(s, |s| - 64, 32, 64);
    }
  }

  /** A proof is decoded exactly if it stands there, whole. */
  lemma ProofIff(s: Bytes, p: UrkelProof)
    ensures Parse(s) == Ok(p) <==> ProofStands(s, p)
    ensures Parse(s).Err? ==> Parse(s).error == if |s| > 262_144 then TooLarge else Malformed
  {
    hide ParseNodes, ParseBody, NodesStand, BodyStands;
    if |s| >= 4 {
      var count := s[2] as int + 256 * s[3] as int;
      var marks := (count + 7) / 8;
      if 4 + marks <= |s| {
        var bitmap := s[4..4 + marks];
        if Parse(s) == Ok(p) {
          var end := NodesRest(s, 4 + marks, bitmap, 0, count);
          NodesIff(s, 4 + marks, bitmap, 0, p.nodes, end);
          BodyIff(s, end, p.proofType, p.body);
        }
        if ProofStands(s, p) {
          var end: nat :| NodesStand(s, 4 + marks, bitmap, 0, p.nodes, end) && BodyStands(s, end, p.proofType, p.body);
          BodyEnds(s, end, p.proofType, p.body);
          NodesIff(s, 4 + marks, bitmap, 0, p.nodes, end);
          BodyIff(s, end, p.proofType, p.body);
        }
      }
    }
  }

  lemma BodyEnds(s: Bytes, at: nat, proofType: byte, body: ProofBody)
    requires BodyStands(s, at, proofType, body)
    ensures at <= |s|
  {
  }

  lemma {:induction false} NodesRest(s: Bytes, at: nat, bitmap: Bytes, index: nat, count: nat) returns (end: nat)
    requires at <= |s| && index <= count && ParseNodes(bitmap, index, count, s[at..]).Some?
    ensures at <= end <= |s|
    ensures var (nodes, rest) := ParseNodes(bitmap, index, count, s[at..]).value;
      rest == s[end..] && |nodes| == count - index
    decreases count - index
  {
    hide ParseNode;
    end := at;
    if index < count {
      var next := NodeRest(s, at, HasBit(bitmap, index));
      end := NodesRest(s, next, bitmap, index + 1, count);
    }
  }
}
