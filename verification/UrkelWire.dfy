/** The wire form of Urkel proofs: the cursor-driven decoder, and the octet strings it accepts. */
module UrkelWire {
  import opened Bytes
  import opened Urkel

  const MAX_PROOF_SIZE: nat := 256 * 1024

  datatype ProofError = TooLarge | Malformed

  // ------------------------------------------------------- grammar, read off

  /** A length-prefixed bit run at the head of `s`, and what follows it. */
  function ParsePrefix(s: Bytes): Option<(BitPrefix, Bytes)> {
    if s == [] then None
    else if s[0] >= 0x80 && |s| < 2 then None
    else
      var wide := s[0] >= 0x80;
      var size := if wide then (s[0] as int - 0x80) * 256 + s[1] as int else s[0] as int;
      var start := if wide then 2 else 1;
      if |s| - start < OctetsFor(size) then None
      else if wide && size < 0x80 then None
      else Some((BitPrefix(size, s[start..start + OctetsFor(size)]), s[start + OctetsFor(size)..]))
  }

  function ParseHash(s: Bytes): Option<(Hash, Bytes)> {
    if |s| < 32 then None else Some((s[..32], s[32..]))
  }

  function ParseNode(compressed: bool, s: Bytes): Option<(ProofNode, Bytes)> {
    if !compressed then
      match ParseHash(s)
      case None => None
      case Some((hash, rest)) => Some((ProofNode(EMPTY_PREFIX, hash), rest))
    else
      match ParsePrefix(s)
      case None => None
      case Some((prefix, rest)) =>
        if prefix.size == 0 || prefix.size > URKEL_BITS then None
        else
          match ParseHash(rest)
          case None => None
          case Some((hash, rest')) => Some((ProofNode(prefix, hash), rest'))
  }

  function ParseNodes(bitmap: Bytes, index: nat, count: nat, s: Bytes): Option<(seq<ProofNode>, Bytes)>
    requires index <= count
    decreases count - index
  {
    if index == count then Some(([], s))
    else
      match ParseNode(HasBit(bitmap, index), s)
      case None => None
      case Some((node, rest)) =>
        match ParseNodes(bitmap, index + 1, count, rest)
        case None => None
        case Some((nodes, rest')) => Some(([node] + nodes, rest'))
  }

  /** The body for a type tag; `None` also when octets are left over. */
  function ParseBody(proofType: byte, s: Bytes): Option<ProofBody> {
    if proofType == TYPE_DEADEND then
      if s == [] then Some(Deadend) else None
    else if proofType == TYPE_SHORT then
      match ParsePrefix(s)
      case None => None
      case Some((prefix, rest)) =>
        if prefix.size == 0 || prefix.size > URKEL_BITS || |rest| != 64 then None
        else Some(Short(prefix, rest[..32], rest[32..]))
    else if proofType == TYPE_COLLISION then
      if |s| != 64 then None else Some(Collision(s[..32], s[32..]))
    else if proofType == TYPE_EXISTS then
      if |s| < 2 || |s| - 2 != s[0] as int + 256 * (s[1] as int) then None else Some(Exists(s[2..]))
    else None
  }

  function Parse(s: Bytes): Result<UrkelProof, ProofError> {
    if |s| > MAX_PROOF_SIZE then Err(TooLarge)
    else if |s| < 4 then Err(Malformed)
    else
      var field := s[0] as int + 256 * (s[1] as int);
      var count := s[2] as int + 256 * (s[3] as int);
      var proofType, depth := field / 0x4000, field % 0x4000;
      if depth > URKEL_BITS || count > URKEL_BITS || |s| - 4 < OctetsFor(count) then Err(Malformed)
      else
        var bitmap := s[4..4 + OctetsFor(count)];
        match ParseNodes(bitmap, 0, count, s[4 + OctetsFor(count)..])
        case None => Err(Malformed)
        case Some((nodes, rest)) =>
          match ParseBody(proofType, rest)
          case None => Err(Malformed)
          case Some(body) => Ok(UrkelProof(proofType, depth, nodes, body))
  }

  // ------------------------------------------------------- grammar, written out

  function WritePrefix(p: BitPrefix): Bytes {
    (if p.size >= 0x80 then [0x80 + p.size / 256 % 0x80, p.size % 256] else [p.size]) + p.data
  }

  function WriteNode(node: ProofNode): Bytes {
    (if node.prefix.size > 0 then WritePrefix(node.prefix) else []) + node.hash
  }

  function WriteNodes(nodes: seq<ProofNode>): Bytes {
    if nodes == [] then [] else WriteNode(nodes[0]) + WriteNodes(nodes[1..])
  }

  function WriteBody(body: ProofBody): Bytes {
    match body
    case Deadend => []
    case Short(prefix, left, right) => WritePrefix(prefix) + left + right
    case Collision(key, valueHash) => key + valueHash
    case Exists(value) => LittleEndian16(|value| % 0x1_0000) + value
  }

  /** `p` can stand on the wire: its data has exactly the octets its size needs. */
  ghost predicate WirePrefix(p: BitPrefix) {
    0 < p.size <= URKEL_BITS && |p.data| == OctetsFor(p.size)
  }

  ghost predicate WireNode(node: ProofNode) {
    node.prefix == EMPTY_PREFIX || WirePrefix(node.prefix)
  }

  /** A sane proof whose prefixes can stand on the wire. */
  ghost predicate WireProof(proof: UrkelProof) {
    && IsSane(proof)
    && (forall i :: 0 <= i < |proof.nodes| ==> WireNode(proof.nodes[i]))
    && (proof.body.Short? ==> WirePrefix(proof.body.prefix))
  }

  /** Bit `i` of the bitmap tells whether node `i` has a prefix; spare bits are free. */
  ghost predicate MarksPrefixes(bitmap: Bytes, nodes: seq<ProofNode>) {
    |bitmap| == OctetsFor(|nodes|) &&
    forall i :: 0 <= i < |nodes| ==> (HasBit(bitmap, i) <==> nodes[i].prefix.size > 0)
  }

  function Write(proof: UrkelProof, bitmap: Bytes): Bytes {
    LittleEndian16((proof.proofType as int * 0x4000 + proof.depth) % 0x1_0000) +
    LittleEndian16(|proof.nodes| % 0x1_0000) + bitmap + WriteNodes(proof.nodes) + WriteBody(proof.body)
  }

  // ------------------------------------------------------- the two agree

  lemma ParseWrittenPrefix(p: BitPrefix, rest: Bytes)
    requires p.size < 0x8000 && |p.data| == OctetsFor(p.size)
    ensures ParsePrefix(WritePrefix(p) + rest) == Some((p, rest))
  {
    hide OctetsFor;
    var s := WritePrefix(p) + rest;
    var start := if p.size >= 0x80 then 2 else 1;
    if p.size >= 0x80 {
      assert s[0] == 0x80 + p.size / 256 && s[1] == p.size % 256;
    } else {
      assert s[0] == p.size;
    }
    assert s[start..start + OctetsFor(p.size)] == p.data;
    assert s[start + OctetsFor(p.size)..] == rest;
  }

  lemma WriteParsedPrefix(s: Bytes)
    requires ParsePrefix(s).Some?
    ensures var (p, rest) := ParsePrefix(s).value;
      p.size < 0x8000 && |p.data| == OctetsFor(p.size) && s == WritePrefix(p) + rest
  {
    hide OctetsFor;
    var (p, rest) := ParsePrefix(s).value;
    var start := if s[0] >= 0x80 then 2 else 1;
    assert p.size >= 0x80 ==> p.size / 256 == s[0] as int - 0x80 && p.size % 256 == s[1] as int;
    assert WritePrefix(p) == s[..start] + p.data;
    assert s == s[..start] + s[start..start + OctetsFor(p.size)] + s[start + OctetsFor(p.size)..];
  }

  lemma ParseWrittenNode(node: ProofNode, rest: Bytes)
    requires WireNode(node)
    ensures ParseNode(node.prefix.size > 0, WriteNode(node) + rest) == Some((node, rest))
  {
    assert (node.hash + rest)[..32] == node.hash && (node.hash + rest)[32..] == rest;
    if node.prefix.size > 0 {
      ParseWrittenPrefix(node.prefix, node.hash + rest);
      assert WriteNode(node) + rest == WritePrefix(node.prefix) + (node.hash + rest);
    } else {
      assert WriteNode(node) + rest == node.hash + rest;
    }
  }

  lemma WriteParsedNode(compressed: bool, s: Bytes)
    requires ParseNode(compressed, s).Some?
    ensures var (node, rest) := ParseNode(compressed, s).value;
      WireNode(node) && (compressed <==> node.prefix.size > 0) && s == WriteNode(node) + rest
  {
    if compressed {
      WriteParsedPrefix(s);
      var (prefix, rest) := ParsePrefix(s).value;
      assert rest == rest[..32] + rest[32..];
    } else {
      assert s == s[..32] + s[32..];
    }
  }

  lemma {:induction false} ParseWrittenNodes(nodes: seq<ProofNode>, bitmap: Bytes, index: nat, rest: Bytes)
    requires forall i :: 0 <= i < |nodes| ==>
               WireNode(nodes[i]) && (HasBit(bitmap, index + i) <==> nodes[i].prefix.size > 0)
    ensures ParseNodes(bitmap, index, index + |nodes|, WriteNodes(nodes) + rest) == Some((nodes, rest))
    decreases |nodes|
  {
    hide HasBit, ParseNode, WriteNode, WireNode;
    if nodes == [] {
      assert WriteNodes(nodes) + rest == rest;
    } else {
      var node, tail := nodes[0], nodes[1..];
      forall i | 0 <= i < |tail|
        ensures WireNode(tail[i]) && (HasBit(bitmap, index + 1 + i) <==> tail[i].prefix.size > 0)
      {
        assert tail[i] == nodes[i + 1] && index + 1 + i == index + (i + 1);
      }
      ParseWrittenNodes(tail, bitmap, index + 1, rest);
      assert WriteNodes(nodes) + rest == WriteNode(node) + (WriteNodes(tail) + rest);
      assert HasBit(bitmap, index + 0) <==> node.prefix.size > 0;
      ParseWrittenNode(node, WriteNodes(tail) + rest);
      assert [node] + tail == nodes;
    }
  }

  /** The nodes from `index` on fit the wire and the bitmap. */
  ghost predicate NodesFit(bitmap: Bytes, index: nat, nodes: seq<ProofNode>) {
    forall i :: 0 <= i < |nodes| ==> WireNode(nodes[i]) && (HasBit(bitmap, index + i) <==> nodes[i].prefix.size > 0)
  }

  lemma NodesOneMore(bitmap: Bytes, index: nat, node: ProofNode, tail: seq<ProofNode>)
    requires WireNode(node) && (HasBit(bitmap, index) <==> node.prefix.size > 0) && NodesFit(bitmap, index + 1, tail)
    ensures NodesFit(bitmap, index, [node] + tail)
    ensures WriteNodes([node] + tail) == WriteNode(node) + WriteNodes(tail)
  {
    hide HasBit, WireNode;
    var nodes := [node] + tail;
    assert nodes[1..] == tail;
    forall i | 0 < i < |nodes|
      ensures WireNode(nodes[i]) && (HasBit(bitmap, index + i) <==> nodes[i].prefix.size > 0)
    {
      assert nodes[i] == tail[i - 1] && index + 1 + (i - 1) == index + i;
    }
  }

  lemma Assoc(a: Bytes, b: Bytes, c: Bytes)
    ensures (a + b) + c == a + (b + c)
  {
  }

  lemma {:induction false} WriteParsedNodes(bitmap: Bytes, index: nat, count: nat, s: Bytes)
    requires index <= count && ParseNodes(bitmap, index, count, s).Some?
    ensures var (nodes, rest) := ParseNodes(bitmap, index, count, s).value;
      && |nodes| == count - index
      && NodesFit(bitmap, index, nodes)
      && s == WriteNodes(nodes) + rest
    decreases count - index
  {
    hide HasBit, ParseNode, WriteNode, WireNode;
    if index < count {
      WriteParsedNode(HasBit(bitmap, index), s);
      var (node, rest) := ParseNode(HasBit(bitmap, index), s).value;
      WriteParsedNodes(bitmap, index + 1, count, rest);
      var (tail, rest') := ParseNodes(bitmap, index + 1, count, rest).value;
      NodesOneMore(bitmap, index, node, tail);
      Assoc(WriteNode(node), WriteNodes(tail), rest');
    } else {
      assert s == [] + s;
    }
  }

  lemma ParseWrittenBody(proof: UrkelProof)
    requires WireProof(proof)
    ensures ParseBody(proof.proofType, WriteBody(proof.body)) == Some(proof.body)
  {
    match proof.body {
      case Short(prefix, left, right) =>
        hide ParsePrefix, WritePrefix, OctetsFor;
        ParseWrittenPrefix(prefix, left + right);
        assert WriteBody(proof.body) == WritePrefix(prefix) + (left + right);
        assert (left + right)[..32] == left && (left + right)[32..] == right;
      case Collision(key, valueHash) =>
        assert (key + valueHash)[..32] == key && (key + valueHash)[32..] == valueHash;
      case Exists(value) =>
        assert (LittleEndian16(|value|) + value)[2..] == value;
      case Deadend =>
    }
  }

  function TagOf(body: ProofBody): byte {
    match body
    case Deadend => TYPE_DEADEND
    case Short(_, _, _) => TYPE_SHORT
    case Collision(_, _) => TYPE_COLLISION
    case Exists(_) => TYPE_EXISTS
  }

  lemma WireProofOf(p: UrkelProof)
    requires p.depth <= URKEL_BITS && |p.nodes| <= URKEL_BITS && p.proofType == TagOf(p.body)
    requires forall i :: 0 <= i < |p.nodes| ==> WireNode(p.nodes[i])
    requires p.body.Short? ==> WirePrefix(p.body.prefix)
    requires p.body.Exists? ==> |p.body.value| < 0x1_0000
    ensures WireProof(p)
  {
  }

  lemma LittleOfPair(low: byte, high: byte)
    ensures low as int + 256 * (high as int) < 0x1_0000
    ensures LittleEndian16((low as int + 256 * (high as int)) % 0x1_0000) == [low, high]
    ensures LittleEndian16(low as int + 256 * (high as int)) == [low, high]
  {
  }

  lemma WriteParsedShort(s: Bytes)
    requires ParseBody(TYPE_SHORT, s).Some?
    ensures var body := ParseBody(TYPE_SHORT, s).value;
      body.Short? && WirePrefix(body.prefix) && s == WriteBody(body)
  {
    hide OctetsFor, WritePrefix, ParsePrefix;
    WriteParsedPrefix(s);
    var (prefix, rest) := ParsePrefix(s).value;
    var left, right := rest[..32], rest[32..];
    assert rest == left + right;
    assert WritePrefix(prefix) + left + right == WritePrefix(prefix) + (left + right);
  }

  lemma WriteParsedValue(s: Bytes)
    requires ParseBody(TYPE_EXISTS, s).Some?
    ensures var body := ParseBody(TYPE_EXISTS, s).value;
      body.Exists? && |body.value| < 0x1_0000 && s == WriteBody(body)
  {
    hide LittleEndian16;
    var length := s[0] as int + 256 * (s[1] as int);
    LittleOfPair(s[0], s[1]);
    assert |s[2..]| == length && s == [s[0], s[1]] + s[2..];
    assert WriteBody(Exists(s[2..])) == LittleEndian16(length % 0x1_0000) + s[2..];
  }

  lemma WriteParsedBody(proofType: byte, s: Bytes)
    requires ParseBody(proofType, s).Some?
    ensures var body := ParseBody(proofType, s).value;
      && (body.Short? ==> WirePrefix(body.prefix)) && (body.Exists? ==> |body.value| < 0x1_0000)
      && s == WriteBody(body)
      && proofType == TagOf(body)
  {
    hide OctetsFor, LittleEndian16, WritePrefix, ParsePrefix, WirePrefix;
    if proofType == TYPE_SHORT {
      WriteParsedShort(s);
    } else if proofType == TYPE_COLLISION {
      assert s == s[..32] + s[32..];
    } else if proofType == TYPE_EXISTS {
      WriteParsedValue(s);
    }
  }

  /** The two numbers at the front, then bitmap and rest, found where they were put. */
  lemma SectionsOfWritten(field: nat, count: nat, bitmap: Bytes, tail: Bytes)
    requires field < 0x1_0000 && count < 0x1_0000
    ensures var s := LittleEndian16(field) + LittleEndian16(count) + bitmap + tail;
      && s[0] as int + 256 * (s[1] as int) == field && s[2] as int + 256 * (s[3] as int) == count
      && s[4..4 + |bitmap|] == bitmap && s[4 + |bitmap|..] == tail
  {
    hide LittleEndian16;
  }

  lemma SectionsOfRead(s: Bytes, k: nat)
    requires 4 + k <= |s|
    ensures LittleEndian16(s[0] as int + 256 * (s[1] as int)) + LittleEndian16(s[2] as int + 256 * (s[3] as int)) +
            s[4..4 + k] + s[4 + k..] == s
  {
    hide LittleEndian16;
    LittleOfPair(s[0], s[1]);
    LittleOfPair(s[2], s[3]);
  }

  lemma TagAndDepth(tag: nat, depth: nat)
    requires depth < 0x4000
    ensures (tag * 0x4000 + depth) / 0x4000 == tag && (tag * 0x4000 + depth) % 0x4000 == depth
  {
  }

  /** Every wire proof, written with any bitmap that marks its prefixes, is read back unchanged. */
  lemma WrittenProofIsRead(proof: UrkelProof, bitmap: Bytes)
    requires WireProof(proof) && MarksPrefixes(bitmap, proof.nodes)
    requires |Write(proof, bitmap)| <= MAX_PROOF_SIZE
    ensures Parse(Write(proof, bitmap)) == Ok(proof)
  {
    hide HasBit, WriteNodes, WriteBody, ParseNodes, ParseBody, WireNode, OctetsFor, LittleEndian16;
    var tag, depth := proof.proofType as int, proof.depth;
    var nodes, body := WriteNodes(proof.nodes), WriteBody(proof.body);
    TagAndDepth(tag, depth);
    SectionsOfWritten(tag * 0x4000 + depth, |proof.nodes|, bitmap, nodes + body);
    var head := LittleEndian16(tag * 0x4000 + depth) + LittleEndian16(|proof.nodes|) + bitmap;
    assert Write(proof, bitmap) == head + nodes + body == head + (nodes + body);
    ParseWrittenNodes(proof.nodes, bitmap, 0, body);
    ParseWrittenBody(proof);
  }

  /** Whatever is read is a wire proof, and its octets are that proof written out. */
  lemma ReadProofIsWritten(s: Bytes)
    requires Parse(s).Ok?
    ensures var proof := Parse(s).value;
      && WireProof(proof) && 4 + OctetsFor(|proof.nodes|) <= |s|
      && MarksPrefixes(s[4..4 + OctetsFor(|proof.nodes|)], proof.nodes)
      && s == Write(proof, s[4..4 + OctetsFor(|proof.nodes|)])
  {
    hide HasBit, WriteNodes, WriteBody, ParseNodes, ParseBody, WireNode, WirePrefix, WireProof, TagOf, OctetsFor,
      LittleEndian16, Write;
    var field := s[0] as int + 256 * (s[1] as int);
    var count := s[2] as int + 256 * (s[3] as int);
    var bitmap, tail := s[4..4 + OctetsFor(count)], s[4 + OctetsFor(count)..];
    WriteParsedNodes(bitmap, 0, count, tail);
    var (nodes, rest) := ParseNodes(bitmap, 0, count, tail).value;
    WriteParsedBody(field / 0x4000, rest);
    WireProofOf(Parse(s).value);
    SectionsOfRead(s, OctetsFor(count));
    WriteFromParts(Parse(s).value, bitmap, field, count);
  }

  lemma WriteFromParts(proof: UrkelProof, bitmap: Bytes, field: nat, count: nat)
    requires field < 0x1_0000 && count < 0x1_0000 && |proof.nodes| == count
    requires proof.proofType as int == field / 0x4000 && proof.depth == field % 0x4000
    ensures Write(proof, bitmap) ==
      LittleEndian16(field) + LittleEndian16(count) + bitmap + (WriteNodes(proof.nodes) + WriteBody(proof.body))
  {
    hide LittleEndian16, WriteNodes, WriteBody;
    assert field / 0x4000 * 0x4000 + field % 0x4000 == field;
    var head := LittleEndian16(field) + LittleEndian16(count) + bitmap;
    assert head + WriteNodes(proof.nodes) + WriteBody(proof.body) ==
           head + (WriteNodes(proof.nodes) + WriteBody(proof.body));
  }

  lemma {:induction false} WrittenNodesAreShort(nodes: seq<ProofNode>)
    requires forall i :: 0 <= i < |nodes| ==> WireNode(nodes[i])
    ensures |WriteNodes(nodes)| <= 66 * |nodes|
  {
    if nodes != [] {
      assert WireNode(nodes[0]);
      WrittenNodesAreShort(nodes[1..]);
    }
  }

  /** No wire proof outgrows the size limit, so every one of them can be sent. */
  lemma WrittenProofIsSmall(proof: UrkelProof, bitmap: Bytes)
    requires WireProof(proof) && MarksPrefixes(bitmap, proof.nodes)
    ensures |Write(proof, bitmap)| <= MAX_PROOF_SIZE
  {
    hide HasBit;
    WrittenNodesAreShort(proof.nodes);
    assert |WriteBody(proof.body)| <= 0x1_0001;
  }

  /** The decoder reads `s` as `proof` exactly when `s` is `proof` written out; only bitmap padding is free. */
  lemma ReadIffWritten(s: Bytes, proof: UrkelProof)
    ensures Parse(s) == Ok(proof) <==>
            WireProof(proof) && exists bitmap :: MarksPrefixes(bitmap, proof.nodes) && s == Write(proof, bitmap)
  {
    hide HasBit, Parse, Write, WireProof, MarksPrefixes;
    if Parse(s) == Ok(proof) {
      ReadProofIsWritten(s);
    }
    if WireProof(proof) {
      forall bitmap | MarksPrefixes(bitmap, proof.nodes) && s == Write(proof, bitmap)
        ensures Parse(s) == Ok(proof)
      {
        WrittenProofIsSmall(proof, bitmap);
        WrittenProofIsRead(proof, bitmap);
      }
    }
  }

  // ------------------------------------------------------------------ decoder

  class Cursor {
    const data: Bytes
    var offset: nat

    ghost predicate Valid() reads this {
      offset <= |data|
    }

    ghost function Rest(): Bytes
      requires Valid()
      reads this
    {
      data[offset..]
    }

    constructor (data: Bytes)
      ensures Valid() && this.data == data && offset == 0 && Rest() == data
    {
      this.data := data;
      offset := 0;
    }

    method ReadBytes(len: nat) returns (r: Option<Bytes>)
      requires Valid()
      modifies this`offset
      ensures Valid()
      ensures len <= |old(Rest())| ==>
                r == Some(old(Rest())[..len]) && Rest() == old(Rest())[len..] && offset == old(offset) + len
      ensures len > |old(Rest())| ==> r == None && offset == old(offset)
    {
      var end := offset + len;
      if end > |data| {
        return None;
      }
      r := Some(data[offset..end]);
      assert data[offset..end] == Rest()[..len];
      offset := end;
    }

    method ReadU16() returns (r: Option<nat>)
      requires Valid()
      modifies this`offset
      ensures Valid()
      ensures |old(Rest())| >= 2 ==>
                r == Some(old(Rest())[0] as int + 256 * (old(Rest())[1] as int)) && Rest() == old(Rest())[2..]
      ensures |old(Rest())| < 2 ==> r == None && offset == old(offset)
    {
      var pair := ReadBytes(2);
      if pair.None? {
        return None;
      }
      r := Some(pair.value[0] as int + 256 * (pair.value[1] as int));
    }

    method ReadHash() returns (r: Option<Hash>)
      requires Valid()
      modifies this`offset
      ensures Valid()
      ensures match ParseHash(old(Rest()))
              case None => r == None && offset == old(offset)
              case Some((hash, rest)) => r == Some(hash) && Rest() == rest
    {
      var bytes := ReadBytes(32);
      r := if bytes.None? then None else Some(bytes.value);
    }

    method ReadPrefix() returns (r: Option<BitPrefix>)
      requires Valid()
      modifies this`offset
      ensures Valid()
      ensures match ParsePrefix(old(Rest()))
              case None => r == None && offset >= old(offset)
              case Some((prefix, rest)) => r == Some(prefix) && Rest() == rest
    {
      hide OctetsFor;
      var start := offset;
      ghost var all := Rest();
      if offset >= |data| {
        return None;
      }
      var first := data[offset];
      offset := offset + 1;
      var size: nat := first as int;
      if first >= 0x80 {
        if offset >= |data| {
          return None;
        }
        size := (first as int - 0x80) * 256 + data[offset] as int;
        offset := offset + 1;
      }
      ghost var head, n := offset - start, OctetsFor(size);
      assert Rest() == all[head..];
      var bytes := ReadBytes(OctetsFor(size));
      if bytes.None? {
        return None;
      }
      var encodedLen := (if size >= 0x80 then 2 else 1) + |bytes.value|;
      if offset - start != encodedLen {
        return None;
      }
      assert all[head..][..n] == all[head..head + n] && all[head..][n..] == all[head + n..];
      r := Some(BitPrefix(size, bytes.value));
    }

    predicate IsFinished()
      requires Valid()
      reads this
    {
      offset == |data|
    }
  }

  lemma {:induction false} ParseNodesExtend(bitmap: Bytes, index: nat, k: nat, count: nat, s: Bytes)
    requires index <= k < count && ParseNodes(bitmap, index, k, s).Some?
    ensures var (nodes, rest) := ParseNodes(bitmap, index, k, s).value;
      match ParseNode(HasBit(bitmap, k), rest)
      case None => ParseNodes(bitmap, index, count, s) == None
      case Some((node, rest')) => ParseNodes(bitmap, index, k + 1, s) == Some((nodes + [node], rest'))
    decreases k - index
  {
    hide HasBit, ParseNode;
    if index < k {
      var (node, rest) := ParseNode(HasBit(bitmap, index), s).value;
      ParseNodesExtend(bitmap, index + 1, k, count, rest);
      var (tail, rest') := ParseNodes(bitmap, index + 1, k, rest).value;
      assert forall x :: [node] + (tail + [x]) == [node] + tail + [x];
    } else {
      match ParseNode(HasBit(bitmap, k), s) {
        case None =>
        case Some((node, rest')) =>
          assert ParseNodes(bitmap, k + 1, k + 1, rest') == Some(([], rest'));
          assert [node] + [] == [] + [node];
      }
    }
  }

  /** The node loop of the decoder. */
  method DecodeNodes(cursor: Cursor, bitmap: Bytes, count: nat) returns (r: Option<seq<ProofNode>>)
    requires cursor.Valid()
    modifies cursor`offset
    ensures cursor.Valid()
    ensures match ParseNodes(bitmap, 0, count, old(cursor.Rest()))
            case None => r == None
            case Some((nodes, rest)) => r == Some(nodes) && cursor.Rest() == rest
  {
    hide HasBit, ParsePrefix;
    ghost var all := cursor.Rest();
    var nodes := [];
    for index := 0 to count
      invariant cursor.Valid()
      invariant ParseNodes(bitmap, 0, index, all) == Some((nodes, cursor.Rest()))
    {
      ParseNodesExtend(bitmap, 0, index, count, all);
      var prefix := EMPTY_PREFIX;
      if HasBit(bitmap, index) {
        var read := cursor.ReadPrefix();
        if read.None? || read.value.size == 0 || read.value.size > URKEL_BITS {
          return None;
        }
        prefix := read.value;
      }
      var hash := cursor.ReadHash();
      if hash.None? {
        return None;
      }
      nodes := nodes + [ProofNode(prefix, hash.value)];
    }
    r := Some(nodes);
  }

  method ReadHashPair(cursor: Cursor) returns (r: Option<(Hash, Hash)>)
    requires cursor.Valid()
    modifies cursor`offset
    ensures cursor.Valid()
    ensures r.Some? <==> |old(cursor.Rest())| >= 64
    ensures r.Some? ==>
              r.value == (old(cursor.Rest())[..32], old(cursor.Rest())[32..64]) &&
              cursor.Rest() == old(cursor.Rest())[64..]
    ensures |old(cursor.Rest())| == 64 ==> r.value.1 == old(cursor.Rest())[32..]
  {
    ghost var start := cursor.Rest();
    var first := cursor.ReadHash();
    if first.None? {
      return None;
    }
    var second := cursor.ReadHash();
    if second.None? {
      return None;
    }
    assert start[32..][..32] == start[32..64];
    r := Some((first.value, second.value));
  }

  method DecodeBody(cursor: Cursor, proofType: byte) returns (r: Option<ProofBody>)
    requires cursor.Valid()
    modifies cursor`offset
    ensures cursor.Valid()
    ensures ParseBody(proofType, old(cursor.Rest())) ==
            if r.Some? && cursor.Rest() == [] then r else None
  {
    hide ParsePrefix;
    if proofType == TYPE_DEADEND {
      return Some(Deadend);
    } else if proofType == TYPE_SHORT {
      var prefix := cursor.ReadPrefix();
      if prefix.None? || prefix.value.size == 0 || prefix.value.size > URKEL_BITS {
        return None;
      }
      var pair := ReadHashPair(cursor);
      return if pair.None? then None else Some(Short(prefix.value, pair.value.0, pair.value.1));
    } else if proofType == TYPE_COLLISION {
      var pair := ReadHashPair(cursor);
      return if pair.None? then None else Some(Collision(pair.value.0, pair.value.1));
    } else if proofType == TYPE_EXISTS {
      ghost var start := cursor.Rest();
      var size := cursor.ReadU16();
      if size.None? {
        return None;
      }
      assert |start| - 2 == size.value ==> start[2..][..size.value] == start[2..];
      var value := cursor.ReadBytes(size.value);
      if value.None? {
        return None;
      }
      return Some(Exists(value.value));
    }
    return None;
  }

  lemma ParsedIsSane(s: Bytes)
    ensures Parse(s).Ok? ==> IsSane(Parse(s).value)
  {
    hide *;
    if Parse(s).Ok? {
      ReadProofIsWritten(s);
      WireProofIsSane(Parse(s).value);
    }
  }

  lemma WireProofIsSane(proof: UrkelProof)
    requires WireProof(proof)
    ensures IsSane(proof)
  {
  }

  /** The decoder, field by field; it reads what the grammar reads. */
  method Decode(bytes: Bytes) returns (r: Result<UrkelProof, ProofError>)
    ensures r == Parse(bytes)
  {
    hide ParseNodes, ParseBody, IsSane;
    if |bytes| > MAX_PROOF_SIZE {
      return Err(TooLarge);
    }
    var cursor := new Cursor(bytes);
    var field := cursor.ReadU16();
    if field.None? {
      return Err(Malformed);
    }
    var proofType, depth := field.value / 0x4000, field.value % 0x4000;
    if depth > URKEL_BITS {
      return Err(Malformed);
    }
    var count := cursor.ReadU16();
    if count.None? || count.value > URKEL_BITS {
      return Err(Malformed);
    }
    var bitmap := cursor.ReadBytes(OctetsFor(count.value));
    if bitmap.None? {
      return Err(Malformed);
    }
    assert bitmap.value == bytes[4..4 + OctetsFor(count.value)];
    assert cursor.Rest() == bytes[4 + OctetsFor(count.value)..];
    var nodes := DecodeNodes(cursor, bitmap.value, count.value);
    if nodes.None? {
      return Err(Malformed);
    }
    var body := DecodeBody(cursor, proofType);
    if body.None? || !cursor.IsFinished() {
      return Err(Malformed);
    }
    var proof := UrkelProof(proofType, depth, nodes.value, body.value);
    ParsedIsSane(bytes);
    if !IsSane(proof) {
      return Err(Malformed);
    }
    return Ok(proof);
  }

  // -------------------------------------------------------------- end to end

  /** Prefixes of the tree hold exactly the octets their size needs. */
  ghost predicate TreeOnWire(t: Tree) {
    t.Inner? ==>
      (t.prefix == EMPTY_PREFIX || (t.prefix.size > 0 && |t.prefix.data| == OctetsFor(t.prefix.size))) &&
      TreeOnWire(t.left) && TreeOnWire(t.right)
  }

  lemma {:induction false} OpeningOnWire(h: Digest, t: Tree, key: Hash, depth: nat)
    requires TreeOnWire(t) && TreeFits(t, depth)
    ensures var p := Opening(h, t, key, depth);
      && (forall i :: 0 <= i < |p.nodes| ==> WireNode(p.nodes[i]))
      && (p.body.Short? ==> WirePrefix(p.body.prefix))
  {
    hide HasBit, PrefixAt, Opening;
    if t.Inner? { TreeFitsDepth(t.left, depth + t.prefix.size + 1); }
    if t.Inner? && PrefixAt(t.prefix, key, depth) {
      var child, below, node := OpeningStep(h, t, key, depth);
      OpeningOnWire(h, child, key, depth + t.prefix.size + 1);
      FirstAndRest(Opening(h, t, key, depth).nodes);
    } else {
      OpeningEndOnWire(h, t, key, depth);
    }
  }

  lemma OpeningEndOnWire(h: Digest, t: Tree, key: Hash, depth: nat)
    requires TreeOnWire(t) && (t.Inner? ==> t.prefix.size <= URKEL_BITS && !PrefixAt(t.prefix, key, depth))
    ensures var p := Opening(h, t, key, depth);
      p.nodes == [] && (p.body.Short? ==> WirePrefix(p.body.prefix))
  {
    hide HasBit, PrefixAt;
    if t.Inner? && t.prefix == EMPTY_PREFIX { EmptyPrefixAnywhere(key, depth); }
  }

  lemma FirstAndRest(nodes: seq<ProofNode>)
    requires nodes != [] && WireNode(nodes[0])
    requires forall i :: 0 <= i < |nodes[1..]| ==> WireNode(nodes[1..][i])
    ensures forall i :: 0 <= i < |nodes| ==> WireNode(nodes[i])
  {
    hide WireNode;
    assert forall i :: 0 < i < |nodes| ==> nodes[i] == nodes[1..][i - 1];
  }

  lemma EmptyPrefixAnywhere(key: Hash, depth: nat)
    ensures PrefixAt(EMPTY_PREFIX, key, depth)
  {
  }

  lemma SaneTag(p: UrkelProof)
    requires IsSane(p)
    ensures p.depth <= URKEL_BITS && |p.nodes| <= URKEL_BITS && p.proofType == TagOf(p.body)
    ensures p.body.Exists? ==> |p.body.value| < 0x1_0000
  {
  }

  /** Serve the opening of any key, send it, decode it: it is accepted and tells what the tree holds. */
  lemma ServedProofIsAccepted(h: Digest, t: Tree, key: Hash, bitmap: Bytes)
    requires TreeFits(t, 0) && TreeOnWire(t)
    requires MarksPrefixes(bitmap, Opening(h, t, key, 0).nodes)
    ensures var proof := Opening(h, t, key, 0);
      && IsSane(proof)
      && Parse(Write(proof, bitmap)) == Ok(proof)
      && Opens(h, proof, TreeHash(h, t), key)
      && Claim(proof.body) == Lookup(t, key, 0)
  {
    hide *;
    HonestProofAccepted(h, t, key);
    OpeningOnWire(h, t, key, 0);
    var p := Opening(h, t, key, 0);
    SaneTag(p);
    WireProofOf(p);
    WrittenProofIsSmall(p, bitmap);
    WrittenProofIsRead(p, bitmap);
  }
}
