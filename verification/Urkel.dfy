/**
 Urkel tree proofs: what the verifier accepts, what an accepted proof says
 about the committed tree, and the wire form of a proof.
 */
module Urkel {
  import opened Bytes

  const URKEL_BITS: nat := 256

  const TYPE_DEADEND: byte := 0
  const TYPE_SHORT: byte := 1
  const TYPE_COLLISION: byte := 2
  const TYPE_EXISTS: byte := 3

  /** The digest used throughout, an unknown function of the octets hashed. */
  type Digest = Bytes -> Hash

  datatype BitPrefix = BitPrefix(size: nat, data: Bytes)

  const EMPTY_PREFIX := BitPrefix(0, [])

  datatype ProofNode = ProofNode(prefix: BitPrefix, hash: Hash)

  datatype ProofBody =
    | Deadend
    | Short(prefix: BitPrefix, left: Hash, right: Hash)
    | Collision(key: Hash, valueHash: Hash)
    | Exists(value: Bytes)

  datatype UrkelProof = UrkelProof(proofType: byte, depth: nat, nodes: seq<ProofNode>, body: ProofBody)

  // ---------------------------------------------------------------- prefixes

  /** `prefix` is the run of bits of `key` that starts at `depth`. */
  ghost predicate PrefixAt(prefix: BitPrefix, key: Bytes, depth: nat) {
    prefix.size == 0 ||
    (depth + prefix.size <= 8 * |key| &&
     forall i :: 0 <= i < prefix.size ==>
       HasBit(prefix.data, i) == HasBit(key, depth + i))
  }

  /** The length of the longest common run, by comparing bit after bit. */
  method Count(prefix: BitPrefix, key: Bytes, depth: nat) returns (matched: nat)
    ensures matched <= prefix.size
    ensures depth + matched <= 8 * |key| || matched == 0
    ensures forall i :: 0 <= i < matched ==>
              HasBit(prefix.data, i) == HasBit(key, depth + i)
    ensures matched < prefix.size && depth + matched < 8 * |key| ==>
              HasBit(prefix.data, matched) != HasBit(key, depth + matched)
  {
    var keyBits := |key| * 8;
    if depth >= keyBits {
      return 0;
    }
    var len := if prefix.size <= keyBits - depth then prefix.size else keyBits - depth;
    matched := 0;
    for index := 0 to len
      invariant matched == index
      invariant forall i :: 0 <= i < matched ==>
                  HasBit(prefix.data, i) == HasBit(key, depth + i)
    {
      if HasBit(prefix.data, index) != HasBit(key, depth + index) {
        break;
      }
      matched := matched + 1;
    }
  }

  method Has(prefix: BitPrefix, key: Bytes, depth: nat) returns (has: bool)
    ensures has <==> PrefixAt(prefix, key, depth)
  {
    var matched := Count(prefix, key, depth);
    has := matched == prefix.size;
  }

  // ------------------------------------------------------------------ hashing

  /** What an internal node hashes. */
  function InternalPreimage(prefix: BitPrefix, left: Hash, right: Hash): Bytes {
    if prefix.size == 0
    then [0x01] + left + right
    else [0x02] + LittleEndian16(prefix.size % 0x1_0000) + prefix.data + left + right
  }

  /** What a leaf hashes. */
  function LeafPreimage(key: Hash, valueHash: Hash): Bytes {
    [0x00] + key + valueHash
  }

  function HashInternal(h: Digest, prefix: BitPrefix, left: Hash, right: Hash): Hash {
    h(InternalPreimage(prefix, left, right))
  }

  function HashLeaf(h: Digest, key: Hash, valueHash: Hash): Hash {
    h(LeafPreimage(key, valueHash))
  }

  function HashValue(h: Digest, key: Hash, value: Bytes): Hash {
    HashLeaf(h, key, h(value))
  }

  lemma InternalPreimageInjective(p: BitPrefix, l: Hash, r: Hash, p': BitPrefix, l': Hash, r': Hash)
    requires p.size < 0x1_0000 && p'.size < 0x1_0000
    requires InternalPreimage(p, l, r) == InternalPreimage(p', l', r')
    ensures l == l' && r == r' && p.size == p'.size
    ensures p.size > 0 ==> p == p'
  {
    var x, x' := InternalPreimage(p, l, r), InternalPreimage(p', l', r');
    assert p.size == 0 <==> x[0] == 0x01;
    assert p'.size == 0 <==> x'[0] == 0x01;
    LastTwoHashes(x, x[..|x| - 64], l, r);
    LastTwoHashes(x', x'[..|x'| - 64], l', r');
    if p.size > 0 {
      SkipHead(p, l, r, x);
      SkipHead(p', l', r', x');
    }
  }

  lemma LastTwoHashes(x: Bytes, head: Bytes, l: Hash, r: Hash)
    requires x == head + l + r
    ensures l == x[|x| - 64..|x| - 32] && r == x[|x| - 32..]
  {
  }

  lemma SkipHead(p: BitPrefix, l: Hash, r: Hash, x: Bytes)
    requires 0 < p.size < 0x1_0000 && x == InternalPreimage(p, l, r)
    ensures p.size == x[1] as int + 256 * (x[2] as int) && p.data == x[3..|x| - 64]
  {
    var s := LittleEndian16(p.size);
    assert s == x[1..3];
    assert x[1] == s[0] && x[2] == s[1];
  }

  lemma LeafPreimageInjective(k: Hash, v: Hash, k': Hash, v': Hash)
    requires LeafPreimage(k, v) == LeafPreimage(k', v')
    ensures k == k' && v == v'
  {
    var x, x' := LeafPreimage(k, v), LeafPreimage(k', v');
    assert k == x[1..33] && k' == x'[1..33];
    assert v == x[33..] && v' == x'[33..];
  }

  // ------------------------------------------------------------- verification

  /** The bounds and the type tag the verifier insists on. */
  predicate IsSane(proof: UrkelProof) {
    && proof.depth <= URKEL_BITS
    && |proof.nodes| <= URKEL_BITS
    && (forall i :: 0 <= i < |proof.nodes| ==> proof.nodes[i].prefix.size <= URKEL_BITS)
    && match proof.body
       case Deadend => proof.proofType == TYPE_DEADEND
       case Short(prefix, _, _) => proof.proofType == TYPE_SHORT && 0 < prefix.size <= URKEL_BITS
       case Collision(_, _) => proof.proofType == TYPE_COLLISION
       case Exists(value) => proof.proofType == TYPE_EXISTS && |value| <= 0xffff
  }

  /** What a proof says its key maps to: a value, or nothing. */
  function Claim(body: ProofBody): Option<Bytes> {
    if body.Exists? then Some(body.value) else None
  }

  /** The body does not contradict its own claim for `key`. */
  ghost predicate BodyOk(body: ProofBody, key: Hash, depth: nat) {
    match body
    case Short(prefix, _, _) => !PrefixAt(prefix, key, depth)
    case Collision(other, _) => other != key
    case _ => true
  }

  function BodyHash(h: Digest, body: ProofBody, key: Hash): Hash {
    match body
    case Deadend => ZERO_HASH
    case Short(prefix, left, right) => HashInternal(h, prefix, left, right)
    case Collision(other, valueHash) => HashLeaf(h, other, valueHash)
    case Exists(value) => HashValue(h, key, value)
  }

  /** Walking down `nodes` from `depth`, every prefix lies on the key's path and the walk ends at `end`. */
  ghost predicate OnPath(nodes: seq<ProofNode>, depth: nat, end: nat, key: Hash) {
    if nodes == [] then depth == end
    else
      PrefixAt(nodes[0].prefix, key, depth) &&
      OnPath(nodes[1..], depth + nodes[0].prefix.size + 1, end, key)
  }

  /** What the node at `depth` hashes, the key's side being `below`. */
  function StepPreimage(node: ProofNode, depth: nat, key: Hash, below: Hash): Bytes {
    if HasBit(key, depth + node.prefix.size)
    then InternalPreimage(node.prefix, node.hash, below)
    else InternalPreimage(node.prefix, below, node.hash)
  }

  /** The hash of the subtree at `depth` whose path to the key is `nodes` and whose end hashes to `leaf`. */
  function PathHash(h: Digest, nodes: seq<ProofNode>, depth: nat, key: Hash, leaf: Hash): Hash {
    if nodes == [] then leaf
    else
      h(StepPreimage(nodes[0], depth, key, PathHash(h, nodes[1..], depth + nodes[0].prefix.size + 1, key, leaf)))
  }

  /** Top-down meaning of a proof: the path it describes leads from `root` to its body. */
  ghost predicate Opens(h: Digest, proof: UrkelProof, root: Hash, key: Hash) {
    && BodyOk(proof.body, key, proof.depth)
    && OnPath(proof.nodes, 0, proof.depth, key)
    && PathHash(h, proof.nodes, 0, key, BodyHash(h, proof.body, key)) == root
  }

  /** How many bits of the key the nodes use up. */
  function Span(nodes: seq<ProofNode>): nat {
    if nodes == [] then 0 else nodes[0].prefix.size + 1 + Span(nodes[1..])
  }

  lemma {:induction false} OnPathSuffix(nodes: seq<ProofNode>, depth: nat, end: nat, key: Hash, k: nat)
    requires k < |nodes| && OnPath(nodes, depth, end, key)
    ensures Span(nodes[k..]) <= end - depth
    ensures PrefixAt(nodes[k].prefix, key, end - Span(nodes[k..]))
  {
    OnPathSpan(nodes, depth, end, key);
    if k == 0 {
      assert nodes[0..] == nodes;
    } else {
      OnPathSuffix(nodes[1..], depth + nodes[0].prefix.size + 1, end, key, k - 1);
      assert nodes[1..][k - 1..] == nodes[k..];
    }
  }

  lemma {:induction false} OnPathSpan(nodes: seq<ProofNode>, depth: nat, end: nat, key: Hash)
    requires OnPath(nodes, depth, end, key)
    ensures end == depth + Span(nodes)
  {
    if nodes != [] {
      OnPathSpan(nodes[1..], depth + nodes[0].prefix.size + 1, end, key);
    }
  }

  /** A node whose prefix cannot sit where the nodes below it leave it rules the whole path out. */
  lemma MisfitBreaksPath(nodes: seq<ProofNode>, end: nat, key: Hash, k: nat)
    requires k < |nodes|
    requires Span(nodes[k..]) > end || !PrefixAt(nodes[k].prefix, key, end - Span(nodes[k..]))
    ensures !OnPath(nodes, 0, end, key)
  {
    if OnPath(nodes, 0, end, key) { OnPathSuffix(nodes, 0, end, key, k); }
  }

  /** The fold over the nodes, from the last one up, with the depth counting down to zero. */
  method Climb(h: Digest, nodes: seq<ProofNode>, end: nat, key: Hash, leaf: Hash) returns (top: Option<Hash>)
    ensures top.Some? <==> OnPath(nodes, 0, end, key)
    ensures top.Some? ==> top.value == PathHash(h, nodes, 0, key, leaf)
  {
    hide HasBit, PrefixAt, InternalPreimage;
    var next := leaf;
    var depth: nat := end;
    var k := |nodes|;
    while k > 0
      invariant 0 <= k <= |nodes|
      invariant depth == end - Span(nodes[k..])
      invariant OnPath(nodes[k..], depth, end, key)
      invariant next == PathHash(h, nodes[k..], depth, key, leaf)
    {
      var node := nodes[k - 1];
      assert nodes[k - 1..][1..] == nodes[k..];
      if depth < node.prefix.size + 1 {
        MisfitBreaksPath(nodes, end, key, k - 1);
        return None;
      }
      depth := depth - 1;
      next := if HasBit(key, depth)
              then HashInternal(h, node.prefix, node.hash, next)
              else HashInternal(h, node.prefix, next, node.hash);
      depth := depth - node.prefix.size;
      var has := Has(node.prefix, key, depth);
      if !has {
        MisfitBreaksPath(nodes, end, key, k - 1);
        return None;
      }
      k := k - 1;
    }
    assert nodes[0..] == nodes;
    if OnPath(nodes, 0, end, key) { OnPathSpan(nodes, 0, end, key); }
    top := if depth == 0 then Some(next) else None;
  }

  // ---------------------------------------------- acceptance, octet by octet

  /** An inner node: tag 1 and both children's hashes; with a prefix, tag 2, its size, low octet first, and its octets
      before the hashes. */
  ghost predicate IsInnerNode(x: Bytes, prefix: BitPrefix, left: Hash, right: Hash) {
    if prefix.size == 0 then |x| == 65 && x[0] == 1 && x[1..33] == left && x[33..65] == right
    else
      var n := |prefix.data|;
      && |x| == 67 + n && x[0] == 2 && x[1] as int == prefix.size % 256 && x[2] as int == prefix.size / 256 % 256
      && x[3..3 + n] == prefix.data && x[3 + n..35 + n] == left && x[35 + n..67 + n] == right
  }

  /** A leaf: tag 0, the key, the hash of the value. */
  ghost predicate IsLeafNode(x: Bytes, key: Hash, valueHash: Hash) {
    |x| == 65 && x[0] == 0 && x[1..33] == key && x[33..65] == valueHash
  }

  ghost predicate HashesInner(h: Digest, top: Hash, prefix: BitPrefix, left: Hash, right: Hash) {
    exists x :: IsInnerNode(x, prefix, left, right) && h(x) == top
  }

  ghost predicate HashesLeaf(h: Digest, top: Hash, key: Hash, valueHash: Hash) {
    exists x :: IsLeafNode(x, key, valueHash) && h(x) == top
  }

  /** The prefix's bits are the key's bits from `depth` on. */
  ghost predicate RunsAt(prefix: BitPrefix, key: Hash, depth: nat) {
    prefix.size == 0 ||
    (&& depth + prefix.size <= 256
     && forall i :: 0 <= i < prefix.size ==> (BitSet(prefix.data, i) <==> BitSet(key, depth + i)))
  }

  /** `above` is the hash of a node whose child on the key's side hashes to `below`: the right one if the bit is set. */
  ghost predicate Passes(h: Digest, key: Hash, node: ProofNode, depth: nat, above: Hash, below: Hash) {
    && RunsAt(node.prefix, key, depth)
    && if BitSet(key, depth + node.prefix.size) then HashesInner(h, above, node.prefix, node.hash, below)
       else HashesInner(h, above, node.prefix, below, node.hash)
  }

  ghost predicate LeadsTo(h: Digest, key: Hash, nodes: seq<ProofNode>, depth: nat, above: Hash, end: nat, below: Hash) {
    if nodes == [] then depth == end && above == below
    else
      exists next: Hash ::
        && Passes(h, key, nodes[0], depth, above, next)
        && LeadsTo(h, key, nodes[1..], depth + nodes[0].prefix.size + 1, next, end, below)
  }

  /** What stands at the end of the path, and that it does not contradict what it is meant to show. */
  ghost predicate EndsWith(h: Digest, key: Hash, body: ProofBody, depth: nat, bottom: Hash) {
    match body
    case Deadend => forall i :: 0 <= i < 32 ==> bottom[i] == 0
    case Short(prefix, left, right) => !RunsAt(prefix, key, depth) && HashesInner(h, bottom, prefix, left, right)
    case Collision(other, valueHash) => other != key && HashesLeaf(h, bottom, other, valueHash)
    case Exists(value) => HashesLeaf(h, bottom, key, h(value))
  }

  /** Acceptance in terms of octets: within bounds, a path of node hashes from the root down to the body. */
  ghost predicate Accepts(h: Digest, proof: UrkelProof, root: Hash, key: Hash) {
    && proof.depth <= 256 && |proof.nodes| <= 256
    && (forall node :: node in proof.nodes ==> node.prefix.size <= 256)
    && (match proof.body
        case Deadend => proof.proofType == 0
        case Short(prefix, _, _) => proof.proofType == 1 && 1 <= prefix.size <= 256
        case Collision(_, _) => proof.proofType == 2
        case Exists(value) => proof.proofType == 3 && |value| <= 65535)
    && exists bottom: Hash ::
         EndsWith(h, key, proof.body, proof.depth, bottom) && LeadsTo(h, key, proof.nodes, 0, root, proof.depth, bottom)
  }

  lemma InnerLayout(x: Bytes, prefix: BitPrefix, left: Hash, right: Hash)
    ensures IsInnerNode(x, prefix, left, right) <==> x == InternalPreimage(prefix, left, right)
  {
    if prefix.size == 0 {
      var p := InternalPreimage(prefix, left, right);
      assert p[1..33] == left && p[33..65] == right;
      if IsInnerNode(x, prefix, left, right) { assert x == [1] + x[1..33] + x[33..65]; }
    } else {
      var low, high := prefix.size % 256, prefix.size / 256 % 256;
      LowOctets(prefix.size);
      assert LittleEndian16(prefix.size % 0x1_0000) == [low, high];
      hide LittleEndian16;
      FiveParts(x, low, high, prefix.data, left, right);
      assert [2] + [low, high] == [2, low, high];
    }
  }

  lemma FiveParts(x: Bytes, low: byte, high: byte, data: Bytes, left: Hash, right: Hash)
    ensures var n := |data|;
      && |x| == 67 + n && x[0] == 2 && x[1] == low && x[2] == high
      && x[3..3 + n] == data && x[3 + n..35 + n] == left && x[35 + n..67 + n] == right
      <==> x == [2, low, high] + data + left + right
  {
    var n := |data|;
    var p := [2, low, high] + data + left + right;
    assert p[3..3 + n] == data && p[3 + n..35 + n] == left && p[35 + n..67 + n] == right;
    if |x| == 67 + n {
      assert x == [x[0], x[1], x[2]] + x[3..3 + n] + x[3 + n..35 + n] + x[35 + n..67 + n];
    }
  }

  lemma LeafLayout(x: Bytes, key: Hash, valueHash: Hash)
    ensures IsLeafNode(x, key, valueHash) <==> x == LeafPreimage(key, valueHash)
  {
    var p := LeafPreimage(key, valueHash);
    assert p[1..33] == key && p[33..65] == valueHash;
    if IsLeafNode(x, key, valueHash) { assert x == [0] + x[1..33] + x[33..65]; }
  }

  lemma HashesInnerIff(h: Digest, top: Hash, prefix: BitPrefix, left: Hash, right: Hash)
    ensures HashesInner(h, top, prefix, left, right) <==> HashInternal(h, prefix, left, right) == top
  {
    hide InternalPreimage, IsInnerNode;
    forall x ensures IsInnerNode(x, prefix, left, right) <==> x == InternalPreimage(prefix, left, right) {
      InnerLayout(x, prefix, left, right);
    }
  }

  lemma HashesLeafIff(h: Digest, top: Hash, key: Hash, valueHash: Hash)
    ensures HashesLeaf(h, top, key, valueHash) <==> HashLeaf(h, key, valueHash) == top
  {
    hide LeafPreimage, IsLeafNode;
    forall x ensures IsLeafNode(x, key, valueHash) <==> x == LeafPreimage(key, valueHash) {
      LeafLayout(x, key, valueHash);
    }
  }

  lemma RunsAtIff(prefix: BitPrefix, key: Hash, depth: nat)
    ensures RunsAt(prefix, key, depth) <==> PrefixAt(prefix, key, depth)
  {
    hide HasBit, BitSet;
    forall i: nat ensures HasBit(prefix.data, i) <==> BitSet(prefix.data, i) { BitsAreNumbered(prefix.data, i); }
    forall i: nat ensures HasBit(key, i) <==> BitSet(key, i) { BitsAreNumbered(key, i); }
  }

  lemma PassesIff(h: Digest, key: Hash, node: ProofNode, depth: nat, above: Hash, below: Hash)
    ensures Passes(h, key, node, depth, above, below) <==>
      PrefixAt(node.prefix, key, depth) && h(StepPreimage(node, depth, key, below)) == above
  {
    hide HasBit, BitSet, RunsAt, PrefixAt, HashesInner, InternalPreimage;
    RunsAtIff(node.prefix, key, depth);
    BitsAreNumbered(key, depth + node.prefix.size);
    HashesInnerIff(h, above, node.prefix, node.hash, below);
    HashesInnerIff(h, above, node.prefix, below, node.hash);
  }

  lemma {:induction false} LeadsToIff(h: Digest, key: Hash, nodes: seq<ProofNode>, depth: nat, above: Hash, end: nat,
                                      below: Hash)
    ensures LeadsTo(h, key, nodes, depth, above, end, below) <==>
      OnPath(nodes, depth, end, key) && PathHash(h, nodes, depth, key, below) == above
  {
    hide Passes, PrefixAt, StepPreimage;
    if nodes != [] {
      var later := depth + nodes[0].prefix.size + 1;
      var next := PathHash(h, nodes[1..], later, key, below);
      forall other: Hash
        ensures LeadsTo(h, key, nodes[1..], later, other, end, below) <==>
          OnPath(nodes[1..], later, end, key) && other == next
      {
        LeadsToIff(h, key, nodes[1..], later, other, end, below);
      }
      PassesIff(h, key, nodes[0], depth, above, next);
    }
  }

  lemma EndsWithIff(h: Digest, key: Hash, body: ProofBody, depth: nat, bottom: Hash)
    ensures EndsWith(h, key, body, depth, bottom) <==> BodyOk(body, key, depth) && BodyHash(h, body, key) == bottom
  {
    hide HashesInner, HashesLeaf, RunsAt, PrefixAt, InternalPreimage, LeafPreimage;
    match body {
      case Deadend => assert bottom == ZERO_HASH <==> forall i :: 0 <= i < 32 ==> bottom[i] == 0;
      case Short(prefix, left, right) =>
        RunsAtIff(prefix, key, depth);
        HashesInnerIff(h, bottom, prefix, left, right);
      case Collision(other, valueHash) => HashesLeafIff(h, bottom, other, valueHash);
      case Exists(value) => HashesLeafIff(h, bottom, key, h(value));
    }
  }

  /** Sane proofs that open are those accepted octet by octet. */
  lemma AcceptsIff(h: Digest, proof: UrkelProof, root: Hash, key: Hash)
    ensures Accepts(h, proof, root, key) <==> IsSane(proof) && Opens(h, proof, root, key)
  {
    hide EndsWith, LeadsTo, BodyOk, BodyHash, OnPath, PathHash;
    forall bottom: Hash
      ensures EndsWith(h, key, proof.body, proof.depth, bottom) <==>
        BodyOk(proof.body, key, proof.depth) && BodyHash(h, proof.body, key) == bottom
      ensures LeadsTo(h, key, proof.nodes, 0, root, proof.depth, bottom) <==>
        OnPath(proof.nodes, 0, proof.depth, key) && PathHash(h, proof.nodes, 0, key, bottom) == root
    {
      EndsWithIff(h, key, proof.body, proof.depth, bottom);
      LeadsToIff(h, key, proof.nodes, 0, root, proof.depth, bottom);
    }
  }

  /** The smallest tree with two leaves: the value's leaf stands left exactly if the first bit of the key is 0. */
  lemma OneNodeProof(h: Digest, key: Hash, value: Bytes, sibling: Hash, root: Hash)
    requires |value| <= 65535
    ensures var leaf := h([0] + key + h(value));
      var proof := UrkelProof(3, 1, [ProofNode(BitPrefix(0, []), sibling)], Exists(value));
      IsSane(proof) && Opens(h, proof, root, key) <==>
        root == if key[0] < 128 then h([1] + leaf + sibling) else h([1] + sibling + leaf)
  {
    hide HasBit;
    BitsAreNumbered(key, 0);
    var node := ProofNode(BitPrefix(0, []), sibling);
    var leaf := h([0] + key + h(value));
    assert [node][1..] == [];
    assert OnPath([node], 0, 1, key);
    assert PathHash(h, [node], 0, key, leaf) == h(StepPreimage(node, 0, key, leaf));
    assert StepPreimage(node, 0, key, leaf) == if key[0] < 128 then [1] + leaf + sibling else [1] + sibling + leaf;
  }

  /** The verifier accepts exactly the sane proofs whose path leads from the root to their body. */
  method Verify(h: Digest, proof: UrkelProof, root: Hash, key: Hash) returns (ok: bool)
    ensures ok <==> IsSane(proof) && Opens(h, proof, root, key)
    ensures ok <==> Accepts(h, proof, root, key)
  {
    hide Accepts;
    AcceptsIff(h, proof, root, key);
    if !IsSane(proof) {
      return false;
    }
    var leaf: Hash;
    match proof.body {
      case Deadend =>
        leaf := ZERO_HASH;
      case Short(prefix, left, right) =>
        var has := Has(prefix, key, proof.depth);
        if has {
          return false;
        }
        leaf := HashInternal(h, prefix, left, right);
      case Collision(other, valueHash) =>
        if other == key {
          return false;
        }
        leaf := HashLeaf(h, other, valueHash);
      case Exists(value) =>
        leaf := HashValue(h, key, value);
    }

    var top := Climb(h, proof.nodes, proof.depth, key, leaf);
    ok := top == Some(root);
  }

  // ------------------------------------------------- two proofs, and the tree

  /** No two of the octet strings in `s` hash alike, and none of them hashes to the empty-tree hash. */
  ghost predicate CollisionFree(h: Digest, s: set<Bytes>) {
    && (forall x, y :: x in s && y in s && h(x) == h(y) ==> x == y)
    && (forall x :: x in s ==> h(x) != ZERO_HASH)
  }

  /** The octet strings the verifier hashes for the proof's body. */
  ghost function BodyPreimages(h: Digest, body: ProofBody, key: Hash): set<Bytes> {
    match body
    case Deadend => {}
    case Short(prefix, left, right) => {InternalPreimage(prefix, left, right)}
    case Collision(other, valueHash) => {LeafPreimage(other, valueHash)}
    case Exists(value) => {value, LeafPreimage(key, h(value))}
  }

  /** The octet strings the verifier hashes on the way from `leaf` up to `depth`. */
  ghost function PathPreimages(h: Digest, nodes: seq<ProofNode>, depth: nat, key: Hash, leaf: Hash): set<Bytes> {
    if nodes == [] then {}
    else
      var childDepth := depth + nodes[0].prefix.size + 1;
      {StepPreimage(nodes[0], depth, key, PathHash(h, nodes[1..], childDepth, key, leaf))} +
      PathPreimages(h, nodes[1..], childDepth, key, leaf)
  }

  ghost function Preimages(h: Digest, proof: UrkelProof, key: Hash): set<Bytes> {
    BodyPreimages(h, proof.body, key) +
    PathPreimages(h, proof.nodes, 0, key, BodyHash(h, proof.body, key))
  }

  /** Prefix sizes fit the two octets they are hashed as. */
  ghost predicate SizesFit(nodes: seq<ProofNode>, body: ProofBody) {
    && (forall i :: 0 <= i < |nodes| ==> nodes[i].prefix.size < 0x1_0000)
    && (body.Short? ==> body.prefix.size < 0x1_0000)
  }

  lemma TagsDiffer(prefix: BitPrefix, left: Hash, right: Hash, key: Hash, valueHash: Hash)
    ensures InternalPreimage(prefix, left, right) != LeafPreimage(key, valueHash)
  {
    assert InternalPreimage(prefix, left, right)[0] != LeafPreimage(key, valueHash)[0];
  }

  /** Only the same value at the same key hashes like a given leaf. */
  lemma OnlySameValue(h: Digest, value: Bytes, other: ProofBody, key: Hash, depth: nat, s: set<Bytes>)
    requires BodyOk(other, key, depth)
    requires HashValue(h, key, value) == BodyHash(h, other, key)
    requires BodyPreimages(h, Exists(value), key) + BodyPreimages(h, other, key) <= s && CollisionFree(h, s)
    ensures other == Exists(value)
  {
    assert LeafPreimage(key, h(value)) in s && value in s;
    match other {
      case Deadend =>
      case Short(prefix, left, right) => TagsDiffer(prefix, left, right, key, h(value));
      case Collision(k, v) =>
        assert LeafPreimage(k, v) in s;
        LeafPreimageInjective(k, v, key, h(value));
      case Exists(v) =>
        assert LeafPreimage(key, h(v)) in s && v in s;
        LeafPreimageInjective(key, h(v), key, h(value));
    }
  }

  /** A body that contradicts the key's path never hashes like an internal node on that path. */
  lemma BodyIsNoInnerNode(h: Digest, body: ProofBody, key: Hash, depth: nat,
                          node: ProofNode, below: Hash, s: set<Bytes>)
    requires SizesFit([], body) && node.prefix.size < 0x1_0000
    requires BodyOk(body, key, depth) && PrefixAt(node.prefix, key, depth)
    requires BodyPreimages(h, body, key) <= s && StepPreimage(node, depth, key, below) in s && CollisionFree(h, s)
    ensures BodyHash(h, body, key) != h(StepPreimage(node, depth, key, below))
  {
    hide HasBit, InternalPreimage, LeafPreimage;
    var left := if HasBit(key, depth + node.prefix.size) then node.hash else below;
    var right := if HasBit(key, depth + node.prefix.size) then below else node.hash;
    var x := InternalPreimage(node.prefix, left, right);
    match body {
      case Deadend =>
      case Short(p, l, r) =>
        assert InternalPreimage(p, l, r) in s;
        if InternalPreimage(p, l, r) == x { InternalPreimageInjective(p, l, r, node.prefix, left, right); }
      case Collision(k, v) =>
        assert LeafPreimage(k, v) in s;
        TagsDiffer(node.prefix, left, right, k, v);
      case Exists(v) =>
        assert LeafPreimage(key, h(v)) in s;
        TagsDiffer(node.prefix, left, right, key, h(v));
    }
  }

  /** Two bodies at one place that hash alike make one claim. */
  lemma BodiesAgree(h: Digest, body: ProofBody, body': ProofBody, key: Hash, depth: nat, s: set<Bytes>)
    requires BodyOk(body, key, depth) && BodyOk(body', key, depth)
    requires BodyHash(h, body, key) == BodyHash(h, body', key)
    requires BodyPreimages(h, body, key) <= s && BodyPreimages(h, body', key) <= s && CollisionFree(h, s)
    ensures Claim(body) == Claim(body')
  {
    if body.Exists? {
      OnlySameValue(h, body.value, body', key, depth, s);
    } else if body'.Exists? {
      OnlySameValue(h, body'.value, body, key, depth, s);
    }
  }

  lemma StepsAgree(h: Digest, node: ProofNode, node': ProofNode, depth: nat, key: Hash, below: Hash, below': Hash,
                   s: set<Bytes>)
    requires node.prefix.size < 0x1_0000 && node'.prefix.size < 0x1_0000
    requires h(StepPreimage(node, depth, key, below)) == h(StepPreimage(node', depth, key, below'))
    requires StepPreimage(node, depth, key, below) in s && StepPreimage(node', depth, key, below') in s
    requires CollisionFree(h, s)
    ensures node.prefix.size == node'.prefix.size && below == below'
  {
    hide HasBit, InternalPreimage;
    var left := HasBit(key, depth + node.prefix.size);
    var left' := HasBit(key, depth + node'.prefix.size);
    InternalPreimageInjective(node.prefix, if left then node.hash else below, if left then below else node.hash,
                              node'.prefix, if left' then node'.hash else below', if left' then below' else node'.hash);
  }

  /** Two ways down from subtrees with one hash end in bodies with one claim. */
  lemma {:induction false} PathsAgree(h: Digest, key: Hash, depth: nat,
                                      nodes: seq<ProofNode>, body: ProofBody, end: nat,
                                      nodes': seq<ProofNode>, body': ProofBody, end': nat, s: set<Bytes>)
    requires SizesFit(nodes, body) && SizesFit(nodes', body')
    requires BodyOk(body, key, end) && OnPath(nodes, depth, end, key)
    requires BodyOk(body', key, end') && OnPath(nodes', depth, end', key)
    requires PathHash(h, nodes, depth, key, BodyHash(h, body, key)) ==
             PathHash(h, nodes', depth, key, BodyHash(h, body', key))
    requires BodyPreimages(h, body, key) + PathPreimages(h, nodes, depth, key, BodyHash(h, body, key)) <= s
    requires BodyPreimages(h, body', key) + PathPreimages(h, nodes', depth, key, BodyHash(h, body', key)) <= s
    requires CollisionFree(h, s)
    ensures Claim(body) == Claim(body')
    decreases |nodes| + |nodes'|
  {
    hide CollisionFree, StepPreimage, PrefixAt, BodyHash;
    if nodes == [] && nodes' == [] {
      BodiesAgree(h, body, body', key, depth, s);
    } else if nodes != [] && nodes' != [] {
      var size, size' := nodes[0].prefix.size, nodes'[0].prefix.size;
      var below := PathHash(h, nodes[1..], depth + size + 1, key, BodyHash(h, body, key));
      var below' := PathHash(h, nodes'[1..], depth + size' + 1, key, BodyHash(h, body', key));
      StepsAgree(h, nodes[0], nodes'[0], depth, key, below, below', s);
      PathsAgree(h, key, depth + size + 1, nodes[1..], body, end, nodes'[1..], body', end', s);
    } else if nodes == [] {
      PathMeetsBody(h, key, depth, nodes', body', end', body, s);
    } else {
      PathMeetsBody(h, key, depth, nodes, body, end, body', s);
    }
  }

  /** A non-empty path does not hash like a body that sits where the path starts. */
  lemma PathMeetsBody(h: Digest, key: Hash, depth: nat, nodes: seq<ProofNode>, body: ProofBody, end: nat,
                      other: ProofBody, s: set<Bytes>)
    requires nodes != [] && SizesFit(nodes, body) && SizesFit([], other)
    requires OnPath(nodes, depth, end, key) && BodyOk(other, key, depth)
    requires BodyPreimages(h, other, key) + PathPreimages(h, nodes, depth, key, BodyHash(h, body, key)) <= s
    requires CollisionFree(h, s)
    ensures PathHash(h, nodes, depth, key, BodyHash(h, body, key)) != BodyHash(h, other, key)
  {
    BodyIsNoInnerNode(h, other, key, depth, nodes[0],
                      PathHash(h, nodes[1..], depth + nodes[0].prefix.size + 1, key, BodyHash(h, body, key)), s);
  }

  /**
   Agreement. Under one root, two accepted proofs for one key make the same
   claim, unless the octet strings hashed while verifying them hold a collision.
   No root and key admit both inclusion and non-inclusion, or two values.
   */
  lemma AcceptedProofsAgree(h: Digest, root: Hash, key: Hash, a: UrkelProof, b: UrkelProof)
    requires IsSane(a) && Opens(h, a, root, key)
    requires IsSane(b) && Opens(h, b, root, key)
    requires CollisionFree(h, Preimages(h, a, key) + Preimages(h, b, key))
    ensures Claim(a.body) == Claim(b.body)
  {
    PathsAgree(h, key, 0, a.nodes, a.body, a.depth, b.nodes, b.body, b.depth,
               Preimages(h, a, key) + Preimages(h, b, key));
  }

  // ----------------------------------------------------------------- the tree

  datatype Tree = Empty | Leaf(key: Hash, value: Bytes) | Inner(prefix: BitPrefix, left: Tree, right: Tree)

  function TreeHash(h: Digest, t: Tree): Hash {
    match t
    case Empty => ZERO_HASH
    case Leaf(key, value) => HashValue(h, key, value)
    case Inner(prefix, left, right) => HashInternal(h, prefix, TreeHash(h, left), TreeHash(h, right))
  }

  ghost function TreePreimages(h: Digest, t: Tree): set<Bytes> {
    match t
    case Empty => {}
    case Leaf(key, value) => {value, LeafPreimage(key, h(value))}
    case Inner(prefix, left, right) =>
      {InternalPreimage(prefix, TreeHash(h, left), TreeHash(h, right))} +
      TreePreimages(h, left) + TreePreimages(h, right)
  }

  ghost function Lookup(t: Tree, key: Hash, depth: nat): Option<Bytes> {
    match t
    case Empty => None
    case Leaf(k, value) => if k == key then Some(value) else None
    case Inner(prefix, left, right) =>
      if !PrefixAt(prefix, key, depth) then None
      else Lookup(if HasBit(key, depth + prefix.size) then right else left, key, depth + prefix.size + 1)
  }

  ghost predicate TreeSizesFit(t: Tree) {
    t.Inner? ==> t.prefix.size < 0x1_0000 && TreeSizesFit(t.left) && TreeSizesFit(t.right)
  }

  /** No path is longer than a key, and values fit their wire length. */
  ghost predicate TreeFits(t: Tree, depth: nat) {
    match t
    case Empty => depth <= URKEL_BITS
    case Leaf(_, value) => depth <= URKEL_BITS && |value| <= 0xffff
    case Inner(prefix, left, right) =>
      TreeFits(left, depth + prefix.size + 1) && TreeFits(right, depth + prefix.size + 1)
  }

  /** The proof read off the way to `key`: a sibling hash per level, and what the way ends in. */
  ghost function Opening(h: Digest, t: Tree, key: Hash, depth: nat): UrkelProof {
    match t
    case Empty => UrkelProof(TYPE_DEADEND, depth, [], Deadend)
    case Leaf(k, value) =>
      if k == key then UrkelProof(TYPE_EXISTS, depth, [], Exists(value))
      else UrkelProof(TYPE_COLLISION, depth, [], Collision(k, h(value)))
    case Inner(prefix, left, right) =>
      if !PrefixAt(prefix, key, depth) then
        UrkelProof(TYPE_SHORT, depth, [], Short(prefix, TreeHash(h, left), TreeHash(h, right)))
      else
        var bit := HasBit(key, depth + prefix.size);
        var below := Opening(h, if bit then right else left, key, depth + prefix.size + 1);
        below.(nodes := [ProofNode(prefix, TreeHash(h, if bit then left else right))] + below.nodes)
  }

  /** The opening of an inner node on the key's path: one more node above the opening of the child. */
  lemma OpeningStep(h: Digest, t: Tree, key: Hash, depth: nat) returns (child: Tree, below: UrkelProof, node: ProofNode)
    requires t.Inner? && PrefixAt(t.prefix, key, depth)
    ensures child == (if HasBit(key, depth + t.prefix.size) then t.right else t.left)
    ensures node.prefix == t.prefix
    ensures below == Opening(h, child, key, depth + t.prefix.size + 1)
    ensures var p := Opening(h, t, key, depth);
      && p.body == below.body && p.depth == below.depth && p.proofType == below.proofType
      && p.nodes != [] && p.nodes[0] == node && p.nodes[1..] == below.nodes
    ensures StepPreimage(node, depth, key, TreeHash(h, child)) ==
            InternalPreimage(t.prefix, TreeHash(h, t.left), TreeHash(h, t.right))
  {
    hide HasBit, PrefixAt, TreeHash, InternalPreimage;
    var bit := HasBit(key, depth + t.prefix.size);
    child := if bit then t.right else t.left;
    node := ProofNode(t.prefix, TreeHash(h, if bit then t.left else t.right));
    below := Opening(h, child, key, depth + t.prefix.size + 1);
    assert ([node] + below.nodes)[1..] == below.nodes;
  }

  lemma {:induction false} OpeningIsHonest(h: Digest, t: Tree, key: Hash, depth: nat)
    ensures var p := Opening(h, t, key, depth);
      && BodyOk(p.body, key, p.depth)
      && OnPath(p.nodes, depth, p.depth, key)
      && PathHash(h, p.nodes, depth, key, BodyHash(h, p.body, key)) == TreeHash(h, t)
      && Claim(p.body) == Lookup(t, key, depth)
  {
    hide HasBit, PrefixAt, InternalPreimage, StepPreimage, LeafPreimage, BodyOk, BodyHash, Claim;
    if t.Inner? && PrefixAt(t.prefix, key, depth) {
      hide Opening;
      var child, below, node := OpeningStep(h, t, key, depth);
      OpeningIsHonest(h, child, key, depth + t.prefix.size + 1);
    } else {
      OpeningEndIsHonest(h, t, key, depth);
    }
  }

  /** Where the way to a key ends, the opening is the body that says so. */
  lemma OpeningEndIsHonest(h: Digest, t: Tree, key: Hash, depth: nat)
    requires !(t.Inner? && PrefixAt(t.prefix, key, depth))
    ensures var p := Opening(h, t, key, depth);
      && p.nodes == [] && p.depth == depth && BodyOk(p.body, key, depth)
      && BodyHash(h, p.body, key) == TreeHash(h, t) && Claim(p.body) == Lookup(t, key, depth)
  {
    hide HasBit, PrefixAt, InternalPreimage, LeafPreimage;
  }

  lemma {:induction false} OpeningPreimages(h: Digest, t: Tree, key: Hash, depth: nat, s: set<Bytes>)
    requires TreePreimages(h, t) <= s
    ensures var p := Opening(h, t, key, depth);
      && BodyPreimages(h, p.body, key) <= s
      && PathPreimages(h, p.nodes, depth, key, BodyHash(h, p.body, key)) <= s
  {
    hide HasBit, PrefixAt, InternalPreimage, StepPreimage, LeafPreimage;
    if t.Inner? && PrefixAt(t.prefix, key, depth) {
      hide *;
      var child, below, node := OpeningStep(h, t, key, depth);
      var childDepth := depth + t.prefix.size + 1;
      InnerPreimages(h, t, s);
      OpeningPreimages(h, child, key, childDepth, s);
      OpeningHash(h, child, key, childDepth);
      var leaf := BodyHash(h, below.body, key);
      PathPreimagesStep(h, Opening(h, t, key, depth).nodes, node, below.nodes, depth, key, leaf, s);
    }
  }

  lemma OpeningHash(h: Digest, t: Tree, key: Hash, depth: nat)
    ensures var p := Opening(h, t, key, depth);
      PathHash(h, p.nodes, depth, key, BodyHash(h, p.body, key)) == TreeHash(h, t)
  {
    hide *;
    OpeningIsHonest(h, t, key, depth);
  }

  lemma InnerPreimages(h: Digest, t: Tree, s: set<Bytes>)
    requires t.Inner? && TreePreimages(h, t) <= s
    ensures TreePreimages(h, t.left) <= s && TreePreimages(h, t.right) <= s
    ensures InternalPreimage(t.prefix, TreeHash(h, t.left), TreeHash(h, t.right)) in s
  {
  }

  lemma PathPreimagesStep(h: Digest, nodes: seq<ProofNode>, node: ProofNode, rest: seq<ProofNode>,
                          depth: nat, key: Hash, leaf: Hash, s: set<Bytes>)
    requires nodes != [] && nodes[0] == node && nodes[1..] == rest
    requires var childDepth := depth + node.prefix.size + 1;
      && StepPreimage(node, depth, key, PathHash(h, rest, childDepth, key, leaf)) in s
      && PathPreimages(h, rest, childDepth, key, leaf) <= s
    ensures PathPreimages(h, nodes, depth, key, leaf) <= s
  {
    hide StepPreimage, PathHash;
  }

  lemma {:induction false} OpeningSizesFit(h: Digest, t: Tree, key: Hash, depth: nat)
    requires TreeSizesFit(t)
    ensures SizesFit(Opening(h, t, key, depth).nodes, Opening(h, t, key, depth).body)
  {
    hide HasBit, PrefixAt, TreeHash;
    if t.Inner? && PrefixAt(t.prefix, key, depth) {
      hide Opening;
      var child, below, node := OpeningStep(h, t, key, depth);
      OpeningSizesFit(h, child, key, depth + t.prefix.size + 1);
      var p := Opening(h, t, key, depth);
      assert forall i :: 0 < i < |p.nodes| ==> p.nodes[i] == p.nodes[1..][i - 1];
    }
  }

  lemma {:induction false} OpeningFits(h: Digest, t: Tree, key: Hash, depth: nat)
    requires TreeFits(t, depth)
    ensures var p := Opening(h, t, key, depth); IsSane(p) && depth + |p.nodes| <= p.depth
  {
    hide HasBit, PrefixAt;
    if t.Inner? && PrefixAt(t.prefix, key, depth) {
      hide Opening;
      TreeFitsDepth(t.left, depth + t.prefix.size + 1);
      var child, below, node := OpeningStep(h, t, key, depth);
      OpeningFits(h, child, key, depth + t.prefix.size + 1);
      var p := Opening(h, t, key, depth);
      assert forall i :: 0 < i < |p.nodes| ==> p.nodes[i] == p.nodes[1..][i - 1];
    } else {
      OpeningEndFits(h, t, key, depth);
    }
  }

  lemma OpeningEndFits(h: Digest, t: Tree, key: Hash, depth: nat)
    requires TreeFits(t, depth) && !(t.Inner? && PrefixAt(t.prefix, key, depth))
    ensures var p := Opening(h, t, key, depth); IsSane(p) && p.nodes == [] && p.depth == depth
  {
    hide HasBit;
    if t.Inner? { TreeFitsDepth(t.left, depth + t.prefix.size + 1); }
  }

  lemma {:induction false} TreeFitsDepth(t: Tree, depth: nat)
    ensures TreeFits(t, depth) ==> depth <= URKEL_BITS
  {
    if t.Inner? {
      TreeFitsDepth(t.left, depth + t.prefix.size + 1);
    }
  }

  /** Completeness: the honest proof is accepted, and claims what the tree holds. */
  lemma HonestProofAccepted(h: Digest, t: Tree, key: Hash)
    requires TreeFits(t, 0)
    ensures var p := Opening(h, t, key, 0);
      IsSane(p) && Opens(h, p, TreeHash(h, t), key) && Claim(p.body) == Lookup(t, key, 0)
  {
    OpeningIsHonest(h, t, key, 0);
    OpeningFits(h, t, key, 0);
  }

  /** Soundness: an accepted proof claims exactly what the committed tree holds at the key. */
  lemma AcceptedProofIsTrue(h: Digest, t: Tree, key: Hash, p: UrkelProof)
    requires TreeSizesFit(t)
    requires IsSane(p) && Opens(h, p, TreeHash(h, t), key)
    requires CollisionFree(h, Preimages(h, p, key) + TreePreimages(h, t))
    ensures Claim(p.body) == Lookup(t, key, 0)
  {
    var honest := Opening(h, t, key, 0);
    OpeningIsHonest(h, t, key, 0);
    OpeningSizesFit(h, t, key, 0);
    var s := Preimages(h, p, key) + TreePreimages(h, t);
    OpeningPreimages(h, t, key, 0, s);
    PathsAgree(h, key, 0, p.nodes, p.body, p.depth, honest.nodes, honest.body, honest.depth, s);
  }

  // ------------------------------------------------------- what a tree contains

  ghost function Leaves(t: Tree): set<(Hash, Bytes)> {
    match t
    case Empty => {}
    case Leaf(key, value) => {(key, value)}
    case Inner(_, left, right) => Leaves(left) + Leaves(right)
  }

  /** Every leaf hangs where its own key leads. */
  ghost predicate Placed(t: Tree, depth: nat) {
    t.Inner? ==>
      && (forall e :: e in Leaves(t.left) ==> PrefixAt(t.prefix, e.0, depth) && !HasBit(e.0, depth + t.prefix.size))
      && (forall e :: e in Leaves(t.right) ==> PrefixAt(t.prefix, e.0, depth) && HasBit(e.0, depth + t.prefix.size))
      && Placed(t.left, depth + t.prefix.size + 1)
      && Placed(t.right, depth + t.prefix.size + 1)
  }

  lemma {:induction false} LookupFindsLeaves(t: Tree, key: Hash, depth: nat)
    requires Placed(t, depth)
    ensures forall value :: Lookup(t, key, depth) == Some(value) <==> (key, value) in Leaves(t)
  {
    if t.Inner? {
      LookupFindsLeaves(t.left, key, depth + t.prefix.size + 1);
      LookupFindsLeaves(t.right, key, depth + t.prefix.size + 1);
    }
  }

  /** In a tree whose leaves hang in place, an accepted proof of inclusion names a leaf of it, and an accepted
      proof of absence rules out every leaf at the key. */
  lemma AcceptedProofDecidesMembership(h: Digest, t: Tree, key: Hash, p: UrkelProof)
    requires TreeSizesFit(t) && Placed(t, 0)
    requires IsSane(p) && Opens(h, p, TreeHash(h, t), key)
    requires CollisionFree(h, Preimages(h, p, key) + TreePreimages(h, t))
    ensures forall value :: Claim(p.body) == Some(value) <==> (key, value) in Leaves(t)
  {
    AcceptedProofIsTrue(h, t, key, p);
    LookupFindsLeaves(t, key, 0);
  }
}
