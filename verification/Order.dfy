/** Three-way comparison, the octet order, and rings over an ordered list. */
module Order {
  import opened Bytes

  datatype Ordering = Less | Equal | Greater {
    function Flip(): Ordering {
      match this case Less => Greater case Equal => Equal case Greater => Less
    }
  }

  /** Octet strings compared octet by octet, a proper prefix coming first. */
  function CompareBytes(a: Bytes, b: Bytes): Ordering {
    if a == [] && b == [] then Equal
    else if a == [] then Less
    else if b == [] then Greater
    else if a[0] < b[0] then Less
    else if b[0] < a[0] then Greater
    else CompareBytes(a[1..], b[1..])
  }

  lemma {:induction false} CompareBytesFlip(a: Bytes, b: Bytes)
    ensures CompareBytes(b, a) == CompareBytes(a, b).Flip()
    ensures CompareBytes(a, b) == Equal <==> a == b
  {
    if a != [] && b != [] {
      CompareBytesFlip(a[1..], b[1..]);
      assert a == [a[0]] + a[1..] && b == [b[0]] + b[1..];
    }
  }

  lemma {:induction false} CompareBytesTransitive(a: Bytes, b: Bytes, c: Bytes)
    requires CompareBytes(a, b) == Less && CompareBytes(b, c) == Less
    ensures CompareBytes(a, c) == Less
  {
    if a != [] && a[0] == b[0] == c[0] {
      CompareBytesTransitive(a[1..], b[1..], c[1..]);
    }
  }

  /** Lists compared from their last element back, element by element; a proper suffix comes first. */
  function CompareFromEnd(a: seq<Bytes>, b: seq<Bytes>): Ordering {
    if a == [] && b == [] then Equal
    else if a == [] then Less
    else if b == [] then Greater
    else
      var last := CompareBytes(a[|a| - 1], b[|b| - 1]);
      if last != Equal then last else CompareFromEnd(a[..|a| - 1], b[..|b| - 1])
  }

  lemma {:induction false} CompareFromEndFlip(a: seq<Bytes>, b: seq<Bytes>)
    ensures CompareFromEnd(b, a) == CompareFromEnd(a, b).Flip()
    ensures CompareFromEnd(a, b) == Equal <==> a == b
  {
    if a != [] && b != [] {
      CompareBytesFlip(a[|a| - 1], b[|b| - 1]);
      CompareFromEndFlip(a[..|a| - 1], b[..|b| - 1]);
      assert a == a[..|a| - 1] + [a[|a| - 1]] && b == b[..|b| - 1] + [b[|b| - 1]];
    }
  }

  lemma {:induction false} CompareFromEndTransitive(a: seq<Bytes>, b: seq<Bytes>, c: seq<Bytes>)
    requires CompareFromEnd(a, b) == Less && CompareFromEnd(b, c) == Less
    ensures CompareFromEnd(a, c) == Less
  {
    if a != [] {
      var x, y, z := a[|a| - 1], b[|b| - 1], c[|c| - 1];
      CompareBytesFlip(x, y);
      CompareBytesFlip(y, z);
      CompareBytesFlip(x, z);
      if x == y && y == z {
        CompareFromEndTransitive(a[..|a| - 1], b[..|b| - 1], c[..|c| - 1]);
      } else if x != y && y != z {
        CompareBytesTransitive(x, y, z);
      }
    }
  }

  // -------------------------------------------------------------------- rings

  /** The strings agree up to place `k`; there `a` has ended, or has the smaller octet. */
  ghost predicate SmallerAt(a: Bytes, b: Bytes, k: nat) {
    k <= |a| && k < |b| && (forall i :: 0 <= i < k ==> a[i] == b[i]) && (k == |a| || a[k] < b[k])
  }

  ghost predicate Precedes(a: Bytes, b: Bytes) {
    exists k: nat :: SmallerAt(a, b, k)
  }

  ghost function FromEnd(a: seq<Bytes>, i: nat): Bytes
    requires i < |a|
  {
    a[|a| - 1 - i]
  }

  /** The same for names, label by label from the last one. */
  ghost predicate SmallerFromEnd(a: seq<Bytes>, b: seq<Bytes>, k: nat) {
    && k <= |a| && k < |b| && (forall i: nat :: i < k ==> FromEnd(a, i) == FromEnd(b, i))
    && (k == |a| || Precedes(FromEnd(a, k), FromEnd(b, k)))
  }

  lemma OneLabelLess(a: seq<Bytes>, b: seq<Bytes>, k: nat)
    requires a != [] && b != [] && a[|a| - 1] == b[|b| - 1]
    ensures SmallerFromEnd(a, b, k + 1) <==> SmallerFromEnd(a[..|a| - 1], b[..|b| - 1], k)
  {
    hide Precedes;
    var c, d := a[..|a| - 1], b[..|b| - 1];
    assert FromEnd(a, 0) == FromEnd(b, 0);
    forall i: nat | i < |c| ensures FromEnd(a, i + 1) == FromEnd(c, i) {}
    forall i: nat | i < |d| ensures FromEnd(b, i + 1) == FromEnd(d, i) {}
    if SmallerFromEnd(c, d, k) {
      forall i: nat | i < k + 1 ensures FromEnd(a, i) == FromEnd(b, i) {
        if i > 0 { assert FromEnd(c, i - 1) == FromEnd(d, i - 1); }
      }
    }
    if SmallerFromEnd(a, b, k + 1) {
      forall i: nat | i < k ensures FromEnd(c, i) == FromEnd(d, i) {
        assert FromEnd(a, i + 1) == FromEnd(b, i + 1);
      }
    }
  }

  lemma {:induction false} LessIsSomewhere(a: Bytes, b: Bytes) returns (k: nat)
    requires CompareBytes(a, b) == Less
    ensures SmallerAt(a, b, k)
  {
    k := 0;
    if a != [] && a[0] == b[0] {
      k := LessIsSomewhere(a[1..], b[1..]);
      assert forall i :: 0 < i < k + 1 ==> a[i] == a[1..][i - 1] && b[i] == b[1..][i - 1];
      k := k + 1;
    }
  }

  lemma {:induction false} SomewhereIsLess(a: Bytes, b: Bytes, k: nat)
    requires SmallerAt(a, b, k)
    ensures CompareBytes(a, b) == Less
    decreases k
  {
    if k > 0 { SomewhereIsLess(a[1..], b[1..], k - 1); }
  }

  /** Octets compare by the first place where they differ, the shorter of two strings first if there is none. */
  lemma OctetOrderIs(a: Bytes, b: Bytes)
    ensures CompareBytes(a, b) == Less <==> Precedes(a, b)
  {
    hide SmallerAt;
    if CompareBytes(a, b) == Less { var k := LessIsSomewhere(a, b); }
    if k: nat :| SmallerAt(a, b, k) { SomewhereIsLess(a, b, k); }
  }

  lemma {:induction false} LessFromEndIsSomewhere(a: seq<Bytes>, b: seq<Bytes>) returns (k: nat)
    requires CompareFromEnd(a, b) == Less
    ensures SmallerFromEnd(a, b, k)
  {
    hide CompareBytes, Precedes;
    k := 0;
    if a != [] {
      var x, y := a[|a| - 1], b[|b| - 1];
      CompareBytesFlip(x, y);
      OctetOrderIs(x, y);
      if x == y {
        k := LessFromEndIsSomewhere(a[..|a| - 1], b[..|b| - 1]);
        OneLabelLess(a, b, k);
        k := k + 1;
      }
    }
  }

  lemma {:induction false} SomewhereIsLessFromEnd(a: seq<Bytes>, b: seq<Bytes>, k: nat)
    requires SmallerFromEnd(a, b, k)
    ensures CompareFromEnd(a, b) == Less
    decreases k
  {
    hide CompareBytes, Precedes;
    if a != [] {
      var x, y := a[|a| - 1], b[|b| - 1];
      CompareBytesFlip(x, y);
      OctetOrderIs(x, y);
      if k > 0 {
        assert x == FromEnd(a, 0) == FromEnd(b, 0);
        OneLabelLess(a, b, k - 1);
        SomewhereIsLessFromEnd(a[..|a| - 1], b[..|b| - 1], k - 1);
      }
    }
  }

  /** Canonical order (section 6.1 of RFC 4034): by the first label from the end that differs, or by length. */
  lemma CanonicalOrderIs(a: seq<Bytes>, b: seq<Bytes>)
    ensures CompareFromEnd(a, b) == Less <==> exists k: nat :: SmallerFromEnd(a, b, k)
  {
    hide SmallerFromEnd;
    if CompareFromEnd(a, b) == Less { var k := LessFromEndIsSomewhere(a, b); }
    if k: nat :| SmallerFromEnd(a, b, k) { SomewhereIsLessFromEnd(a, b, k); }
  }

  ghost predicate StrictTotalOrder<T(!new)>(lt: (T, T) -> bool) {
    && (forall x, y :: lt(x, y) ==> !lt(y, x) && x != y)
    && (forall x, y :: x == y || lt(x, y) || lt(y, x))
    && (forall x, y, z :: lt(x, y) && lt(y, z) ==> lt(x, z))
  }

  /** `query` lies on the open arc from `owner` round to `next`. */
  ghost predicate OnArc<T>(lt: (T, T) -> bool, owner: T, next: T, query: T) {
    query != owner &&
    if lt(owner, next) then lt(owner, query) && lt(query, next)
    else if lt(next, owner) then lt(owner, query) || lt(query, next)
    else true
  }

  ghost predicate StrictlySorted<T>(lt: (T, T) -> bool, ring: seq<T>) {
    forall i, j :: 0 <= i < j < |ring| ==> lt(ring[i], ring[j])
  }

  /** The element after `ring[i]`, the first one after the last. */
  function After<T>(ring: seq<T>, i: nat): T
    requires i < |ring|
  {
    if i + 1 < |ring| then ring[i + 1] else ring[0]
  }

  /** A sorted list has a first place whose element is not before `query`. */
  lemma {:induction false} FindGap<T(!new)>(lt: (T, T) -> bool, ring: seq<T>, query: T, lo: nat, hi: nat)
    returns (i: nat)
    requires StrictTotalOrder(lt) && lo < hi < |ring| && query !in ring
    requires lt(ring[lo], query) && lt(query, ring[hi])
    ensures lo <= i < hi && lt(ring[i], query) && lt(query, ring[i + 1])
    decreases hi - lo
  {
    if lo + 1 == hi {
      i := lo;
    } else if lt(ring[lo + 1], query) {
      i := FindGap(lt, ring, query, lo + 1, hi);
    } else {
      i := lo;
    }
  }

  /** An element of the ring lies on no arc; anything else lies on exactly one. */
  lemma RingPartition<T(!new)>(lt: (T, T) -> bool, ring: seq<T>, query: T) returns (at: nat)
    requires StrictTotalOrder(lt) && ring != [] && StrictlySorted(lt, ring)
    ensures query in ring ==> forall i :: 0 <= i < |ring| ==> !OnArc(lt, ring[i], After(ring, i), query)
    ensures query !in ring ==>
      at < |ring| && forall i :: 0 <= i < |ring| ==> (OnArc(lt, ring[i], After(ring, i), query) <==> i == at)
  {
    var n := |ring|;
    if query in ring {
      at := 0;
      var k :| 0 <= k < n && ring[k] == query;
      forall i | 0 <= i < n
        ensures !OnArc(lt, ring[i], After(ring, i), query)
      {
        if i + 1 < n {
          assert k <= i || i + 1 <= k;
        }
      }
    } else {
      if lt(query, ring[0]) || lt(ring[n - 1], query) {
        at := n - 1;
      } else {
        assert n > 1;
        at := FindGap(lt, ring, query, 0, n - 1);
      }
      forall i | 0 <= i < n
        ensures OnArc(lt, ring[i], After(ring, i), query) <==> i == at
      {
        assert i == n - 1 || i == at || i < at || at + 1 <= i;
        assert i == 0 || lt(ring[0], ring[i]);
        assert i == n - 1 || lt(ring[i], ring[n - 1]);
      }
    }
  }

  /** `next` is the nearest element of `ring` after `owner`, or its least if there is none. */
  ghost predicate IsSuccessor<T>(lt: (T, T) -> bool, ring: set<T>, owner: T, next: T) {
    && owner in ring && next in ring
    && if exists x :: x in ring && lt(owner, x)
       then lt(owner, next) && forall x :: x in ring && lt(owner, x) ==> !lt(x, next)
       else forall x :: x in ring ==> !lt(x, next)
  }

  /** Nothing in the ring lies on the arc between neighbours. */
  lemma ArcIsEmpty<T(!new)>(lt: (T, T) -> bool, ring: set<T>, owner: T, next: T, query: T)
    requires StrictTotalOrder(lt) && IsSuccessor(lt, ring, owner, next)
    requires OnArc(lt, owner, next, query)
    ensures query !in ring
  {
    assert lt(owner, query) || lt(query, owner);
  }

  /** In a sorted list closed into a ring, neighbours are successors. */
  lemma NeighboursAreSuccessors<T(!new)>(lt: (T, T) -> bool, ring: seq<T>, i: nat)
    requires StrictTotalOrder(lt) && StrictlySorted(lt, ring) && i < |ring|
    ensures IsSuccessor(lt, (set x | x in ring), ring[i], After(ring, i))
  {
    forall x | x in ring
      ensures exists k :: 0 <= k < |ring| && ring[k] == x && (k <= i ==> !lt(ring[i], x)) && !lt(x, ring[0])
    {
      var k :| 0 <= k < |ring| && ring[k] == x;
    }
    if i + 1 < |ring| {
      assert ring[i + 1] in (set x | x in ring) && lt(ring[i], ring[i + 1]);
    }
  }

  function BytesBefore(): (Bytes, Bytes) -> bool {
    (a: Bytes, b: Bytes) => CompareBytes(a, b) == Less
  }

  lemma BytesAreOrdered()
    ensures StrictTotalOrder(BytesBefore())
  {
    var lt := BytesBefore();
    forall x, y ensures (lt(x, y) ==> !lt(y, x) && x != y) && (x == y || lt(x, y) || lt(y, x)) {
      CompareBytesFlip(x, y);
    }
    forall x, y, z | lt(x, y) && lt(y, z) ensures lt(x, z) {
      CompareBytesTransitive(x, y, z);
    }
  }

  function NamesBefore(): (seq<Bytes>, seq<Bytes>) -> bool {
    (a: seq<Bytes>, b: seq<Bytes>) => CompareFromEnd(a, b) == Less
  }

  lemma NamesAreOrdered()
    ensures StrictTotalOrder(NamesBefore())
  {
    var lt := NamesBefore();
    forall x, y ensures (lt(x, y) ==> !lt(y, x) && x != y) && (x == y || lt(x, y) || lt(y, x)) {
      CompareFromEndFlip(x, y);
    }
    forall x, y, z | lt(x, y) && lt(y, z) ensures lt(x, z) {
      CompareFromEndTransitive(x, y, z);
    }
  }
}
