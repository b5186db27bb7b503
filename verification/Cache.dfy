/** The resolver's cache: least recently used entries go first, expired ones before all. */
module Cache {
  import opened Bytes

  datatype Entry<V> = Entry(value: V, expiresAt: int)

  /** The cache as a value: capacity, entries, and keys from least to most recently used. */
  datatype Model<K(==), V> = Model(max: nat, entries: map<K, Entry<V>>, order: seq<K>)

  function Filter<T>(s: seq<T>, keep: T -> bool): seq<T> {
    if s == [] then [] else (if keep(s[0]) then [s[0]] else []) + Filter(s[1..], keep)
  }

  function Elements<T(==)>(s: seq<T>): set<T> {
    set x | x in s
  }

  ghost predicate NoDup<T>(s: seq<T>) {
    forall i, j :: 0 <= i < j < |s| ==> s[i] != s[j]
  }

  // ------------------------------------------------------------- operations

  function Live<K, V>(entries: map<K, Entry<V>>, now: int): map<K, Entry<V>> {
    map k | k in entries && entries[k].expiresAt > now :: entries[k]
  }

  function Prune<K, V>(c: Model<K, V>, now: int): Model<K, V> {
    var live := Live(c.entries, now);
    c.(entries := live, order := Filter(c.order, k => k in live))
  }

  function Without<K(==)>(order: seq<K>, key: K): seq<K> {
    Filter(order, k => k != key)
  }

  /** Make `key` the most recently used one. */
  function Touch<K(==), V>(c: Model<K, V>, key: K): Model<K, V> {
    c.(order := Without(c.order, key) + [key])
  }

  /** File an entry as the most recently used one. */
  function Add<K, V>(c: Model<K, V>, key: K, e: Entry<V>): Model<K, V> {
    Touch(c, key).(entries := c.entries[key := e])
  }

  function Evict<K, V>(c: Model<K, V>): Model<K, V>
    decreases |c.order|
  {
    if |c.entries| <= c.max || c.order == [] then c
    else Evict(c.(entries := c.entries - {c.order[0]}, order := c.order[1..]))
  }

  /** `now` is the clock when expired entries are pruned, `then_` its next reading, from which the entry lives on. */
  function Insert<K, V>(c: Model<K, V>, key: K, value: V, ttl: nat, now: int, then_: int): Model<K, V> {
    Evict(Add(Prune(c, now), key, Entry(value, then_ + ttl)))
  }

  function Get<K, V>(c: Model<K, V>, key: K, now: int): (Model<K, V>, Option<V>) {
    var pruned := Prune(c, now);
    if key in pruned.entries then (Touch(pruned, key), Some(pruned.entries[key].value)) else (pruned, None)
  }

  function Clear<K, V>(c: Model<K, V>): Model<K, V> {
    c.(entries := map[], order := [])
  }

  // --------------------------------------------------------------- invariant

  /** Every key is listed once, the list holds the keys of the entries, and capacity is respected. */
  ghost predicate Inv<K, V>(c: Model<K, V>) {
    Listed(c) && |c.entries| <= c.max
  }

  ghost predicate Listed<K, V>(c: Model<K, V>) {
    NoDup(c.order) && Elements(c.order) == c.entries.Keys
  }

  lemma {:induction false} FilterMembers<T>(s: seq<T>, keep: T -> bool)
    ensures forall x :: x in Filter(s, keep) <==> x in s && keep(x)
    ensures NoDup(s) ==> NoDup(Filter(s, keep))
  {
    if s != [] {
      FilterMembers(s[1..], keep);
      assert s == [s[0]] + s[1..];
    }
  }

  lemma {:induction false} DistinctCount<T>(s: seq<T>)
    requires NoDup(s)
    ensures |Elements(s)| == |s|
  {
    if s != [] {
      DistinctCount(s[1..]);
      assert Elements(s) == {s[0]} + Elements(s[1..]);
    }
  }

  lemma ListedCount<K, V>(c: Model<K, V>)
    requires Listed(c)
    ensures |c.entries| == |c.order|
  {
    DistinctCount(c.order);
    assert |c.entries| == |c.entries.Keys|;
  }

  lemma SubsetCount<T>(a: set<T>, b: set<T>)
    requires a <= b
    ensures |a| <= |b| && |b - a| == |b| - |a|
  {
    assert b == a + (b - a);
  }

  lemma PruneKeepsInv<K, V>(c: Model<K, V>, now: int)
    requires Inv(c)
    ensures Inv(Prune(c, now))
  {
    var live := Live(c.entries, now);
    assert |live| <= |c.entries| by {
      SubsetCount(live.Keys, c.entries.Keys);
      assert |live| == |live.Keys| && |c.entries| == |c.entries.Keys|;
    }
    FilterElements(c.order, k => k in live, live.Keys);
  }

  lemma FilterElements<T>(s: seq<T>, keep: T -> bool, kept: set<T>)
    requires NoDup(s) && kept <= Elements(s)
    requires forall x :: x in s ==> (keep(x) <==> x in kept)
    ensures NoDup(Filter(s, keep)) && Elements(Filter(s, keep)) == kept
  {
    FilterMembers(s, keep);
    var kept' := Elements(Filter(s, keep));
    forall x | x in kept ensures x in kept' { assert x in Elements(s); }
    forall x | x in kept' ensures x in kept { assert x in Filter(s, keep); }
  }

  lemma TouchKeepsListed<K, V>(c: Model<K, V>, key: K, e: Entry<V>)
    requires Listed(c)
    ensures Listed(Add(c, key, e)) && (key in c.entries ==> Listed(Touch(c, key)))
  {
    FilterMembers(c.order, k => k != key);
    var order := Touch(c, key).order;
    assert Elements(order) == c.entries.Keys + {key};
  }

  /** With one entry too many the oldest goes; otherwise all stay. */
  lemma EvictOnce<K, V>(c: Model<K, V>)
    requires Listed(c) && |c.entries| <= c.max + 1
    ensures Inv(Evict(c))
    ensures |c.entries| <= c.max ==> Evict(c) == c
    ensures |c.entries| > c.max ==>
      c.order != [] && Evict(c) == c.(entries := c.entries - {c.order[0]}, order := c.order[1..])
  {
    ListedCount(c);
    if |c.entries| > c.max {
      var d := c.(entries := c.entries - {c.order[0]}, order := c.order[1..]);
      assert Elements(d.order) == Elements(c.order) - {c.order[0]};
      ListedCount(d);
    }
  }

  lemma InsertKeepsInv<K, V>(c: Model<K, V>, key: K, value: V, ttl: nat, now: int, then_: int)
    requires Inv(c)
    ensures Inv(Insert(c, key, value, ttl, now, then_))
  {
    PruneKeepsInv(c, now);
    var pruned := Prune(c, now);
    var e := Entry(value, then_ + ttl);
    TouchKeepsListed(pruned, key, e);
    AtMostOneMore(pruned.entries, key, e);
    EvictOnce(Add(pruned, key, e));
  }

  lemma AtMostOneMore<K, V>(m: map<K, V>, key: K, v: V)
    ensures |m[key := v]| == if key in m then |m| else |m| + 1
  {
    assert m[key := v].Keys == m.Keys + {key};
    assert |m[key := v]| == |m[key := v].Keys| && |m| == |m.Keys|;
  }

  lemma GetKeepsInv<K, V>(c: Model<K, V>, key: K, now: int)
    requires Inv(c)
    ensures Inv(Get(c, key, now).0)
  {
    PruneKeepsInv(c, now);
    var pruned := Prune(c, now);
    if key in pruned.entries { TouchKeepsListed(pruned, key, pruned.entries[key]); }
  }

  // --------------------------------------------------------------- inclusion

  /** `a` is `b` with some elements left out. */
  ghost predicate Subsequence<T>(a: seq<T>, b: seq<T>) {
    a == [] || (b != [] && (if a[0] == b[0] then Subsequence(a[1..], b[1..]) else Subsequence(a, b[1..])))
  }

  /** Everything the small cache holds, the large one holds too, in the same relative order; and it has at least as
      much room left. */
  ghost predicate Within<K, V>(small: Model<K, V>, large: Model<K, V>) {
    && small.max <= large.max
    && Carries(small, large)
    && large.max - |large.entries| >= small.max - |small.entries|
  }

  ghost predicate Carries<K, V>(small: Model<K, V>, large: Model<K, V>) {
    && (forall k :: k in small.entries ==> k in large.entries && large.entries[k] == small.entries[k])
    && Subsequence(small.order, large.order)
  }

  lemma {:induction false} SubsequenceMembers<T>(a: seq<T>, b: seq<T>)
    requires Subsequence(a, b)
    ensures forall x :: x in a ==> x in b
  {
    if a != [] {
      assert a == [a[0]] + a[1..] && b == [b[0]] + b[1..];
      SubsequenceMembers(if a[0] == b[0] then a[1..] else a, b[1..]);
    }
  }

  lemma {:induction false} SubsequenceTail<T>(a: seq<T>, b: seq<T>)
    requires a != [] && Subsequence(a, b)
    ensures Subsequence(a[1..], b)
    decreases |b|
  {
    if a[0] == b[0] {
      if |a| > 1 {
        if a[1] == b[0] { SubsequenceTail(a[1..], b[1..]); }
      }
    } else {
      SubsequenceTail(a, b[1..]);
      if |a| > 1 && a[1] == b[0] { SubsequenceTail(a[1..], b[1..]); }
    }
  }

  lemma {:induction false} SubsequenceFilter<T>(a: seq<T>, b: seq<T>, keep: T -> bool, keep': T -> bool)
    requires Subsequence(a, b)
    requires forall x :: x in a ==> keep(x) == keep'(x)
    ensures Subsequence(Filter(a, keep), Filter(b, keep'))
    decreases |b|
  {
    if a != [] {
      if a[0] == b[0] {
        SubsequenceFilter(a[1..], b[1..], keep, keep');
        var fa, fb := Filter(a[1..], keep), Filter(b[1..], keep');
        assert ([a[0]] + fa)[1..] == fa && ([b[0]] + fb)[1..] == fb && [] + fa == fa && [] + fb == fb;
      } else {
        SubsequenceFilter(a, b[1..], keep, keep');
        SubsequenceSkip(Filter(a, keep), Filter(b[1..], keep'), b[0]);
      }
    }
  }

  lemma {:induction false} FilterIsSubsequence<T>(s: seq<T>, keep: T -> bool)
    ensures Subsequence(Filter(s, keep), s)
  {
    if s != [] {
      FilterIsSubsequence(s[1..], keep);
      if keep(s[0]) {
        assert Filter(s, keep)[1..] == Filter(s[1..], keep);
      } else {
        SubsequenceSkip(Filter(s[1..], keep), s[1..], s[0]);
        assert s == [s[0]] + s[1..] && Filter(s, keep) == Filter(s[1..], keep);
      }
    }
  }

  lemma SubsequenceSkip<T>(a: seq<T>, b: seq<T>, x: T)
    requires Subsequence(a, b)
    ensures Subsequence(a, [x] + b)
    ensures Subsequence(a, b) ==> Subsequence(a, [] + b)
  {
    assert ([x] + b)[1..] == b && [] + b == b;
    if a != [] && a[0] == x { SubsequenceTail(a, b); }
  }

  lemma {:induction false} SubsequenceSnoc<T>(a: seq<T>, b: seq<T>, x: T)
    requires Subsequence(a, b)
    ensures Subsequence(a, b + [x]) && Subsequence(a + [x], b + [x])
    decreases |b|
  {
    if b != [] {
      assert (b + [x])[1..] == b[1..] + [x];
      if a != [] {
        assert (a + [x])[1..] == a[1..] + [x];
        SubsequenceSnoc(if a[0] == b[0] then a[1..] else a, b[1..], x);
      } else {
        SubsequenceSnoc([], b[1..], x);
        assert ([] + [x])[1..] == [];
      }
    } else {
      assert a + [x] == [x] && b + [x] == [x];
    }
  }

  lemma PruneWithin<K, V>(small: Model<K, V>, large: Model<K, V>, now: int)
    requires Inv(small) && Inv(large) && Within(small, large)
    ensures Within(Prune(small, now), Prune(large, now))
  {
    var liveS, liveL := Live(small.entries, now), Live(large.entries, now);
    SubsequenceFilter(small.order, large.order, k => k in liveS, k => k in liveL);
    SubsetCount(liveS.Keys, small.entries.Keys);
    SubsetCount(liveL.Keys, large.entries.Keys);
    SubsetCount(small.entries.Keys - liveS.Keys, large.entries.Keys - liveL.Keys);
    assert |liveS| == |liveS.Keys| && |small.entries| == |small.entries.Keys|;
    assert |liveL| == |liveL.Keys| && |large.entries| == |large.entries.Keys|;
  }

  lemma TouchBothWithin<K, V>(small: Model<K, V>, large: Model<K, V>, key: K)
    requires Listed(small) && Listed(large) && Carries(small, large)
    ensures Subsequence(Touch(small, key).order, Touch(large, key).order)
  {
    SubsequenceFilter(small.order, large.order, k => k != key, k => k != key);
    SubsequenceSnoc(Without(small.order, key), Without(large.order, key), key);
  }

  lemma {:induction false} FilterAll<T>(s: seq<T>, keep: T -> bool)
    requires forall x :: x in s ==> keep(x)
    ensures Filter(s, keep) == s
  {
    if s != [] {
      FilterAll(s[1..], keep);
      assert s == [s[0]] + s[1..];
    }
  }

  lemma EvictWithin<K, V>(small: Model<K, V>, large: Model<K, V>)
    requires Listed(small) && Listed(large) && Carries(small, large) && small.max <= large.max
    requires |small.entries| <= small.max + 1 && |large.entries| <= large.max + 1
    requires |large.entries| > large.max ==> |small.entries| > small.max
    requires |small.entries| <= small.max ==>
      large.max - |large.entries| >= small.max - |small.entries|
    ensures Within(Evict(small), Evict(large))
  {
    EvictOnce(small);
    EvictOnce(large);
    ListedCount(small);
    ListedCount(large);
    if |small.entries| > small.max {
      SubsequenceTail(small.order, large.order);
      ListedCount(Evict(small));
      ListedCount(Evict(large));
      if |large.entries| > large.max {
        DropBoth(small.order, large.order);
        SubsequenceMembers(small.order[1..], large.order[1..]);
      }
    }
  }

  /** Dropping both heads keeps the relation: the head of the longer list can only match the head of the shorter. */
  lemma DropBoth<T>(a: seq<T>, b: seq<T>)
    requires a != [] && Subsequence(a, b)
    ensures Subsequence(a[1..], b[1..])
  {
    if a[0] != b[0] { SubsequenceTail(a, b[1..]); }
  }

  lemma AddWithin<K, V>(small: Model<K, V>, large: Model<K, V>, key: K, e: Entry<V>)
    requires Inv(small) && Inv(large) && Within(small, large)
    ensures Within(Evict(Add(small, key, e)), Evict(Add(large, key, e)))
  {
    TouchBothWithin(small, large, key);
    TouchKeepsListed(small, key, e);
    TouchKeepsListed(large, key, e);
    AtMostOneMore(small.entries, key, e);
    AtMostOneMore(large.entries, key, e);
    hide Listed, Subsequence, Without, Evict;
    EvictWithin(Add(small, key, e), Add(large, key, e));
  }

  /** Same insert, same clock: the smaller cache stays within the larger one. */
  lemma InsertWithin<K, V>(small: Model<K, V>, large: Model<K, V>, key: K, value: V, ttl: nat, now: int, then_: int)
    requires Inv(small) && Inv(large) && Within(small, large)
    ensures Within(Insert(small, key, value, ttl, now, then_), Insert(large, key, value, ttl, now, then_))
  {
    hide Inv, Within, Prune, Add, Evict;
    PruneKeepsInv(small, now);
    PruneKeepsInv(large, now);
    PruneWithin(small, large, now);
    AddWithin(Prune(small, now), Prune(large, now), key, Entry(value, then_ + ttl));
  }

  /** Same lookup, same clock: the smaller cache stays within, and whatever it finds the larger one finds. */
  lemma GetWithin<K, V>(small: Model<K, V>, large: Model<K, V>, key: K, now: int)
    requires Inv(small) && Inv(large) && Within(small, large)
    ensures Within(Get(small, key, now).0, Get(large, key, now).0)
    ensures Get(small, key, now).1.Some? ==> Get(large, key, now).1 == Get(small, key, now).1
  {
    PruneKeepsInv(small, now);
    PruneKeepsInv(large, now);
    PruneWithin(small, large, now);
    var s, l := Prune(small, now), Prune(large, now);
    if key in s.entries {
      TouchBothWithin(s, l, key);
    } else if key in l.entries {
      FilterAll(s.order, k => k != key);
      TouchBothWithin(s, l, key);
      SubsequenceFilter(s.order, l.order, k => k != key, k => k != key);
      SubsequenceSnoc(s.order, Without(l.order, key), key);
    }
  }

  // -------------------------------------------------------------- whole runs

  datatype Op<K, V> =
    | OpInsert(key: K, value: V, ttl: nat, now: int, then_: int)
    | OpGet(key: K, now: int)
    | OpPrune(now: int)
    | OpClear

  function Apply<K, V>(c: Model<K, V>, op: Op<K, V>): Model<K, V> {
    match op
    case OpInsert(key, value, ttl, now, then_) => Insert(c, key, value, ttl, now, then_)
    case OpGet(key, now) => Get(c, key, now).0
    case OpPrune(now) => Prune(c, now)
    case OpClear => Clear(c)
  }

  function Run<K, V>(c: Model<K, V>, ops: seq<Op<K, V>>): Model<K, V>
    decreases |ops|
  {
    if ops == [] then c else Apply(Run(c, ops[..|ops| - 1]), ops[|ops| - 1])
  }

  function New<K, V>(max: nat): Model<K, V> {
    Model(max, map[], [])
  }

  lemma ApplyWithin<K, V>(small: Model<K, V>, large: Model<K, V>, op: Op<K, V>)
    requires Inv(small) && Inv(large) && Within(small, large)
    ensures Inv(Apply(small, op)) && Inv(Apply(large, op)) && Within(Apply(small, op), Apply(large, op))
  {
    match op {
      case OpInsert(key, value, ttl, now, then_) =>
        InsertKeepsInv(small, key, value, ttl, now, then_);
        InsertKeepsInv(large, key, value, ttl, now, then_);
        InsertWithin(small, large, key, value, ttl, now, then_);
      case OpGet(key, now) =>
        GetKeepsInv(small, key, now);
        GetKeepsInv(large, key, now);
        GetWithin(small, large, key, now);
      case OpPrune(now) =>
        PruneKeepsInv(small, now);
        PruneKeepsInv(large, now);
        PruneWithin(small, large, now);
      case OpClear =>
    }
  }

  /**
   LRU inclusion. After any operations at any clock readings, a cache holds
   what a smaller one holds under the same operations, with the same values
   and expiries, and lists its keys in the same relative order; both obey
   their own capacity and list every key once.
   */
  lemma {:induction false} Inclusion<K, V>(m: nat, n: nat, ops: seq<Op<K, V>>)
    requires m <= n
    ensures var small, large := Run(New<K, V>(m), ops), Run(New<K, V>(n), ops);
      && Inv(small) && Inv(large) && small.max == m && large.max == n
      && (forall k :: k in small.entries ==> k in large.entries && large.entries[k] == small.entries[k])
      && Subsequence(small.order, large.order)
      && Within(small, large)
    decreases |ops|
  {
    if ops != [] {
      hide Inv;
      Inclusion<K, V>(m, n, ops[..|ops| - 1]);
      var front, op := ops[..|ops| - 1], ops[|ops| - 1];
      ApplyWithin(Run(New<K, V>(m), front), Run(New<K, V>(n), front), op);
      ApplyKeepsMax(Run(New<K, V>(m), front), op);
      ApplyKeepsMax(Run(New<K, V>(n), front), op);
    }
  }

  /** What is stored under each key, were nothing ever to expire or be evicted. */
  function Latest<K, V>(ops: seq<Op<K, V>>): map<K, Entry<V>>
    decreases |ops|
  {
    if ops == [] then map[]
    else
      var before := Latest(ops[..|ops| - 1]);
      match ops[|ops| - 1]
      case OpInsert(key, value, ttl, _, then_) => before[key := Entry(value, then_ + ttl)]
      case OpClear => map[]
      case _ => before
  }

  ghost predicate Agrees<K, V>(entries: map<K, Entry<V>>, latest: map<K, Entry<V>>) {
    forall k :: k in entries ==> k in latest && entries[k] == latest[k]
  }

  lemma {:induction false} EntriesAreLatest<K, V>(max: nat, ops: seq<Op<K, V>>)
    ensures Agrees(Run(New<K, V>(max), ops).entries, Latest(ops))
    decreases |ops|
  {
    if ops != [] {
      var front, op := ops[..|ops| - 1], ops[|ops| - 1];
      EntriesAreLatest(max, front);
      if op.OpInsert? {
        var added := Add(Prune(Run(New<K, V>(max), front), op.now), op.key, Entry(op.value, op.then_ + op.ttl));
        assert Agrees(added.entries, Latest(ops));
        EvictOnlyDrops(added);
        assert Agrees(Evict(added).entries, Latest(ops));
      }
    }
  }

  /** A cache never answers with anything but the last value inserted under the key, nor once that has expired. */
  lemma AnswersAreLatest<K, V>(max: nat, ops: seq<Op<K, V>>, key: K, now: int)
    ensures var answer := Get(Run(New<K, V>(max), ops), key, now).1;
      answer.Some? ==> key in Latest(ops) && answer.value == Latest(ops)[key].value && Latest(ops)[key].expiresAt > now
  {
    EntriesAreLatest(max, ops);
  }

  lemma {:induction false} EvictOnlyDrops<K, V>(c: Model<K, V>)
    ensures forall k :: k in Evict(c).entries ==> k in c.entries && Evict(c).entries[k] == c.entries[k]
    decreases |c.order|
  {
    if |c.entries| > c.max && c.order != [] {
      EvictOnlyDrops(c.(entries := c.entries - {c.order[0]}, order := c.order[1..]));
    }
  }

  lemma {:induction false} EvictKeepsMax<K, V>(c: Model<K, V>)
    ensures Evict(c).max == c.max
    decreases |c.order|
  {
    if |c.entries| > c.max && c.order != [] {
      EvictKeepsMax(c.(entries := c.entries - {c.order[0]}, order := c.order[1..]));
    }
  }

  lemma ApplyKeepsMax<K, V>(c: Model<K, V>, op: Op<K, V>)
    ensures Apply(c, op).max == c.max
  {
    if op.OpInsert? {
      EvictKeepsMax(Add(Prune(c, op.now), op.key, Entry(op.value, op.then_ + op.ttl)));
    }
  }

  // ---------------------------------------------------------------- in place

  class TtlCache<K(==, !new), V> {
    const maxEntries: nat
    var entries: map<K, Entry<V>>
    var order: seq<K>

    ghost function State(): Model<K, V>
      reads this
    {
      Model(maxEntries, entries, order)
    }

    constructor (maxEntries: nat)
      ensures this.maxEntries == maxEntries && State() == New(maxEntries) && Inv(State())
    {
      this.maxEntries := maxEntries;
      entries, order := map[], [];
    }

    /** Exactly the entries still live stay, unchanged and in their old order. */
    method PruneExpired(now: int)
      modifies this
      ensures State() == Prune(old(State()), now)
      ensures forall k :: k in entries <==> k in old(entries) && old(entries)[k].expiresAt > now
      ensures forall k :: k in entries ==> entries[k] == old(entries)[k]
      ensures Subsequence(order, old(order)) && forall k :: k in order <==> k in old(order) && k in entries
    {
      entries := map k | k in entries && entries[k].expiresAt > now :: entries[k];
      var live := entries;
      var keep := k => k in live;
      FilterMembers(order, keep);
      FilterIsSubsequence(order, keep);
      order := Filter(order, keep);
    }

    /** The key leaves the list; all others stay, in their old order. */
    method Promote(key: K)
      modifies this
      ensures order == Without(old(order), key) && entries == old(entries)
      ensures Subsequence(order, old(order)) && forall k :: k in order <==> k in old(order) && k != key
      ensures NoDup(old(order)) ==> NoDup(order)
    {
      var keep := k => k != key;
      FilterMembers(order, keep);
      FilterIsSubsequence(order, keep);
      order := Without(order, key);
    }

    method EvictOverLimit()
      modifies this
      ensures State() == Evict(old(State()))
    {
      while |entries| > maxEntries
        invariant Evict(State()) == Evict(old(State()))
        decreases |order|
      {
        if order == [] {
          break;
        }
        var key := order[0];
        order := order[1..];
        entries := entries - {key};
      }
    }

    method Put(key: K, value: V, ttl: nat, now: int, then_: int)
      requires Inv(State())
      modifies this
      ensures State() == Insert(old(State()), key, value, ttl, now, then_) && Inv(State())
    {
      hide Prune, Evict, Without, Inv, Subsequence, NoDup;
      InsertKeepsInv(State(), key, value, ttl, now, then_);
      PruneExpired(now);
      var expiresAt := then_ + ttl;
      Promote(key);
      order := order + [key];
      entries := entries[key := Entry(value, expiresAt)];
      EvictOverLimit();
    }

    method Lookup(key: K, now: int) returns (r: Option<V>)
      requires Inv(State())
      modifies this
      ensures (State(), r) == Get(old(State()), key, now) && Inv(State())
    {
      hide Without, Inv, Subsequence, NoDup;
      GetKeepsInv(State(), key, now);
      PruneExpired(now);
      if key !in entries {
        return None;
      }
      r := Some(entries[key].value);
      Promote(key);
      order := order + [key];
    }

    method Len(now: int) returns (n: nat)
      requires Inv(State())
      modifies this
      ensures State() == Prune(old(State()), now) && Inv(State())
      ensures n == |order| <= maxEntries
    {
      PruneKeepsInv(State(), now);
      PruneExpired(now);
      ListedCount(State());
      n := |entries|;
    }

    /** Whatever was stored, no lookup finds anything afterwards, and the invariant holds even if it did not. */
    method Reset()
      modifies this
      ensures State() == Clear(old(State())) && Inv(State())
      ensures forall key, now :: Get(State(), key, now).1 == None
    {
      entries, order := map[], [];
    }
  }
}
