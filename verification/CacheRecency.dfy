/**
 Which entries the cache still holds, from the operations alone: a key in use
 is given up only when as many others as the cache can hold have been used since.
 */
module CacheRecency {
  import opened Bytes
  import opened Cache

  ghost predicate IsLive<K, V>(c: Model<K, V>, key: K, now: int) {
    key in c.entries && c.entries[key].expiresAt > now
  }

  /** The key an operation uses: the one it inserts, or looks up and finds. */
  ghost function UsedBy<K, V>(c: Model<K, V>, op: Op<K, V>): set<K> {
    match op
    case OpInsert(key, _, _, _, _) => {key}
    case OpGet(key, now) => if IsLive(c, key, now) then {key} else {}
    case _ => {}
  }

  /** The keys used since the state `c`. */
  ghost function Since<K, V>(c: Model<K, V>, ops: seq<Op<K, V>>): set<K>
    decreases |ops|
  {
    if ops == [] then {}
    else
      var front := ops[..|ops| - 1];
      Since(c, front) + UsedBy(Run(c, front), ops[|ops| - 1])
  }

  /** An entry outlives an operation that does not clear the cache and whose clock does not show its time to be up. */
  ghost predicate Endures<K, V>(op: Op<K, V>, expiresAt: int) {
    match op
    case OpInsert(_, _, _, now, _) => now < expiresAt
    case OpGet(_, now) => now < expiresAt
    case OpPrune(now) => now < expiresAt
    case OpClear => false
  }

  /** How many of the keys used since `c` are held. */
  ghost function Crowd<K, V>(c: Model<K, V>, ops: seq<Op<K, V>>): nat {
    |Since(c, ops) * Run(c, ops).entries.Keys|
  }

  /** Keys used since stand behind `key` in the list, all others before it. */
  ghost predicate Divides<K(!new), V>(c: Model<K, V>, key: K, since: set<K>) {
    exists pre, post :: DividedInto(c.order, key, since, pre, post)
  }

  ghost predicate DividedInto<K>(order: seq<K>, key: K, since: set<K>, pre: seq<K>, post: seq<K>) {
    order == pre + [key] + post && (forall x :: x in pre ==> x !in since) && (forall x :: x in post ==> x in since)
  }

  lemma {:induction false} FilterConcat<T>(a: seq<T>, b: seq<T>, keep: T -> bool)
    ensures Filter(a + b, keep) == Filter(a, keep) + Filter(b, keep)
  {
    if a == [] {
      assert [] + b == b && Filter<T>([], keep) == [];
    } else {
      assert (a + b)[1..] == a[1..] + b;
      FilterConcat(a[1..], b, keep);
      var first := if keep(a[0]) then [a[0]] else [];
      var (fa, fb) := (Filter(a[1..], keep), Filter(b, keep));
      assert Filter(a, keep) == first + fa && Filter(a + b, keep) == first + (fa + fb);
      hide Filter;
      assert first + (fa + fb) == first + fa + fb;
    }
  }

  /** What is kept of the list is divided by the key as before. */
  lemma FilterDivides<K(!new)>(order: seq<K>, key: K, since: set<K>, pre: seq<K>, post: seq<K>, keep: K -> bool)
    requires DividedInto(order, key, since, pre, post) && keep(key)
    ensures DividedInto(Filter(order, keep), key, since, Filter(pre, keep), Filter(post, keep))
  {
    FilterConcat(pre + [key], post, keep);
    FilterConcat(pre, [key], keep);
    assert Filter([key], keep) == [key];
    FilterMembers(pre, keep);
    FilterMembers(post, keep);
  }

  lemma PruneDivides<K(!new), V>(c: Model<K, V>, key: K, since: set<K>, now: int)
    requires Divides(c, key, since) && IsLive(c, key, now)
    ensures Divides(Prune(c, now), key, since) && key in Prune(c, now).entries
  {
    hide DividedInto;
    var pre, post :| DividedInto(c.order, key, since, pre, post);
    var live := Live(c.entries, now);
    FilterDivides(c.order, key, since, pre, post, k => k in live);
    assert DividedInto(Prune(c, now).order, key, since, Filter(pre, k => k in live), Filter(post, k => k in live));
  }

  lemma TouchDivides<K(!new), V>(c: Model<K, V>, key: K, since: set<K>, other: K)
    requires Divides(c, key, since) && other != key
    ensures Divides(Touch(c, other), key, since + {other})
  {
    var pre, post :| DividedInto(c.order, key, since, pre, post);
    FilterDivides(c.order, key, since, pre, post, k => k != other);
    var pre', post' := Without(pre, other), Without(post, other);
    FilterMembers(pre, k => k != other);
    FilterMembers(post, k => k != other);
    assert pre' + [key] + post' + [other] == pre' + [key] + (post' + [other]);
    assert DividedInto(Touch(c, other).order, key, since + {other}, pre', post' + [other]);
  }

  /** As long as the key is held, fewer than the capacity of the others are. */
  lemma CrowdIsLess<K(!new), V>(c: Model<K, V>, key: K, since: set<K>)
    requires Inv(c) && key in c.entries && key !in since
    ensures |since * c.entries.Keys| < c.max
  {
    SubsetCount(since * c.entries.Keys + {key}, c.entries.Keys);
    assert |c.entries| == |c.entries.Keys|;
    assert |since * c.entries.Keys + {key}| == |since * c.entries.Keys| + 1;
  }

  /** An entry over the limit costs the key exactly if all others are used since. */
  lemma EvictDivides<K(!new), V>(c: Model<K, V>, key: K, since: set<K>)
    requires Listed(c) && |c.entries| <= c.max + 1 && key in c.entries && key !in since && Divides(c, key, since)
    ensures Inv(Evict(c)) && Evict(c).max == c.max
    ensures key in Evict(c).entries <==> |since * Evict(c).entries.Keys| < c.max
    ensures key in Evict(c).entries ==> Evict(c).entries[key] == c.entries[key] && Divides(Evict(c), key, since)
  {
    hide Listed, Inv, DividedInto;
    EvictOnce(c);
    EvictKeepsMax(c);
    if |c.entries| > c.max {
      hide Evict;
      var pre, post :| DividedInto(c.order, key, since, pre, post);
      if pre == [] {
        KeyIsDropped(c, key, since, post);
        AllAreSince(Evict(c), since) by { PostIsSince(c.order, key, since, pre, post); InvIsListed(Evict(c)); }
        ListedCount(c);
      } else {
        KeyIsSpared(c, key, since, pre, post);
      }
    }
    if key in Evict(c).entries { CrowdIsLess(Evict(c), key, since); }
  }

  lemma PostIsSince<K(!new)>(order: seq<K>, key: K, since: set<K>, pre: seq<K>, post: seq<K>)
    requires DividedInto(order, key, since, pre, post)
    ensures forall x :: x in post ==> x in since
  {
  }

  lemma InvIsListed<K, V>(c: Model<K, V>)
    requires Inv(c)
    ensures Listed(c)
  {
  }

  lemma KeyIsDropped<K(!new), V>(c: Model<K, V>, key: K, since: set<K>, post: seq<K>)
    requires DividedInto(c.order, key, since, [], post)
    ensures c.order != [] && c.order[0] == key && c.order[1..] == post
  {
    assert c.order == [key] + post;
  }

  lemma AllAreSince<K, V>(c: Model<K, V>, since: set<K>)
    requires Listed(c) && forall x :: x in c.order ==> x in since
    ensures |since * c.entries.Keys| == |c.order|
  {
    ListedCount(c);
    assert |c.entries| == |c.entries.Keys|;
    forall x | x in c.entries.Keys ensures x in since { assert x in Elements(c.order); }
    assert since * c.entries.Keys == c.entries.Keys;
  }

  lemma KeyIsSpared<K(!new), V>(c: Model<K, V>, key: K, since: set<K>, pre: seq<K>, post: seq<K>)
    requires Listed(c) && DividedInto(c.order, key, since, pre, post) && pre != []
    ensures c.order[0] != key && DividedInto(c.order[1..], key, since, pre[1..], post)
  {
    assert c.order[1..] == pre[1..] + [key] + post;
    assert c.order[0] == pre[0] && c.order[|pre|] == key;
  }

  lemma InsertStep<K(!new), V>(c: Model<K, V>, key: K, since: set<K>, op: Op<K, V>)
    requires Inv(c) && key in c.entries && key !in since && Divides(c, key, since)
    requires op.OpInsert? && op.key != key
    ensures var (d, more) := (Apply(c, op), since + {op.key});
      && Inv(d) && d.max == c.max
      && (key in d.entries <==> Endures(op, c.entries[key].expiresAt) && |more * d.entries.Keys| < c.max)
      && (key in d.entries ==> d.entries[key] == c.entries[key] && Divides(d, key, more))
  {
    hide Divides, Inv, Listed, Evict, Without;
    InsertKeepsInv(c, op.key, op.value, op.ttl, op.now, op.then_);
    ApplyKeepsMax(c, op);
    var (pruned, e) := (Prune(c, op.now), Entry(op.value, op.then_ + op.ttl));
    var added := Add(pruned, op.key, e);
    if IsLive(c, key, op.now) {
      PruneDivides(c, key, since, op.now);
      TouchDivides(pruned, key, since, op.key);
      AddIsListed(c, op.key, e, op.now);
      DividesByOrder(Touch(pruned, op.key), added, key, since + {op.key});
      EvictDivides(added, key, since + {op.key});
    } else {
      EvictOnlyDrops(added);
    }
  }

  lemma AddIsListed<K, V>(c: Model<K, V>, other: K, e: Entry<V>, now: int)
    requires Inv(c)
    ensures var added := Add(Prune(c, now), other, e); Listed(added) && |added.entries| <= added.max + 1
  {
    PruneKeepsInv(c, now);
    TouchKeepsListed(Prune(c, now), other, e);
    AtMostOneMore(Prune(c, now).entries, other, e);
  }

  lemma DividesByOrder<K(!new), V>(c: Model<K, V>, d: Model<K, V>, key: K, since: set<K>)
    requires c.order == d.order && Divides(c, key, since)
    ensures Divides(d, key, since)
  {
  }

  /** Using no other key leaves the key in place while it lives. */
  lemma PruneStep<K(!new), V>(c: Model<K, V>, key: K, since: set<K>, now: int)
    requires Inv(c) && key in c.entries && key !in since && Divides(c, key, since)
    ensures var d := Prune(c, now);
      && Inv(d) && d.max == c.max
      && (key in d.entries <==> c.entries[key].expiresAt > now)
      && (key in d.entries ==>
            d.entries[key] == c.entries[key] && Divides(d, key, since) && |since * d.entries.Keys| < c.max)
  {
    hide Divides, Inv;
    PruneKeepsInv(c, now);
    if IsLive(c, key, now) {
      PruneDivides(c, key, since, now);
      CrowdIsLess(Prune(c, now), key, since);
    }
  }

  lemma GetStep<K(!new), V>(c: Model<K, V>, key: K, since: set<K>, op: Op<K, V>)
    requires Inv(c) && key in c.entries && key !in since && Divides(c, key, since)
    requires op.OpGet? && key !in UsedBy(c, op)
    ensures var (d, more) := (Apply(c, op), since + UsedBy(c, op));
      && Inv(d) && d.max == c.max
      && (key in d.entries <==> Endures(op, c.entries[key].expiresAt) && |more * d.entries.Keys| < c.max)
      && (key in d.entries ==> d.entries[key] == c.entries[key] && Divides(d, key, more))
  {
    hide Divides, Inv, Without;
    GetKeepsInv(c, op.key, op.now);
    PruneStep(c, key, since, op.now);
    var (pruned, more) := (Prune(c, op.now), since + UsedBy(c, op));
    assert op.key in pruned.entries <==> IsLive(c, op.key, op.now);
    if key in pruned.entries {
      if op.key in pruned.entries {
        TouchDivides(pruned, key, since, op.key);
      } else {
        assert more == since;
      }
      CrowdIsLess(Apply(c, op), key, more);
    }
  }

  /** One operation that does not use the key. */
  lemma Step<K(!new), V>(c: Model<K, V>, key: K, since: set<K>, op: Op<K, V>)
    requires Inv(c) && key in c.entries && key !in since && Divides(c, key, since) && key !in UsedBy(c, op)
    ensures var (d, more) := (Apply(c, op), since + UsedBy(c, op));
      && Inv(d) && d.max == c.max
      && (key in d.entries <==> Endures(op, c.entries[key].expiresAt) && |more * d.entries.Keys| < c.max)
      && (key in d.entries ==> d.entries[key] == c.entries[key] && Divides(d, key, more))
  {
    match op {
      case OpInsert(_, _, _, _, _) => InsertStep(c, key, since, op);
      case OpGet(_, _) => GetStep(c, key, since, op);
      case OpPrune(now) =>
        assert since + {} == since;
        PruneStep(c, key, since, now);
      case OpClear =>
    }
  }

  /** A key that is not held and not inserted is not held afterwards. */
  lemma StaysAway<K(!new), V>(c: Model<K, V>, key: K, op: Op<K, V>)
    requires key !in c.entries && key !in UsedBy(c, op)
    ensures key !in Apply(c, op).entries
  {
    hide Evict, Without;
    if op.OpInsert? {
      EvictOnlyDrops(Add(Prune(c, op.now), op.key, Entry(op.value, op.then_ + op.ttl)));
    }
  }

  /** No operation of the run uses the key. */
  ghost predicate LeavesAlone<K, V>(c: Model<K, V>, ops: seq<Op<K, V>>, key: K) {
    forall n :: 0 <= n < |ops| ==> key !in UsedBy(Run(c, ops[..n]), ops[n])
  }

  /** The entry's time is not up at any operation, and at no point do the keys used since fill the cache. */
  ghost predicate Lasts<K, V>(c: Model<K, V>, ops: seq<Op<K, V>>, expiresAt: int) {
    && (forall op :: op in ops ==> Endures(op, expiresAt))
    && (forall n :: 0 <= n <= |ops| ==> Crowd(c, ops[..n]) < c.max)
  }

  lemma LastsOneMore<K(!new), V>(c: Model<K, V>, ops: seq<Op<K, V>>, expiresAt: int)
    requires ops != []
    ensures Lasts(c, ops, expiresAt) <==>
      Lasts(c, ops[..|ops| - 1], expiresAt) && Endures(ops[|ops| - 1], expiresAt) && Crowd(c, ops) < c.max
  {
    hide Endures, Crowd;
    var front, last := ops[..|ops| - 1], ops[|ops| - 1];
    assert ops == front + [last] && ops[..|ops|] == ops;
    assert forall n :: 0 <= n <= |front| ==> ops[..n] == front[..n];
  }

  /** A key just used, at the end of the list, is held after operations that do not use it exactly if it lasts. */
  lemma {:induction false} HeldIffLasts<K(!new), V>(c: Model<K, V>, key: K, ops: seq<Op<K, V>>)
    requires Inv(c) && key in c.entries && Divides(c, key, {})
    requires LeavesAlone(c, ops, key)
    ensures var d := Run(c, ops);
      && Inv(d) && d.max == c.max && key !in Since(c, ops)
      && (key in d.entries <==> Lasts(c, ops, c.entries[key].expiresAt))
      && (key in d.entries ==> d.entries[key] == c.entries[key] && Divides(d, key, Since(c, ops)))
    decreases |ops|
  {
    var expiresAt := c.entries[key].expiresAt;
    if ops == [] {
      CrowdIsLess(c, key, {});
      assert Crowd(c, []) < c.max && ops[..0] == [];
    } else {
      hide Inv, Divides, Endures, Lasts, UsedBy;
      var front, op := ops[..|ops| - 1], ops[|ops| - 1];
      LeavesAloneFront(c, ops, key);
      HeldIffLasts(c, key, front);
      LastsOneMore(c, ops, expiresAt);
      var d := Run(c, front);
      RunKeepsInv(d, op);
      if key in d.entries {
        Step(d, key, Since(c, front), op);
      } else {
        StaysAway(d, key, op);
      }
    }
  }

  lemma LeavesAloneFront<K(!new), V>(c: Model<K, V>, ops: seq<Op<K, V>>, key: K)
    requires ops != [] && LeavesAlone(c, ops, key)
    ensures LeavesAlone(c, ops[..|ops| - 1], key)
    ensures key !in UsedBy(Run(c, ops[..|ops| - 1]), ops[|ops| - 1])
  {
    hide UsedBy;
    var front := ops[..|ops| - 1];
    forall n | 0 <= n < |front| ensures key !in UsedBy(Run(c, front[..n]), front[n]) {
      assert front[..n] == ops[..n] && front[n] == ops[n];
    }
  }

  lemma RunKeepsInv<K(!new), V>(c: Model<K, V>, op: Op<K, V>)
    requires Inv(c)
    ensures Inv(Apply(c, op)) && Apply(c, op).max == c.max
  {
    hide Inv;
    ApplyKeepsMax(c, op);
    match op {
      case OpInsert(key, value, ttl, now, then_) => InsertKeepsInv(c, key, value, ttl, now, then_);
      case OpGet(key, now) => GetKeepsInv(c, key, now);
      case OpPrune(now) => PruneKeepsInv(c, now);
      case OpClear => EmptyInv<K, V>(c.max);
    }
  }

  lemma EmptyInv<K, V>(max: nat)
    ensures Inv<K, V>(Model(max, map[], []))
  {
  }

  // ---------------------------------------------------------------- whole runs

  /** An insert into a cache that can hold anything, or a lookup that finds the key, leaves it at the list's end. */
  lemma UsedIsLast<K(!new), V>(c: Model<K, V>, op: Op<K, V>, key: K)
    requires Inv(c) && key in UsedBy(c, op)
    ensures var d := Apply(c, op);
      && Inv(d) && d.max == c.max
      && (key in d.entries <==> c.max > 0)
      && (key in d.entries ==> Divides(d, key, {}))
      && (key in d.entries ==>
            d.entries[key] == if op.OpInsert? then Entry(op.value, op.then_ + op.ttl) else c.entries[key])
  {
    RunKeepsInv(c, op);
    if op.OpInsert? { InsertedIsLast(c, op, key); } else { FoundIsLast(c, op, key); }
  }

  lemma LastDivides<K(!new), V>(d: Model<K, V>, key: K, pre: seq<K>)
    requires d.order == pre + [key]
    ensures Divides(d, key, {})
  {
    assert d.order == pre + [key] + [];
    assert DividedInto(d.order, key, {}, pre, []);
  }

  lemma FoundIsLast<K(!new), V>(c: Model<K, V>, op: Op<K, V>, key: K)
    requires Inv(c) && op.OpGet? && key in UsedBy(c, op)
    ensures c.max > 0 && key in Apply(c, op).entries && Apply(c, op).entries[key] == c.entries[key]
    ensures Divides(Apply(c, op), key, {})
  {
    hide Divides, Without;
    LastDivides(Apply(c, op), key, Without(Prune(c, op.now).order, key));
    SubsetCount({key}, c.entries.Keys);
    assert |c.entries| == |c.entries.Keys|;
  }

  lemma InsertedIsLast<K(!new), V>(c: Model<K, V>, op: Op<K, V>, key: K)
    requires Inv(c) && op.OpInsert? && op.key == key
    ensures key in Apply(c, op).entries <==> c.max > 0
    ensures key in Apply(c, op).entries ==>
      Apply(c, op).entries[key] == Entry(op.value, op.then_ + op.ttl) && Divides(Apply(c, op), key, {})
  {
    hide Divides, Inv, Listed, Evict, Without, Prune;
    var e := Entry(op.value, op.then_ + op.ttl);
    AddIsListed(c, key, e, op.now);
    AddedIsKept(Prune(c, op.now), key, e);
    ApplyKeepsMax(c, op);
  }

  lemma AddedIsKept<K(!new), V>(c: Model<K, V>, key: K, e: Entry<V>)
    requires var added := Add(c, key, e); Listed(added) && |added.entries| <= added.max + 1
    ensures var d := Evict(Add(c, key, e));
      && d.max == c.max && (key in d.entries <==> c.max > 0)
      && (key in d.entries ==> d.entries[key] == e && Divides(d, key, {}))
  {
    hide Divides, Listed, Evict, Without;
    var added := Add(c, key, e);
    LastDivides(added, key, Without(c.order, key));
    EvictDivides(added, key, {});
    assert {} * Evict(added).entries.Keys == {};
  }

  lemma {:induction false} RunIsInOrder<K(!new), V>(max: nat, ops: seq<Op<K, V>>)
    ensures Inv(Run(New<K, V>(max), ops)) && Run(New<K, V>(max), ops).max == max
    decreases |ops|
  {
    if ops == [] {
      EmptyInv<K, V>(max);
    } else {
      hide Inv;
      RunIsInOrder<K, V>(max, ops[..|ops| - 1]);
      RunKeepsInv(Run(New<K, V>(max), ops[..|ops| - 1]), ops[|ops| - 1]);
    }
  }

  /**
   Least recently used goes first. After any operations, one that uses a key,
   and any that do not, the key is held exactly if its time was not up at any
   of them, nothing cleared the cache, and at no point were as many keys held
   that have been used since as the cache can hold.
   */
  lemma HeldIff<K(!new), V>(max: nat, before: seq<Op<K, V>>, use: Op<K, V>, after: seq<Op<K, V>>, key: K)
    requires key in UsedBy(Run(New<K, V>(max), before), use)
    requires LeavesAlone(Apply(Run(New<K, V>(max), before), use), after, key)
    ensures var c := Run(New<K, V>(max), before);
      var expiresAt := if use.OpInsert? then use.then_ + use.ttl else c.entries[key].expiresAt;
      key in Run(Apply(c, use), after).entries <==> Lasts(Apply(c, use), after, expiresAt)
  {
    hide Divides, Inv, LeavesAlone, UsedBy;
    var c := Run(New<K, V>(max), before);
    RunIsInOrder<K, V>(max, before);
    UsedIsLast(c, use, key);
    UseIsInsertOrHit(c, use, key);
    var d := Apply(c, use);
    if key in d.entries {
      HeldIffLasts(d, key, after);
    } else {
      StaysAwayThroughout(d, key, after);
      assert after[..0] == [];
      assert Crowd(d, after[..0]) == 0;
    }
  }

  lemma UseIsInsertOrHit<K(!new), V>(c: Model<K, V>, op: Op<K, V>, key: K)
    requires key in UsedBy(c, op)
    ensures op.OpInsert? || (op.OpGet? && key in c.entries)
  {
  }

  lemma {:induction false} StaysAwayThroughout<K(!new), V>(c: Model<K, V>, key: K, ops: seq<Op<K, V>>)
    requires key !in c.entries && LeavesAlone(c, ops, key)
    ensures key !in Run(c, ops).entries
    decreases |ops|
  {
    if ops != [] {
      LeavesAloneFront(c, ops, key);
      StaysAwayThroughout(c, key, ops[..|ops| - 1]);
      StaysAway(Run(c, ops[..|ops| - 1]), key, ops[|ops| - 1]);
    }
  }

  /** The keys that operations name. */
  ghost function Named<K, V>(ops: seq<Op<K, V>>): set<K>
    decreases |ops|
  {
    if ops == [] then {}
    else
      var last := ops[|ops| - 1];
      Named(ops[..|ops| - 1]) + if last.OpInsert? || last.OpGet? then {last.key} else {}
  }

  lemma {:induction false} SinceAreNamed<K(!new), V>(c: Model<K, V>, ops: seq<Op<K, V>>, n: nat)
    requires n <= |ops|
    ensures Since(c, ops[..n]) <= Named(ops)
    decreases |ops|, n
  {
    if n < |ops| {
      SinceAreNamed(c, ops[..|ops| - 1], n);
      assert ops[..|ops| - 1][..n] == ops[..n];
    } else if ops != [] {
      assert ops[..n] == ops;
      var front := ops[..|ops| - 1];
      SinceAreNamed(c, front, |front|);
      assert front[..|front|] == front;
    } else {
      assert ops[..n] == [];
    }
  }

  /** What a lookup has found it finds again after inserts and lookups of fewer other keys than the cache can hold. */
  lemma FoundAgain<K(!new), V>(max: nat, before: seq<Op<K, V>>, key: K, now: int, after: seq<Op<K, V>>, later: int)
    requires var c := Run(New<K, V>(max), before); IsLive(c, key, now)
    requires key !in Named(after) && |Named(after)| < max
    requires var expiresAt := Run(New<K, V>(max), before).entries[key].expiresAt;
      (forall op :: op in after ==> Endures(op, expiresAt)) && later < expiresAt
    ensures var c := Run(New<K, V>(max), before);
      Get(Run(Get(c, key, now).0, after), key, later).1 == Get(c, key, now).1 == Some(c.entries[key].value)
  {
    var c := Run(New<K, V>(max), before);
    var use: Op<K, V> := OpGet(key, now);
    var d := Apply(c, use);
    hide Run;
    forall n | 0 <= n < |after| ensures key !in UsedBy(Run(d, after[..n]), after[n]) {
      UsedIsNamed(Run(d, after[..n]), after, n);
    }
    forall n | 0 <= n <= |after| ensures Crowd(d, after[..n]) < d.max {
      SinceAreNamed(d, after, n);
      RunIsInOrder<K, V>(max, before);
      SubsetCount(Since(d, after[..n]) * Run(d, after[..n]).entries.Keys, Named(after));
    }
    RunIsInOrder<K, V>(max, before);
    UsedIsLast(c, use, key);
    HeldIffLasts(d, key, after);
  }

  lemma {:induction false} UsedIsNamed<K(!new), V>(c: Model<K, V>, ops: seq<Op<K, V>>, n: nat)
    requires n < |ops|
    ensures UsedBy(c, ops[n]) <= Named(ops)
    decreases |ops|
  {
    if n < |ops| - 1 { UsedIsNamed(c, ops[..|ops| - 1], n); }
  }
}
