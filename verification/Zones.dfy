/**
 What a denial is about: a zone within the whole tree of names. Names below a
 delegation belong to another zone, and names below a DNAME are redirected, so
 a zone's own records say nothing of either.
 */
module Zones {
  import opened Bytes
  import opened Order
  import opened DnsName

  /** All names at or below `apex`, and the two kinds of names at which the zone stops. */
  datatype Space = Space(apex: Name, all: set<Name>, delegations: set<Name>, redirects: set<Name>)

  /** The names at which the zone stops. */
  ghost function Cuts(s: Space): set<Name> {
    s.delegations + s.redirects
  }

  ghost predicate ValidSpace(s: Space) {
    && (forall n :: n in s.all ==>
          IsSubdomainOrEqual(n, s.apex) && forall k :: 0 <= k <= |n| - |s.apex| ==> n[k..] in s.all)
    && Cuts(s) <= s.all
  }

  /** A name the zone itself answers for: a cut does, nothing below it. */
  ghost predicate InZone(s: Space, n: Name) {
    n in s.all && forall c :: c in Cuts(s) ==> !IsStrictSubdomain(n, c)
  }

  /** Below a name of the zone that is no cut, to be missing from the zone is to be missing altogether. */
  lemma NoCutNoHiddenChild(s: Space, parent: Name, child: Name)
    requires InZone(s, parent) && parent !in Cuts(s)
    requires |child| == |parent| + 1 && child[1..] == parent && !InZone(s, child)
    ensures child !in s.all
  {
    forall c | c in Cuts(s) && |c| < |child| ensures !IsStrictSubdomain(child, c) {
      assert child[|child| - |c|..] == parent[|parent| - |c|..];
    }
  }

  /** Nothing exists below a name that does not. */
  lemma MissingBelow(s: Space, query: Name, encloser: Name)
    requires ValidSpace(s) && encloser in s.all && IsStrictSubdomain(query, encloser)
    requires query[|query| - |encloser| - 1..] !in s.all
    ensures forall k :: 0 <= k < |query| - |encloser| ==> query[k..] !in s.all
  {
    forall k | 0 <= k < |query| - |encloser| ensures query[k..] !in s.all {
      var n := query[k..];
      var j := |n| - |encloser| - 1;
      assert n[j..] == query[|query| - |encloser| - 1..];
      assert |encloser| >= |s.apex|;
    }
  }

  /** Of the cuts above a name, the highest is in the zone. */
  lemma {:induction false} HighestCut(s: Space, n: Name, below: Name) returns (c: Name)
    requires ValidSpace(s) && below in Cuts(s) && IsStrictSubdomain(n, below)
    ensures c in Cuts(s) && IsStrictSubdomain(n, c) && InZone(s, c)
    decreases |below|
  {
    if InZone(s, below) {
      c := below;
    } else {
      var higher :| higher in Cuts(s) && IsStrictSubdomain(below, higher);
      SubdomainTransitive(n, below, higher);
      c := HighestCut(s, n, higher);
    }
  }

  /** What stands between a name and something below it in canonical order is below it too. */
  lemma {:induction false} BelowIsContiguous(above: Name, x: Name, below: Name)
    requires IsSubdomainOrEqual(below, above)
    requires CompareFromEnd(above, x) == Less && CompareFromEnd(x, below) == Less
    ensures IsStrictSubdomain(x, above)
    decreases |above|
  {
    if above != [] {
      var a, b, y := above[|above| - 1], x[|x| - 1], below[|below| - 1];
      assert below[|below| - |above|..][|above| - 1] == y;
      CompareBytesFlip(a, b);
      assert a == y == b;
      var shorter := below[..|below| - 1];
      assert shorter[|shorter| - (|above| - 1)..] == below[|below| - |above|..][..|above| - 1];
      BelowIsContiguous(above[..|above| - 1], x[..|x| - 1], shorter);
      assert x[|x| - |above|..] == x[..|x| - 1][|x| - |above|..] + [b] && above == above[..|above| - 1] + [a];
    }
  }

  /** The same space with the names between a cut and something below it added. */
  ghost function Grown(s: Space, cut: Name, n: Name): Space
    requires IsStrictSubdomain(n, cut)
  {
    s.(all := s.all + set k | 0 <= k < |n| - |cut| :: n[k..])
  }

  /** Names below a cut come and go without the zone changing. */
  lemma GrownIsSameZone(s: Space, cut: Name, n: Name)
    requires ValidSpace(s) && cut in Cuts(s) && IsStrictSubdomain(n, cut)
    ensures ValidSpace(Grown(s, cut, n)) && n in Grown(s, cut, n).all
    ensures forall x :: InZone(Grown(s, cut, n), x) <==> InZone(s, x)
  {
    var t := Grown(s, cut, n);
    assert n[0..] == n;
    forall x | x in t.all
      ensures IsSubdomainOrEqual(x, s.apex)
      ensures forall k :: 0 <= k <= |x| - |s.apex| ==> x[k..] in t.all
      ensures x in s.all || IsStrictSubdomain(x, cut)
    {
      if x !in s.all {
        var j :| 0 <= j < |n| - |cut| && x == n[j..];
        AddedIsBelow(s, cut, n, j);
      }
    }
  }

  lemma AddedIsBelow(s: Space, cut: Name, n: Name, j: nat)
    requires ValidSpace(s) && cut in Cuts(s) && IsStrictSubdomain(n, cut) && j < |n| - |cut|
    ensures IsStrictSubdomain(n[j..], cut) && IsSubdomainOrEqual(n[j..], s.apex)
    ensures forall k :: 0 <= k <= |n[j..]| - |s.apex| ==> n[j..][k..] in Grown(s, cut, n).all
  {
    var x := n[j..];
    assert x[|x| - |cut|..] == n[|n| - |cut|..] == cut;
    SubdomainTransitive(x, cut, s.apex);
    forall k | 0 <= k <= |x| - |s.apex| ensures x[k..] in Grown(s, cut, n).all {
      assert x[k..] == n[j + k..];
      if j + k >= |n| - |cut| {
        assert x[k..] == cut[j + k - (|n| - |cut|)..];
      }
    }
  }
}
