/** Conflict resolution between versions of one key: dominance first, then timestamp.
    The rule is asymmetric but in general neither total nor transitive, so what repeated
    merging yields depends on the versions involved; this module says exactly how. */
module Merge {
  import opened Sequences
  import opened Versions

  /** The guard of every merge: `a` replaces a stored `b`. */
  ghost predicate Wins(a: Version, b: Version) {
    Dominates(a, b) || (!Dominates(b, a) && a.timestamp > b.timestamp)
  }

  ghost function Merged(existing: Version, incoming: Version): Version {
    if Wins(incoming, existing) then incoming else existing
  }

  lemma {:induction false} WinsIsAsymmetric(a: Version, b: Version)
    ensures Wins(a, b) ==> !Wins(b, a) && a != b
  {
  }

  // ---------- folding the rule over arrivals ----------

  /** What a replica stores after receiving the versions of `s` in that order. */
  ghost function FoldMerge(s: seq<Version>): Version
    requires s != []
  {
    if |s| == 1 then s[0] else Merged(FoldMerge(s[..|s| - 1]), s[|s| - 1])
  }

  /** `p` delivers every version of `S` at least once, and nothing else. */
  ghost predicate Arrivals(p: seq<Version>, S: set<Version>) {
    p != [] && Members(p) == S
  }

  /** Every order of arrival, with any repetition, leaves the same version. */
  ghost predicate OrderFree(S: set<Version>) {
    forall p, q :: Arrivals(p, S) && Arrivals(q, S) ==> FoldMerge(p) == FoldMerge(q)
  }

  /** `m` beats every other version of `S`. */
  ghost predicate Champion(m: Version, S: set<Version>) {
    m in S && forall x :: x in S && x != m ==> Wins(m, x)
  }

  /** "Wins" orders `S` strictly and totally. */
  ghost predicate Linear(S: set<Version>) {
    && (forall a, b :: a in S && b in S && a != b ==> Wins(a, b) || Wins(b, a))
    && (forall a, b, c :: a in S && b in S && c in S && Wins(a, b) && Wins(b, c) ==> Wins(a, c))
  }

  /** Timestamps respect dominance, and versions that share a timestamp are ordered by it. */
  ghost predicate WellStamped(S: set<Version>) {
    && (forall a, b :: a in S && b in S && Dominates(a, b) ==> a.timestamp >= b.timestamp)
    && (forall a, b :: a in S && b in S && a != b && a.timestamp == b.timestamp ==> Dominates(a, b) || Dominates(b, a))
  }

  lemma {:induction false} WellStampedIsLinear(S: set<Version>)
    requires WellStamped(S)
    ensures Linear(S)
  {
  }

  lemma {:induction false} FoldIsMember(s: seq<Version>)
    requires s != []
    ensures FoldMerge(s) in s
  {
    if |s| > 1 {
      FoldIsMember(s[..|s| - 1]);
    }
  }

  /** Once the champion has arrived nothing displaces it. */
  lemma {:induction false} ChampionSurvives(p: seq<Version>, m: Version)
    requires p != [] && Champion(m, Members(p))
    ensures FoldMerge(p) == m
  {
    if |p| > 1 {
      var front, last := p[..|p| - 1], p[|p| - 1];
      assert forall x :: x in front ==> x in Members(p);
      assert last in Members(p);
      if m in front {
        ChampionSurvives(front, m);
        WinsIsAsymmetric(m, last);
      } else {
        FoldIsMember(front);
      }
    }
  }

  /** The first merge can be carried out on its own. */
  lemma {:induction false} FoldFromFront(x: Version, y: Version, rest: seq<Version>)
    ensures FoldMerge([x, y] + rest) == FoldMerge([Merged(x, y)] + rest)
  {
    var s, t := [x, y] + rest, [Merged(x, y)] + rest;
    if rest == [] {
      assert s[..1] == [x] && FoldMerge([x]) == x;
    } else {
      var front := rest[..|rest| - 1];
      assert s[..|s| - 1] == [x, y] + front && t[..|t| - 1] == [Merged(x, y)] + front;
      FoldFromFront(x, y, front);
    }
  }

  /** A version `x` that `m` does not beat can be made to outlive `m`: deliver `x`, then `m`,
      then everything else. */
  lemma {:induction false} Outlived(S: set<Version>, m: Version, x: Version) returns (p: seq<Version>)
    requires m in S && x in S && x != m && !Wins(m, x)
    ensures Arrivals(p, S) && FoldMerge(p) != m
  {
    var rest := Enumerate(S - {m});
    p := [x, m] + rest;
    FoldFromFront(x, m, rest);
    FoldIsMember([x] + rest);
    assert forall y :: y in rest ==> y in Members(rest);
    assert Members(p) == S by {
      assert forall y :: y in S ==> y == m || y in Members(rest);
    }
  }

  /** Merging the versions of `S` gives a result independent of order and repetition
      exactly when one of them beats all the others. */
  lemma {:induction false} OrderFreeIffChampion(S: set<Version>)
    requires S != {}
    ensures OrderFree(S) <==> exists m :: Champion(m, S)
  {
    if m :| Champion(m, S) {
      forall p, q | Arrivals(p, S) && Arrivals(q, S)
        ensures FoldMerge(p) == FoldMerge(q)
      {
        ChampionSurvives(p, m);
        ChampionSurvives(q, m);
      }
    }
    if OrderFree(S) {
      var s := Enumerate(S);
      assert Members<Version>([]) == {};
      FoldIsMember(s);
      var m := FoldMerge(s);
      assert m in Members(s);
      forall x | x in S && x != m
        ensures Wins(m, x)
      {
        if !Wins(m, x) {
          var p := Outlived(S, m, x);
        }
      }
      assert Champion(m, S);
    }
  }

  lemma {:induction false} LinearHasChampion(S: set<Version>, T: set<Version>) returns (m: Version)
    requires Linear(S) && T <= S && T != {}
    ensures Champion(m, T)
    decreases |T|
  {
    var x :| x in T;
    if T == {x} {
      m := x;
    } else {
      assert T - {x} != {};
      var n := LinearHasChampion(S, T - {x});
      m := if Wins(n, x) then n else x;
      forall y | y in T && y != m
        ensures Wins(m, y)
      {
        if m == x && y != n {
          assert Wins(x, n) && Wins(n, y);
        }
      }
    }
  }

  /** The rule is free of order and repetition on every part of `S` exactly when "wins" is
      total and transitive on `S`. */
  lemma {:induction false} OrderFreeIffLinear(S: set<Version>)
    ensures (forall T :: T != {} && T <= S ==> OrderFree(T)) <==> Linear(S)
  {
    if Linear(S) {
      forall T | T != {} && T <= S
        ensures OrderFree(T)
      {
        var m := LinearHasChampion(S, T);
        OrderFreeIffChampion(T);
      }
    }
    if forall T :: T != {} && T <= S ==> OrderFree(T) {
      forall a, b | a in S && b in S && a != b
        ensures Wins(a, b) || Wins(b, a)
      {
        var m := ChampionOf({a, b}, S);
      }
      forall a, b, c | a in S && b in S && c in S && Wins(a, b) && Wins(b, c)
        ensures Wins(a, c)
      {
        WinsIsAsymmetric(a, b);
        WinsIsAsymmetric(b, c);
        var m := ChampionOf({a, b, c}, S);
        assert b in {a, b, c} && a in {a, b, c} && c in {a, b, c};
        assert m == a;
      }
    }
  }

  lemma {:induction false} ChampionOf(T: set<Version>, S: set<Version>) returns (m: Version)
    requires T != {} && T <= S
    requires forall U :: U != {} && U <= S ==> OrderFree(U)
    ensures Champion(m, T)
  {
    OrderFreeIffChampion(T);
    m :| Champion(m, T);
  }

  // ---------- the read's choice ----------

  datatype Ordering = Less | Equal | Greater

  /** The comparison the read handler passes to `max_by`. */
  ghost function Compare(a: Version, b: Version): Ordering {
    if Dominates(a, b) then Greater
    else if Dominates(b, a) then Less
    else if a.timestamp > b.timestamp then Greater
    else if a.timestamp < b.timestamp then Less
    else Equal
  }

  /** `max_by` keeps the accumulator only when it compares greater than the next element. */
  ghost function MaxBy(s: seq<Version>): Version
    requires s != []
  {
    if |s| == 1 then s[0] else
    var m := MaxBy(s[..|s| - 1]);
    if Compare(m, s[|s| - 1]) == Greater then m else s[|s| - 1]
  }

  lemma {:induction false} MaxByIsMember(s: seq<Version>)
    requires s != []
    ensures MaxBy(s) in s
  {
    if |s| > 1 {
      MaxByIsMember(s[..|s| - 1]);
    }
  }

  lemma {:induction false} MaxByFindsChampion(s: seq<Version>, m: Version)
    requires s != [] && Champion(m, Members(s))
    ensures MaxBy(s) == m
  {
    if |s| > 1 {
      var front, last := s[..|s| - 1], s[|s| - 1];
      assert forall x :: x in front ==> x in Members(s);
      assert last in Members(s);
      if m in front {
        MaxByFindsChampion(front, m);
      } else {
        MaxByIsMember(front);
        WinsIsAsymmetric(m, MaxBy(front));
      }
    }
  }

  /** The read picks what the internal-PUT merge would store after the same responses in every
      order exactly when one response beats all others; it then picks that one, and no response
      dominates it. */
  lemma {:induction false} ReadAgreesWithMerge(s: seq<Version>)
    requires s != []
    ensures (forall q :: Arrivals(q, Members(s)) ==> FoldMerge(q) == MaxBy(s)) <==>
            exists m :: Champion(m, Members(s))
    ensures forall m :: Champion(m, Members(s)) ==> MaxBy(s) == m && forall r :: r in s ==> !Dominates(r, m)
  {
    assert s[0] in Members(s);
    OrderFreeIffChampion(Members(s));
    forall m | Champion(m, Members(s))
      ensures MaxBy(s) == m
      ensures forall r :: r in s ==> !Dominates(r, m)
      ensures forall q :: Arrivals(q, Members(s)) ==> FoldMerge(q) == m
    {
      MaxByFindsChampion(s, m);
      forall q | Arrivals(q, Members(s)) ensures FoldMerge(q) == m {
        ChampionSurvives(q, m);
      }
      forall r | r in s ensures !Dominates(r, m) {
        assert r in Members(s);
        WinsIsAsymmetric(m, r);
      }
    }
  }

  /** Well-stamped versions always have one that beats the others. */
  lemma {:induction false} WellStampedHasChampion(S: set<Version>)
    requires WellStamped(S) && S != {}
    ensures exists m :: Champion(m, S)
  {
    WellStampedIsLinear(S);
    var m := LinearHasChampion(S, S);
  }
}
