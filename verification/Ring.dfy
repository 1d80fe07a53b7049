/** The consistent-hash ring that orders the nodes for a key. The hash is a parameter. */
module Ring {
  import opened Sequences

  type Points = map<nat, string>

  const VIRTUAL_NODES: nat := 10

  /** The text hashed for the `v`-th virtual point of a node. */
  function Label(node: string, v: nat): string
    requires v < VIRTUAL_NODES
  {
    node + "#" + ["0123456789"[v]]
  }

  /** Virtual points of different nodes never coincide. */
  ghost predicate CollisionFree(h: string -> nat, nodes: set<string>) {
    forall n, m, v, w | n in nodes && m in nodes && 0 <= v < VIRTUAL_NODES && 0 <= w < VIRTUAL_NODES ::
      h(Label(n, v)) == h(Label(m, w)) ==> n == m
  }

  // ---------- specification ----------

  function InsertPoints(ring: Points, h: string -> nat, node: string, count: nat): Points
    requires count <= VIRTUAL_NODES
  {
    if count == 0 then ring else InsertPoints(ring, h, node, count - 1)[h(Label(node, count - 1)) := node]
  }

  /** Later insertions overwrite earlier ones at the same point. */
  function Build(h: string -> nat, nodes: seq<string>): Points {
    if nodes == [] then map[]
    else InsertPoints(Build(h, nodes[..|nodes| - 1]), h, nodes[|nodes| - 1], VIRTUAL_NODES)
  }

  ghost predicate IsMin(m: nat, s: set<nat>) {
    m in s && forall x :: x in s ==> m <= x
  }

  lemma {:induction false} MinExists(s: set<nat>)
    requires s != {}
    ensures exists m: nat :: IsMin(m, s)
  {
    var x :| x in s;
    if s == {x} {
      assert IsMin(x, s);
    } else {
      var rest := s - {x};
      assert rest != {};
      MinExists(rest);
      var m: nat :| IsMin(m, rest);
      assert forall y :: y in s ==> y == x || y in rest;
      assert IsMin(if m < x then m else x, s);
    }
  }

  ghost function MinOf(s: set<nat>): (m: nat)
    requires s != {}
    ensures IsMin(m, s)
  {
    MinExists(s);
    var m: nat :| IsMin(m, s);
    m
  }

  /** The points in the order a sorted map yields them. */
  ghost function Ascending(s: set<nat>): seq<nat> {
    if s == {} then [] else [MinOf(s)] + Ascending(s - {MinOf(s)})
  }

  function AtOrAfter(points: set<nat>, start: nat): set<nat> {
    set p | p in points && p >= start
  }

  function Before(points: set<nat>, start: nat): set<nat> {
    set p | p in points && p < start
  }

  /** The points at or after `start`, then the rest, each in ascending order. */
  ghost function WalkPoints(points: set<nat>, start: nat): seq<nat> {
    Ascending(AtOrAfter(points, start)) + Ascending(Before(points, start))
  }

  ghost function Owners(ring: Points, ps: seq<nat>): seq<string>
    requires forall p :: p in ps ==> p in ring
  {
    if ps == [] then [] else [ring[ps[0]]] + Owners(ring, ps[1..])
  }

  ghost function Walk(ring: Points, start: nat): seq<string> {
    AscendingMembers(AtOrAfter(ring.Keys, start));
    AscendingMembers(Before(ring.Keys, start));
    Owners(ring, WalkPoints(ring.Keys, start))
  }

  /** Keep the first occurrence of every element. */
  function Dedup(s: seq<string>): seq<string> {
    if s == [] then []
    else
      var d := Dedup(s[..|s| - 1]);
      if s[|s| - 1] in d then d else d + [s[|s| - 1]]
  }

  /** The order in which the nodes are preferred for the key. */
  ghost function Preference(h: string -> nat, key: string, nodes: seq<string>): seq<string> {
    Dedup(Walk(Build(h, nodes), h(key)))
  }

  /** The first `count` of the preferred nodes; a count of 0, or one that is never reached, takes them all. */
  function FirstOf(d: seq<string>, count: nat): seq<string> {
    if 1 <= count <= |d| then d[..count] else d
  }

  ghost function Targets(h: string -> nat, key: string, nodes: seq<string>, factor: nat): seq<string> {
    if nodes == [] then [] else
    FirstOf(Preference(h, key, nodes), if factor <= |nodes| then factor else |nodes|)
  }

  // ---------- the algorithm ----------

  method GetReplicationNodes(h: string -> nat, key: string, nodes: seq<string>, factor: nat)
    returns (targets: seq<string>)
    ensures targets == Targets(h, key, nodes, factor)
  {
    if |nodes| == 0 {
      return [];
    }
    var count := if factor <= |nodes| then factor else |nodes|;
    var ring := BuildRing(h, nodes);
    var walk := Around(ring, h(key));
    targets := FirstDistinct(walk, count);
  }

  /** The chained iterators: from the start to the end of the ring, then from its beginning. */
  method Around(ring: Points, start: nat) returns (walk: seq<string>)
    ensures walk == Walk(ring, start)
  {
    var iter1 := InOrder(AtOrAfter(ring.Keys, start));
    var iter2 := InOrder(Before(ring.Keys, start));
    var chain := iter1 + iter2;
    forall i | 0 <= i < |chain|
      ensures chain[i] in ring
    {
      assert chain[i] in iter1 || chain[i] in iter2;
    }
    walk := seq(|chain|, i requires 0 <= i < |chain| => ring[chain[i]]);
    OwnersAt(ring, chain);
  }

  /** Collect nodes in walk order, skipping repeats, until `count` have been found. */
  method FirstDistinct(walk: seq<string>, count: nat) returns (targets: seq<string>)
    ensures targets == FirstOf(Dedup(walk), count)
  {
    targets := [];
    for i := 0 to |walk|
      invariant targets == Dedup(walk[..i])
      invariant count == 0 || |targets| < count
    {
      assert walk[..i + 1][..i] == walk[..i];
      if walk[i] !in targets {
        targets := targets + [walk[i]];
        if |targets| == count {
          assert walk == walk[..i + 1] + walk[i + 1..];
          DedupPrefix(walk[..i + 1], walk[i + 1..]);
          return;
        }
      }
    }
    assert walk[..|walk|] == walk;
  }

  /** A sorted map yields its keys in ascending order. */
  method InOrder(points: set<nat>) returns (s: seq<nat>)
    ensures s == Ascending(points)
    ensures forall p :: p in s <==> p in points
  {
    s := [];
    var todo := points;
    while todo != {}
      invariant s + Ascending(todo) == Ascending(points)
    {
      ghost var m := MinOf(todo);
      assert m in todo && forall q :: q in todo ==> m <= q;
      var p: nat :| p in todo && forall q :: q in todo ==> p <= q;
      AscendingStep(todo, p);
      s, todo := s + [p], todo - {p};
    }
    AscendingMembers(points);
  }

  method BuildRing(h: string -> nat, nodes: seq<string>) returns (ring: Points)
    ensures ring == Build(h, nodes)
  {
    ring := map[];
    for i := 0 to |nodes|
      invariant ring == Build(h, nodes[..i])
    {
      ghost var before := ring;
      for v := 0 to VIRTUAL_NODES
        invariant ring == InsertPoints(before, h, nodes[i], v)
      {
        ring := ring[h(Label(nodes[i], v)) := nodes[i]];
      }
      assert nodes[..i + 1][..i] == nodes[..i];
    }
    assert nodes[..|nodes|] == nodes;
  }

  // ---------- sorted walks ----------

  lemma {:induction false} AscendingStep(s: set<nat>, m: nat)
    requires IsMin(m, s)
    ensures Ascending(s) == [m] + Ascending(s - {m})
  {
  }

  lemma {:induction false} AscendingMembers(s: set<nat>)
    ensures forall p :: p in Ascending(s) <==> p in s
  {
    if s != {} {
      var m := MinOf(s);
      AscendingMembers(s - {m});
    }
  }

  /** Dropping points from a sorted walk is walking the remaining points. */
  lemma {:induction false} FilterAscending(s: set<nat>, keep: nat -> bool)
    ensures Filter(Ascending(s), keep) == Ascending(set p | p in s && keep(p))
  {
    var kept := set p | p in s && keep(p);
    if s != {} {
      var m := MinOf(s);
      FilterAscending(s - {m}, keep);
      if keep(m) {
        assert IsMin(m, kept);
        AscendingStep(kept, m);
        assert (set p | p in s - {m} && keep(p)) == kept - {m};
      } else {
        assert (set p | p in s - {m} && keep(p)) == kept;
      }
    }
  }

  lemma {:induction false} OwnersAt(ring: Points, ps: seq<nat>)
    requires forall p :: p in ps ==> p in ring
    ensures |Owners(ring, ps)| == |ps|
    ensures forall i :: 0 <= i < |ps| ==> Owners(ring, ps)[i] == ring[ps[i]]
  {
    if ps != [] {
      OwnersAt(ring, ps[1..]);
    }
  }

  lemma {:induction false} OwnersMembers(ring: Points, ps: seq<nat>)
    requires forall p :: p in ps ==> p in ring
    ensures forall n :: n in Owners(ring, ps) <==> exists p :: p in ps && ring[p] == n
  {
    if ps != [] {
      OwnersMembers(ring, ps[1..]);
      assert ps == [ps[0]] + ps[1..];
    }
  }

  lemma {:induction false} WalkMembers(ring: Points, start: nat)
    ensures forall n :: n in Walk(ring, start) <==> n in ring.Values
  {
    AscendingMembers(AtOrAfter(ring.Keys, start));
    AscendingMembers(Before(ring.Keys, start));
    OwnersMembers(ring, WalkPoints(ring.Keys, start));
  }

  // ---------- first occurrences ----------

  lemma {:induction false} DedupIsDistinct(s: seq<string>)
    ensures NoRepeats(Dedup(s)) && forall x :: x in Dedup(s) <==> x in s
  {
    if s != [] {
      DedupIsDistinct(s[..|s| - 1]);
      assert s == s[..|s| - 1] + [s[|s| - 1]];
    }
  }

  lemma {:induction false} DedupPrefix(a: seq<string>, b: seq<string>)
    ensures Dedup(a) <= Dedup(a + b)
  {
    if b == [] {
      assert a + b == a;
    } else {
      assert (a + b)[..|a + b| - 1] == a + b[..|b| - 1];
      DedupPrefix(a, b[..|b| - 1]);
    }
  }

  lemma {:induction false} DedupFilter(s: seq<string>, keep: string -> bool)
    ensures Dedup(Filter(s, keep)) == Filter(Dedup(s), keep)
  {
    if s != [] {
      var front, last := s[..|s| - 1], s[|s| - 1];
      assert s == front + [last];
      DedupFilter(front, keep);
      FilterAppend(front, [last], keep);
      assert Filter([last], keep) == if keep(last) then [last] else [];
      FilterMembers(Dedup(front), keep);
      if last !in Dedup(front) {
        FilterAppend(Dedup(front), [last], keep);
      }
      if keep(last) {
        assert (Filter(front, keep) + [last])[..|Filter(front, keep)|] == Filter(front, keep);
      } else {
        assert Filter(s, keep) == Filter(front, keep);
      }
    }
  }

  // ---------- what the ring contains ----------

  /** `node` owns the point `p`. */
  ghost predicate OwnsPoint(h: string -> nat, node: string, p: nat) {
    exists v :: 0 <= v < VIRTUAL_NODES && h(Label(node, v)) == p
  }

  lemma {:induction false} InsertPointsContents(ring: Points, h: string -> nat, node: string, count: nat, p: nat)
    requires count <= VIRTUAL_NODES
    ensures var r := InsertPoints(ring, h, node, count);
      if exists v :: 0 <= v < count && h(Label(node, v)) == p then p in r && r[p] == node
      else (p in r <==> p in ring) && (p in r ==> r[p] == ring[p])
  {
    if count > 0 {
      InsertPointsContents(ring, h, node, count - 1, p);
    }
  }

  /** Without collisions the ring depends only on the set of nodes. */
  lemma {:induction false} BuildContents(h: string -> nat, nodes: seq<string>, p: nat)
    requires CollisionFree(h, Members(nodes))
    ensures p in Build(h, nodes) <==> exists n :: n in nodes && OwnsPoint(h, n, p)
    ensures forall n :: n in nodes && OwnsPoint(h, n, p) ==> p in Build(h, nodes) && Build(h, nodes)[p] == n
  {
    if nodes != [] {
      var front, last := nodes[..|nodes| - 1], nodes[|nodes| - 1];
      assert nodes == front + [last];
      assert last in Members(nodes) && Members(front) <= Members(nodes);
      BuildContents(h, front, p);
      InsertPointsContents(Build(h, front), h, last, VIRTUAL_NODES, p);
      forall n | n in nodes && OwnsPoint(h, n, p) && OwnsPoint(h, last, p)
        ensures n == last
      {
        assert n in Members(nodes);
      }
    }
  }

  lemma {:induction false} BuildOfSameNodes(h: string -> nat, nodes: seq<string>, others: seq<string>)
    requires Members(nodes) == Members(others) && CollisionFree(h, Members(nodes))
    ensures Build(h, nodes) == Build(h, others)
  {
    assert forall n :: n in nodes <==> n in Members(nodes);
    assert forall n :: n in others <==> n in Members(others);
    forall p: nat
      ensures p in Build(h, nodes) <==> p in Build(h, others)
      ensures p in Build(h, nodes) ==> Build(h, nodes)[p] == Build(h, others)[p]
    {
      BuildContents(h, nodes, p);
      BuildContents(h, others, p);
    }
  }

  /** The ring is the same for every order of the same nodes exactly when no points collide. */
  lemma {:induction false} RingIgnoresOrderIffCollisionFree(h: string -> nat, S: set<string>)
    ensures CollisionFree(h, S) <==>
      forall p, q :: Members(p) == S == Members(q) ==> Build(h, p) == Build(h, q)
  {
    if CollisionFree(h, S) {
      forall p, q | Members(p) == S == Members(q)
        ensures Build(h, p) == Build(h, q)
      {
        BuildOfSameNodes(h, p, q);
      }
    } else {
      var n, m, v, w :| n in S && m in S && 0 <= v < VIRTUAL_NODES && 0 <= w < VIRTUAL_NODES &&
                        h(Label(n, v)) == h(Label(m, w)) && n != m;
      var s := Enumerate(S);
      assert Members(s + [n]) == Members(s) + {n} && Members(s + [m]) == Members(s) + {m};
      CollisionGoesToTheLast(h, s, n, v);
      CollisionGoesToTheLast(h, s, m, w);
    }
  }

  /** The node listed last gets its points, whoever else they belong to. */
  lemma {:induction false} CollisionGoesToTheLast(h: string -> nat, s: seq<string>, n: string, v: nat)
    requires v < VIRTUAL_NODES
    ensures var ring := Build(h, s + [n]); h(Label(n, v)) in ring && ring[h(Label(n, v))] == n
  {
    assert (s + [n])[..|s|] == s;
    InsertPointsContents(Build(h, s), h, n, VIRTUAL_NODES, h(Label(n, v)));
  }

  /** Only listed nodes own points of the ring. */
  lemma {:induction false} BuildOwners(h: string -> nat, nodes: seq<string>, p: nat)
    ensures p in Build(h, nodes) ==> Build(h, nodes)[p] in nodes && OwnsPoint(h, Build(h, nodes)[p], p)
  {
    if nodes != [] {
      var front, last := nodes[..|nodes| - 1], nodes[|nodes| - 1];
      assert nodes == front + [last];
      BuildOwners(h, front, p);
      InsertPointsContents(Build(h, front), h, last, VIRTUAL_NODES, p);
    }
  }

  /** The `i`-th listed node owns the point, and no node listed after it does. */
  ghost predicate LastAt(h: string -> nat, nodes: seq<string>, i: nat, p: nat) {
    i < |nodes| && OwnsPoint(h, nodes[i], p) && forall j :: i < j < |nodes| ==> !OwnsPoint(h, nodes[j], p)
  }

  lemma {:induction false} LastAtEarlier(h: string -> nat, nodes: seq<string>, i: nat, p: nat)
    requires i < |nodes| - 1
    ensures LastAt(h, nodes, i, p) <==>
            LastAt(h, nodes[..|nodes| - 1], i, p) && !OwnsPoint(h, nodes[|nodes| - 1], p)
  {
  }

  /** The ring has exactly the points of the listed nodes. */
  lemma {:induction false} ListedPointsAreOnTheRing(h: string -> nat, nodes: seq<string>, p: nat)
    ensures p in Build(h, nodes) <==> exists n :: n in nodes && OwnsPoint(h, n, p)
  {
    if nodes != [] {
      var front, last := nodes[..|nodes| - 1], nodes[|nodes| - 1];
      assert forall n :: n in nodes <==> n in front || n == last;
      ListedPointsAreOnTheRing(h, front, p);
      InsertPointsContents(Build(h, front), h, last, VIRTUAL_NODES, p);
      assert OwnsPoint(h, last, p) ==> last in nodes && p in Build(h, nodes);
      assert !OwnsPoint(h, last, p) ==> (p in Build(h, nodes) <==> p in Build(h, front));
    }
  }

  /** Each point on the ring belongs to the last listed node that owns it. */
  lemma {:induction false} LastListedOwnsPoint(h: string -> nat, nodes: seq<string>, p: nat)
    ensures p in Build(h, nodes) <==> exists i: nat :: LastAt(h, nodes, i, p)
    ensures forall i: nat :: LastAt(h, nodes, i, p) ==> p in Build(h, nodes) && Build(h, nodes)[p] == nodes[i]
  {
    if nodes != [] {
      var front, last, n := nodes[..|nodes| - 1], nodes[|nodes| - 1], |nodes| - 1;
      LastListedOwnsPoint(h, front, p);
      InsertPointsContents(Build(h, front), h, last, VIRTUAL_NODES, p);
      assert LastAt(h, nodes, n, p) <==> OwnsPoint(h, last, p);
      forall i: nat | i < n
        ensures LastAt(h, nodes, i, p) <==> LastAt(h, front, i, p) && !OwnsPoint(h, last, p)
      {
        LastAtEarlier(h, nodes, i, p);
      }
    }
  }

  /** Some point of the node belongs to no node listed after it. */
  ghost predicate KeepsPoint(h: string -> nat, nodes: seq<string>, n: string) {
    exists i: nat, v: nat ::
      i < |nodes| && nodes[i] == n && v < VIRTUAL_NODES && LastAt(h, nodes, i, h(Label(n, v)))
  }

  ghost function Keepers(h: string -> nat, nodes: seq<string>): set<string> {
    set n | n in nodes && KeepsPoint(h, nodes, n)
  }

  ghost predicate AllKeepPoints(h: string -> nat, nodes: seq<string>) {
    forall n :: n in nodes ==> KeepsPoint(h, nodes, n)
  }

  lemma {:induction false} KeepersAreOnTheRing(h: string -> nat, nodes: seq<string>)
    ensures Build(h, nodes).Values == Keepers(h, nodes)
  {
    forall n | n in Build(h, nodes).Values
      ensures n in Keepers(h, nodes)
    {
      var p :| p in Build(h, nodes) && Build(h, nodes)[p] == n;
      LastListedOwnsPoint(h, nodes, p);
      var i: nat :| LastAt(h, nodes, i, p);
      var v :| 0 <= v < VIRTUAL_NODES && h(Label(n, v)) == p;
    }
    forall n | n in Keepers(h, nodes)
      ensures n in Build(h, nodes).Values
    {
      var i: nat, v: nat :|
        i < |nodes| && nodes[i] == n && v < VIRTUAL_NODES && LastAt(h, nodes, i, h(Label(n, v)));
      LastListedOwnsPoint(h, nodes, h(Label(n, v)));
    }
  }

  /** The preference order lists exactly the nodes that keep a point, each once. */
  lemma {:induction false} PreferenceMembers(h: string -> nat, key: string, nodes: seq<string>)
    ensures NoRepeats(Preference(h, key, nodes))
    ensures Members(Preference(h, key, nodes)) == Keepers(h, nodes) <= Members(nodes)
    ensures |Preference(h, key, nodes)| == |Keepers(h, nodes)| <= |nodes|
  {
    var ring, d := Build(h, nodes), Preference(h, key, nodes);
    WalkMembers(ring, h(key));
    DedupIsDistinct(Walk(ring, h(key)));
    KeepersAreOnTheRing(h, nodes);
    assert Members(d) == ring.Values;
    CardinalityOfNoRepeats(d);
    CardinalityBound(nodes);
    SubsetSize(ring.Values, Members(nodes));
  }

  lemma {:induction false} CollisionFreeKeepsPoints(h: string -> nat, nodes: seq<string>)
    requires CollisionFree(h, Members(nodes))
    ensures AllKeepPoints(h, nodes)
  {
    forall n | n in nodes
      ensures KeepsPoint(h, nodes, n)
    {
      var p := h(Label(n, 0));
      assert OwnsPoint(h, n, p);
      ListedPointsAreOnTheRing(h, nodes, p);
      LastListedOwnsPoint(h, nodes, p);
      var i: nat :| LastAt(h, nodes, i, p);
      assert nodes[i] in Members(nodes) && n in Members(nodes);
    }
  }

  // ---------- theorems ----------

  lemma {:induction false} TargetsArePreferred(h: string -> nat, key: string, nodes: seq<string>, factor: nat)
    ensures Targets(h, key, nodes, factor) == FirstOf(Preference(h, key, nodes), factor)
  {
    PreferenceMembers(h, key, nodes);
  }

  /** For any hash, the target list repeats no node, is a prefix of the key's preference order, and
      for a positive factor has exactly min(factor, number of nodes that keep a point) members. */
  lemma {:induction false} TargetsAreDistinct(h: string -> nat, key: string, nodes: seq<string>, factor: nat)
    ensures var ts, keepers := Targets(h, key, nodes, factor), |Keepers(h, nodes)|;
      && NoRepeats(ts) && ts <= Preference(h, key, nodes)
      && |ts| == if 1 <= factor <= keepers then factor else keepers
  {
    PreferenceMembers(h, key, nodes);
  }

  /** Without collisions, that many of the listed nodes are different targets. */
  lemma {:induction false} CollisionFreeTargets(h: string -> nat, key: string, nodes: seq<string>, factor: nat)
    requires NoRepeats(nodes) && CollisionFree(h, Members(nodes))
    ensures var ts := Targets(h, key, nodes, factor);
      && NoRepeats(ts) && Members(ts) <= Members(nodes)
      && |ts| == if 1 <= factor <= |nodes| then factor else |nodes|
  {
    CollisionFreeKeepsPoints(h, nodes);
    CardinalityOfNoRepeats(nodes);
    assert Keepers(h, nodes) == Members(nodes);
    TargetsAreDistinct(h, key, nodes, factor);
    PreferenceMembers(h, key, nodes);
    assert forall n :: n in Targets(h, key, nodes, factor) ==> n in Members(Preference(h, key, nodes));
  }

  /** The target list depends on the ring alone, so not on the order of the node slice or on
      repeats in it if no points collide. */
  lemma {:induction false} TargetsIgnoreSliceOrder(
      h: string -> nat, key: string, nodes: seq<string>, others: seq<string>, factor: nat)
    ensures Build(h, nodes) == Build(h, others) ==> Targets(h, key, nodes, factor) == Targets(h, key, others, factor)
    ensures Members(nodes) == Members(others) && CollisionFree(h, Members(nodes)) ==>
            Targets(h, key, nodes, factor) == Targets(h, key, others, factor)
  {
    TargetsArePreferred(h, key, nodes, factor);
    TargetsArePreferred(h, key, others, factor);
    if Members(nodes) == Members(others) && CollisionFree(h, Members(nodes)) {
      BuildOfSameNodes(h, nodes, others);
    }
  }

  /** Replicating with the length of the slice as the factor names exactly the nodes that keep a
      point, each once; so every node exactly if no node has all its points taken by later ones. */
  lemma {:induction false} FullFactorNamesEveryNode(h: string -> nat, key: string, nodes: seq<string>)
    ensures var ts := Targets(h, key, nodes, |nodes|);
      && NoRepeats(ts) && Members(ts) == Keepers(h, nodes)
      && (Members(ts) == Members(nodes) <==> AllKeepPoints(h, nodes))
  {
    PreferenceMembers(h, key, nodes);
    assert Keepers(h, nodes) == Members(nodes) <==> forall n :: n in Members(nodes) ==> KeepsPoint(h, nodes, n);
  }

  /** A write does not reach a node whose points are all points of a node listed after it. */
  lemma {:induction false} HiddenNodeIsNotNamed(h: string -> nat, key: string, n: string, m: string)
    requires n != m && forall v :: 0 <= v < VIRTUAL_NODES ==> OwnsPoint(h, m, h(Label(n, v)))
    ensures Targets(h, key, [n, m], 2) == [m]
  {
    var nodes := [n, m];
    forall v | 0 <= v < VIRTUAL_NODES
      ensures !LastAt(h, nodes, 0, h(Label(n, v)))
    {
      assert OwnsPoint(h, nodes[1], h(Label(n, v)));
    }
    assert LastAt(h, nodes, 1, h(Label(m, 0))) by {
      assert OwnsPoint(h, m, h(Label(m, 0)));
    }
    assert !KeepsPoint(h, nodes, n) && KeepsPoint(h, nodes, m);
    assert Keepers(h, nodes) == {m};
    TargetsAreDistinct(h, key, nodes, 2);
    PreferenceMembers(h, key, nodes);
    assert Preference(h, key, nodes)[0] in Members(Preference(h, key, nodes));
  }

  /** With factor 0 the loop never breaks: the answer is the same as with the largest factor. */
  lemma {:induction false} ZeroFactorNamesEveryNode(h: string -> nat, key: string, nodes: seq<string>)
    ensures Targets(h, key, nodes, 0) == Targets(h, key, nodes, |nodes|)
    ensures Members(Targets(h, key, nodes, 0)) == Members(nodes) <==> AllKeepPoints(h, nodes)
  {
    PreferenceMembers(h, key, nodes);
    FullFactorNamesEveryNode(h, key, nodes);
  }

  lemma {:induction false} FilterOwners(
      ring: Points, smaller: Points, ps: seq<nat>, keepPoint: nat -> bool, keepNode: string -> bool)
    requires forall p :: p in ps ==> p in ring && (keepPoint(p) <==> keepNode(ring[p]))
    requires forall p :: p in ps && keepPoint(p) ==> p in smaller && smaller[p] == ring[p]
    ensures forall p :: p in Filter(ps, keepPoint) ==> p in smaller
    ensures Filter(Owners(ring, ps), keepNode) == Owners(smaller, Filter(ps, keepPoint))
  {
    FilterMembers(ps, keepPoint);
    if ps != [] {
      FilterOwners(ring, smaller, ps[1..], keepPoint, keepNode);
    }
  }

  function Without(ring: Points, x: string): Points {
    map p | p in ring && ring[p] != x :: ring[p]
  }

  /** Removing a node's points from the ring removes the node from every walk, and nothing else. */
  lemma {:induction false} WalkWithout(ring: Points, smaller: Points, start: nat, x: string)
    requires smaller == Without(ring, x)
    ensures Filter(Walk(ring, start), n => n != x) == Walk(smaller, start)
  {
    var keepPoint, keepNode := (p: nat) => p in smaller, (n: string) => n != x;
    var high, low := AtOrAfter(ring.Keys, start), Before(ring.Keys, start);
    AscendingMembers(high);
    AscendingMembers(low);
    FilterAscending(high, keepPoint);
    FilterAscending(low, keepPoint);
    assert (set p | p in high && keepPoint(p)) == AtOrAfter(smaller.Keys, start);
    assert (set p | p in low && keepPoint(p)) == Before(smaller.Keys, start);
    FilterAppend(Ascending(high), Ascending(low), keepPoint);
    FilterOwners(ring, smaller, WalkPoints(ring.Keys, start), keepPoint, keepNode);
  }

  // ---------- what a join changes ----------

  /** Walking clockwise from `start`, point `p` is met before point `q`. */
  predicate Clockwise(start: nat, p: nat, q: nat) {
    if (p >= start) == (q >= start) then p < q else p >= start
  }

  /** `q` is the first point of the ring met clockwise from `start`. */
  ghost predicate FirstFrom(ring: Points, start: nat, q: nat) {
    q in ring && forall r :: r in ring && r != q ==> Clockwise(start, q, r)
  }

  /** From the point `p` of `ring`, the first point of `rest` belongs to the same node. */
  ghost predicate CoveredAt(rest: Points, ring: Points, p: nat)
    requires p in ring
  {
    exists q :: FirstFrom(rest, p, q) && rest[q] == ring[p]
  }

  ghost predicate Covers(rest: Points, ring: Points) {
    forall p {:trigger CoveredAt(rest, ring, p)} :: p in ring ==> CoveredAt(rest, ring, p)
  }

  /** For the key, the join changes the preference order only by inserting the new node somewhere. */
  ghost predicate OnlyInserts(h: string -> nat, key: string, nodes: seq<string>, more: seq<string>, x: string) {
    Filter(Preference(h, key, more), n => n != x) == Preference(h, key, nodes)
  }

  /** Each point that the new node takes away is followed, clockwise and apart from the new node's
      points and other such points, by a point of the same owner; and no other point changes hands. */
  ghost predicate JoinsHarmlessly(h: string -> nat, nodes: seq<string>, more: seq<string>, x: string) {
    Covers(Without(Build(h, more), x), Build(h, nodes))
  }

  /** For any hash and any order of the two slices: a join changes every key's preference order only
      by inserting the new node exactly when it is harmless. */
  lemma {:induction false} JoinOnlyInsertsIff(h: string -> nat, nodes: seq<string>, more: seq<string>, x: string)
    requires Members(more) == Members(nodes) + {x}
    ensures (forall key :: OnlyInserts(h, key, nodes, more, x)) <==> JoinsHarmlessly(h, nodes, more, x)
  {
    var ring, rest := Build(h, nodes), Without(Build(h, more), x);
    forall key
      ensures OnlyInserts(h, key, nodes, more, x) <==> Dedup(Walk(rest, h(key))) == Dedup(Walk(ring, h(key)))
    {
      WalkWithout(Build(h, more), rest, h(key), x);
      DedupFilter(Walk(Build(h, more), h(key)), n => n != x);
    }
    if JoinsHarmlessly(h, nodes, more, x) {
      OldPointsRemain(h, nodes, more, x);
      forall key ensures OnlyInserts(h, key, nodes, more, x) {
        CoveredOrdersAgree(ring, rest, h(key));
      }
    }
    if forall key :: OnlyInserts(h, key, nodes, more, x) {
      forall p | p in ring
        ensures CoveredAt(rest, ring, p)
      {
        BuildOwners(h, nodes, p);
        var v :| 0 <= v < VIRTUAL_NODES && h(Label(ring[p], v)) == p;
        assert OnlyInserts(h, Label(ring[p], v), nodes, more, x);
        assert FirstFrom(ring, p, p);
        OrderStartsAt(ring, p, p);
        var q := FirstExists(rest, p);
        OrderStartsAt(rest, p, q);
      }
    }
  }

  lemma {:induction false} OldPointsRemain(h: string -> nat, nodes: seq<string>, more: seq<string>, x: string)
    requires Members(more) == Members(nodes) + {x}
    ensures Without(Build(h, more), x).Keys <= Build(h, nodes).Keys
  {
    forall p | p in Without(Build(h, more), x)
      ensures p in Build(h, nodes)
    {
      BuildOwners(h, more, p);
      assert Build(h, more)[p] in Members(more);
      ListedPointsAreOnTheRing(h, nodes, p);
    }
  }

  /** A walk that meets any point has a first one, which heads the order of the nodes. */
  lemma {:induction false} FirstExists(ring: Points, start: nat) returns (q: nat)
    requires Dedup(Walk(ring, start)) != []
    ensures FirstFrom(ring, start, q)
  {
    var ps := WalkPoints(ring.Keys, start);
    WalkIsClockwise(ring.Keys, start);
    WalkPointsMembers(ring.Keys, start);
    q := ps[0];
    forall r | r in ring && r != q
      ensures Clockwise(start, q, r)
    {
      var j :| 0 <= j < |ps| && ps[j] == r;
    }
  }

  lemma {:induction false} OrderStartsAt(ring: Points, start: nat, q: nat)
    requires FirstFrom(ring, start, q)
    ensures Dedup(Walk(ring, start)) != [] && Dedup(Walk(ring, start))[0] == ring[q]
  {
    var ps, walk := WalkPoints(ring.Keys, start), Walk(ring, start);
    WalkIsClockwise(ring.Keys, start);
    WalkPointsMembers(ring.Keys, start);
    var i :| 0 <= i < |ps| && ps[i] == q;
    assert ps[0] in ps;
    assert ps[0] == q;
    OwnersAt(ring, ps);
    assert walk == [walk[0]] + walk[1..];
    DedupPrefix([walk[0]], walk[1..]);
    assert [walk[0]][..0] == [] && Dedup([walk[0]]) == [walk[0]];
  }

  lemma {:induction false} WalkPointsMembers(points: set<nat>, start: nat)
    ensures forall p :: p in WalkPoints(points, start) <==> p in points
  {
    AscendingMembers(AtOrAfter(points, start));
    AscendingMembers(Before(points, start));
  }

  /** Points whose owner is met next anyway can be dropped, one by one, without changing the order
      of the nodes from any start. */
  lemma {:induction false} CoveredOrdersAgree(ring: Points, rest: Points, start: nat)
    requires rest.Keys <= ring.Keys && Covers(rest, ring)
    ensures Dedup(Walk(ring, start)) == Dedup(Walk(rest, start))
    decreases |ring.Keys - rest.Keys|
  {
    if ring.Keys == rest.Keys {
      CoveredWithin(ring, rest);
    } else {
      var p :| p in ring && p !in rest;
      StillCovered(ring, rest, p);
      CoveredOrdersAgree(ring - {p}, rest, start);
      DropPoint(ring, rest, p, start);
    }
  }

  lemma {:induction false} StillCovered(ring: Points, rest: Points, p: nat)
    requires rest.Keys <= ring.Keys && Covers(rest, ring) && p in ring && p !in rest
    ensures rest.Keys <= (ring - {p}).Keys && Covers(rest, ring - {p})
    ensures |(ring - {p}).Keys - rest.Keys| < |ring.Keys - rest.Keys|
  {
    var less := ring - {p};
    assert less.Keys - rest.Keys == (ring.Keys - rest.Keys) - {p};
    forall r | r in less ensures CoveredAt(rest, less, r) {
      assert CoveredAt(rest, ring, r);
      var q :| FirstFrom(rest, r, q) && rest[q] == ring[r];
      assert rest[q] == less[r];
    }
  }

  lemma {:induction false} CoveredWithin(ring: Points, rest: Points)
    requires rest.Keys == ring.Keys && Covers(rest, ring)
    ensures ring == rest
  {
    forall p | p in ring
      ensures ring[p] == rest[p]
    {
      assert CoveredAt(rest, ring, p);
      var q :| FirstFrom(rest, p, q) && rest[q] == ring[p];
    }
  }

  lemma {:induction false} DropPoint(ring: Points, rest: Points, p: nat, start: nat)
    requires rest.Keys <= ring.Keys && Covers(rest, ring) && p in ring && p !in rest
    ensures Dedup(Walk(ring, start)) == Dedup(Walk(ring - {p}, start))
  {
    var ps, less := WalkPoints(ring.Keys, start), ring - {p};
    WalkPointsMembers(ring.Keys, start);
    var i :| 0 <= i < |ps| && ps[i] == p;
    var a, b := ps[..i], ps[i + 1..];
    PointsDropping(ring.Keys, p, start, i);
    assert less.Keys == ring.Keys - {p};
    OwnersDropping(ring, p, a, b);
    NextHasSameOwner(ring, rest, p, start, i);
    FirstOwner(less, a);
    FirstOwner(less, b);
    DedupSkips(Owners(less, a), ring[p], Owners(less, b));
  }

  /** Dropping a point from the ring drops it from the walk. */
  lemma {:induction false} PointsDropping(points: set<nat>, p: nat, start: nat, i: nat)
    requires i < |WalkPoints(points, start)| && WalkPoints(points, start)[i] == p
    ensures var ps := WalkPoints(points, start);
      && WalkPoints(points - {p}, start) == ps[..i] + ps[i + 1..]
      && ps == ps[..i] + [p] + ps[i + 1..]
      && p !in ps[..i] + ps[i + 1..]
  {
    var keep := (q: nat) => q != p;
    FilterWalk(points, p, start, keep);
    WalkHasNoRepeats(points, start);
    RemoveOne(WalkPoints(points, start), i, keep);
  }

  lemma {:induction false} WalkHasNoRepeats(points: set<nat>, start: nat)
    ensures NoRepeats(WalkPoints(points, start))
  {
    WalkIsClockwise(points, start);
  }

  lemma {:induction false} FilterWalk(points: set<nat>, p: nat, start: nat, keep: nat -> bool)
    requires forall q :: keep(q) <==> q != p
    ensures Filter(WalkPoints(points, start), keep) == WalkPoints(points - {p}, start)
  {
    var high, low := AtOrAfter(points, start), Before(points, start);
    FilterAscending(high, keep);
    FilterAscending(low, keep);
    FilterAppend(Ascending(high), Ascending(low), keep);
    assert (set q | q in high && keep(q)) == AtOrAfter(points - {p}, start);
    assert (set q | q in low && keep(q)) == Before(points - {p}, start);
  }

  lemma {:induction false} OwnersDropping(ring: Points, p: nat, a: seq<nat>, b: seq<nat>)
    requires p in ring && p !in a + b && forall r :: r in a + b ==> r in ring
    ensures forall r :: r in a + [p] + b ==> r in ring
    ensures var less := ring - {p};
      && (forall r :: r in a ==> r in less) && (forall r :: r in b ==> r in less)
      && Owners(ring, a + [p] + b) == Owners(less, a) + [ring[p]] + Owners(less, b)
      && Owners(less, a + b) == Owners(less, a) + Owners(less, b)
  {
    var less := ring - {p};
    assert forall r :: (r in a ==> r in a + b) && (r in b ==> r in a + b);
    OwnersAt(ring, a + [p] + b);
    OwnersAt(less, a + b);
    OwnersAt(less, a);
    OwnersAt(less, b);
  }

  lemma {:induction false} FirstOwner(ring: Points, ps: seq<nat>)
    requires forall p :: p in ps ==> p in ring
    ensures ps == [] <==> Owners(ring, ps) == []
    ensures ps != [] ==> Owners(ring, ps)[0] == ring[ps[0]]
  {
  }

  /** `s` directly follows `p` on the ring. */
  ghost predicate Follows(ring: Points, p: nat, s: nat) {
    p in ring && s in ring && p != s && forall r :: r in ring && r != p && r != s ==> Clockwise(p, s, r)
  }

  /** The point that follows a dropped point has the same owner: it is met next on the walk or, at
      the end of the walk, was met first. */
  lemma {:induction false} NextHasSameOwner(ring: Points, rest: Points, p: nat, start: nat, i: nat)
    requires rest.Keys <= ring.Keys && Covers(rest, ring) && p in ring && p !in rest
    requires i < |WalkPoints(ring.Keys, start)| && WalkPoints(ring.Keys, start)[i] == p
    ensures var ps := WalkPoints(ring.Keys, start);
      var j := if i + 1 < |ps| then i + 1 else 0;
      j != i && ps[j] in ring && ring[ps[j]] == ring[p]
  {
    var ps := WalkPoints(ring.Keys, start);
    WalkPointsMembers(ring.Keys, start);
    assert CoveredAt(rest, ring, p);
    var q :| FirstFrom(rest, p, q) && rest[q] == ring[p];
    assert q in ps && q != p;
    NextFollows(ring, start, i);
    FollowerHasSameOwner(ring, rest, p, ps[if i + 1 < |ps| then i + 1 else 0]);
  }

  lemma {:induction false} NextFollows(ring: Points, start: nat, i: nat)
    requires 1 < |WalkPoints(ring.Keys, start)| && i < |WalkPoints(ring.Keys, start)|
    ensures var ps := WalkPoints(ring.Keys, start);
      Follows(ring, ps[i], ps[if i + 1 < |ps| then i + 1 else 0])
  {
    var ps := WalkPoints(ring.Keys, start);
    var p, s := ps[i], ps[if i + 1 < |ps| then i + 1 else 0];
    WalkPointsMembers(ring.Keys, start);
    WalkIsClockwise(ring.Keys, start);
    assert p in ps && s in ps;
    forall r | r in ring && r != p && r != s
      ensures Clockwise(p, s, r)
    {
      var g :| 0 <= g < |ps| && ps[g] == r;
    }
  }

  lemma {:induction false} FollowerHasSameOwner(ring: Points, rest: Points, p: nat, s: nat)
    requires rest.Keys <= ring.Keys && Covers(rest, ring) && p !in rest && Follows(ring, p, s)
    ensures ring[s] == ring[p]
  {
    assert CoveredAt(rest, ring, p) && CoveredAt(rest, ring, s);
    var q :| FirstFrom(rest, p, q) && rest[q] == ring[p];
    var q' :| FirstFrom(rest, s, q') && rest[q'] == ring[s];
    assert q in ring && q' in ring && q != p && q' != p;
    assert q != q' ==> Clockwise(p, q, q') && Clockwise(s, q', q);
    assert q != s ==> Clockwise(p, s, q);
    assert q' != s ==> Clockwise(p, s, q');
    assert q == q';
  }

  /** An element that has occurred before, or is repeated at once, is no new first occurrence. */
  lemma {:induction false} DedupSkips(a: seq<string>, y: string, b: seq<string>)
    requires if b == [] then a != [] && a[0] == y else b[0] == y
    ensures Dedup(a + [y] + b) == Dedup(a + b)
  {
    DedupIsDistinct(a);
    assert (a + [y])[..|a|] == a;
    if b == [] {
      assert a + [y] + b == a + [y] && a + b == a;
    } else {
      var twice := a + [y] + [y];
      DedupIsDistinct(a + [y]);
      assert twice[..|a| + 1] == a + [y];
      DedupExtends(twice, a + [y], b[1..]);
      assert a + [y] + b == twice + b[1..] && a + b == (a + [y]) + b[1..];
    }
  }

  lemma {:induction false} DedupExtends(a: seq<string>, a': seq<string>, b: seq<string>)
    requires Dedup(a) == Dedup(a')
    ensures Dedup(a + b) == Dedup(a' + b)
  {
    if b == [] {
      assert a + b == a && a' + b == a';
    } else {
      var front := b[..|b| - 1];
      assert (a + b)[..|a + b| - 1] == a + front && (a' + b)[..|a' + b| - 1] == a' + front;
      DedupExtends(a, a', front);
    }
  }

  /** The new node takes no point away: without its points the new ring is the old one. */
  ghost predicate JoinsCleanly(h: string -> nat, nodes: seq<string>, more: seq<string>, x: string) {
    Build(h, nodes) == Without(Build(h, more), x)
  }

  lemma {:induction false} CleanIsHarmless(h: string -> nat, nodes: seq<string>, more: seq<string>, x: string)
    requires JoinsCleanly(h, nodes, more, x)
    ensures JoinsHarmlessly(h, nodes, more, x)
  {
    var ring := Build(h, nodes);
    forall p | p in ring ensures CoveredAt(ring, ring, p) {
      assert FirstFrom(ring, p, p);
    }
  }

  /** Without collisions every join is of that kind, wherever the nodes are listed. */
  lemma {:induction false} CollisionFreeJoinsCleanly(h: string -> nat, nodes: seq<string>, more: seq<string>, x: string)
    requires x !in nodes && Members(more) == Members(nodes) + {x} && CollisionFree(h, Members(more))
    ensures JoinsCleanly(h, nodes, more, x) && JoinsHarmlessly(h, nodes, more, x)
  {
    assert forall n :: n in nodes <==> n in Members(nodes);
    assert forall n :: n in more <==> n in Members(more);
    assert Members(nodes) <= Members(more);
    forall p: nat
      ensures p in Build(h, nodes) <==> p in Build(h, more) && Build(h, more)[p] != x
      ensures p in Build(h, nodes) ==> Build(h, nodes)[p] == Build(h, more)[p]
    {
      BuildContents(h, nodes, p);
      BuildContents(h, more, p);
    }
    CleanIsHarmless(h, nodes, more, x);
  }

  /** None of the nodes has a virtual point in common with `x`. */
  ghost predicate Fresh(h: string -> nat, nodes: seq<string>, x: string) {
    forall n, p :: n in nodes && OwnsPoint(h, n, p) ==> !OwnsPoint(h, x, p)
  }

  /** At point `p` the new ring differs from the old one at most in that `x` has gained it. */
  ghost predicate GainedAt(h: string -> nat, ring: Points, ring': Points, x: string, p: nat) {
    if OwnsPoint(h, x, p) then p !in ring && p in ring' && ring'[p] == x
    else (p in ring' <==> p in ring) && (p in ring ==> ring'[p] == ring[p] && ring[p] != x)
  }

  /** Even if old nodes collide with each other, a join whose points are new is of that kind when the
      old nodes keep their order. */
  lemma {:induction false} FreshJoinsCleanly(h: string -> nat, before: seq<string>, after: seq<string>, x: string)
    requires Fresh(h, before + after, x)
    ensures JoinsCleanly(h, before + after, before + [x] + after, x)
    ensures JoinsHarmlessly(h, before + after, before + [x] + after, x)
  {
    var ring, ring' := Build(h, before + after), Build(h, before + [x] + after);
    forall p: nat
      ensures p in ring <==> p in ring' && ring'[p] != x
      ensures p in ring ==> ring[p] == ring'[p]
    {
      FreshJoinAt(h, before, after, x, p);
    }
    CleanIsHarmless(h, before + after, before + [x] + after, x);
  }

  lemma {:induction false} BuildAppend(h: string -> nat, nodes: seq<string>, last: string)
    ensures Build(h, nodes + [last]) == InsertPoints(Build(h, nodes), h, last, VIRTUAL_NODES)
  {
    assert (nodes + [last])[..|nodes|] == nodes;
  }

  lemma {:induction false} FreshJoinAt(h: string -> nat, before: seq<string>, after: seq<string>, x: string, p: nat)
    requires Fresh(h, before + after, x)
    ensures GainedAt(h, Build(h, before + after), Build(h, before + [x] + after), x, p)
  {
    if after == [] {
      assert before + [] == before && before + [x] + [] == before + [x];
      BuildAppend(h, before, x);
      BuildOwners(h, before, p);
      InsertPointsContents(Build(h, before), h, x, VIRTUAL_NODES, p);
    } else {
      var front, last := after[..|after| - 1], after[|after| - 1];
      assert before + after == (before + front) + [last];
      assert before + [x] + after == (before + [x] + front) + [last];
      assert Fresh(h, before + front, x) && Fresh(h, [last], x) by {
        assert last in before + after && forall n :: n in before + front ==> n in before + after;
      }
      FreshJoinAt(h, before, front, x, p);
      BuildAppend(h, before + front, last);
      BuildAppend(h, before + [x] + front, last);
      GainSurvives(h, Build(h, before + front), Build(h, before + [x] + front), x, last, p);
    }
  }

  /** Inserting another node's points on both sides keeps the difference. */
  lemma {:induction false} GainSurvives(h: string -> nat, ring: Points, ring': Points, x: string, last: string, p: nat)
    requires GainedAt(h, ring, ring', x, p) && Fresh(h, [last], x)
    ensures GainedAt(h, InsertPoints(ring, h, last, VIRTUAL_NODES), InsertPoints(ring', h, last, VIRTUAL_NODES), x, p)
  {
    InsertPointsContents(ring, h, last, VIRTUAL_NODES, p);
    InsertPointsContents(ring', h, last, VIRTUAL_NODES, p);
    assert last in [last];
  }

  /** A node that takes all points of the only other node pushes it out of every order. */
  lemma {:induction false} TakingAllPointsDisplaces(h: string -> nat, key: string, n: string, m: string)
    requires n != m && forall v :: 0 <= v < VIRTUAL_NODES ==> OwnsPoint(h, m, h(Label(n, v)))
    ensures !OnlyInserts(h, key, [n], [n, m], m)
  {
    HiddenNodeIsNotNamed(h, key, n, m);
    PreferenceMembers(h, key, [n]);
    PreferenceMembers(h, key, [n, m]);
    FilterMembers(Preference(h, key, [n, m]), x => x != m);
    assert n !in Members(Targets(h, key, [n, m], 2));
    FullFactorNamesEveryNode(h, key, [n, m]);
    assert n !in Preference(h, key, [n, m]) by {
      assert n in Preference(h, key, [n, m]) <==> n in Members(Preference(h, key, [n, m]));
    }
    assert LastAt(h, [n], 0, h(Label(n, 0))) by {
      assert OwnsPoint(h, n, h(Label(n, 0)));
    }
    assert n in Keepers(h, [n]);
    assert n in Members(Preference(h, key, [n]));
  }

  lemma {:induction false} RemoveOne<T>(d: seq<T>, i: nat, keep: T -> bool)
    requires NoRepeats(d) && i < |d| && forall x :: keep(x) <==> x != d[i]
    ensures Filter(d, keep) == d[..i] + d[i + 1..]
  {
    assert d == d[..i] + ([d[i]] + d[i + 1..]);
    FilterAppend(d[..i], [d[i]] + d[i + 1..], keep);
    FilterAppend([d[i]], d[i + 1..], keep);
    FilterAll(d[..i], keep);
    FilterAll(d[i + 1..], keep);
  }

  /** For any fixed factor, where a join only inserts it brings in at most the new node and displaces
      at most one target. */
  lemma {:induction false} JoinDisplacesAtMostOne(
      h: string -> nat, key: string, nodes: seq<string>, more: seq<string>, x: string, factor: nat)
    requires OnlyInserts(h, key, nodes, more, x)
    ensures var before, after := Members(Targets(h, key, nodes, factor)), Members(Targets(h, key, more, factor));
      after <= before + {x} && |before - after| <= 1
  {
    var d, d' := Preference(h, key, nodes), Preference(h, key, more);
    TargetsArePreferred(h, key, nodes, factor);
    TargetsArePreferred(h, key, more, factor);
    if x in d' {
      PreferenceMembers(h, key, more);
      var i :| 0 <= i < |d'| && d'[i] == x;
      RemoveOne(d', i, n => n != x);
      PrefixesDiffer(d, d', i, factor);
    } else {
      FilterAll(d', n => n != x);
      assert Members(FirstOf(d, factor)) - Members(FirstOf(d', factor)) == {};
    }
  }

  lemma {:induction false} PrefixesDiffer(d: seq<string>, d': seq<string>, i: nat, factor: nat)
    requires i < |d'| && d == d'[..i] + d'[i + 1..]
    ensures Members(FirstOf(d', factor)) <= Members(FirstOf(d, factor)) + {d'[i]}
    ensures |Members(FirstOf(d, factor)) - Members(FirstOf(d', factor))| <= 1
  {
    var a, a' := FirstOf(d, factor), FirstOf(d', factor);
    forall n | n in a'
      ensures n in Members(a) + {d'[i]}
    {
      var j :| 0 <= j < |a'| && a'[j] == n;
      if j < i { assert a[j] == n; }
      if j > i {
        assert d[j - 1] == d'[j];
        assert a[j - 1] == n;
      }
    }
    var y := if 1 <= factor <= |d| then d[factor - 1] else "";
    forall n | n in a && n != y
      ensures n in a'
    {
      var j :| 0 <= j < |a| && a[j] == n;
      if j < i { assert a'[j] == n; } else { assert a'[j + 1] == n; }
    }
    SubsetSize(Members(a) - Members(a'), {y});
  }

  lemma {:induction false} SubsetSize<T>(a: set<T>, b: set<T>)
    requires a <= b
    ensures |a| <= |b|
  {
    assert b == a + (b - a);
  }

  // ---------- what the preference order means ----------

  lemma {:induction false} AscendingIsSorted(s: set<nat>)
    ensures forall i, j :: 0 <= i < j < |Ascending(s)| ==> Ascending(s)[i] < Ascending(s)[j]
  {
    if s != {} {
      var m := MinOf(s);
      AscendingIsSorted(s - {m});
      AscendingMembers(s - {m});
      var rest := Ascending(s - {m});
      assert Ascending(s) == [m] + rest;
      forall i | 0 <= i < |rest|
        ensures m < rest[i]
      {
        assert rest[i] in rest;
        assert rest[i] in s - {m};
      }
    }
  }

  lemma {:induction false} WalkIsClockwise(points: set<nat>, start: nat)
    ensures var w := WalkPoints(points, start);
      forall i, j :: 0 <= i < j < |w| ==> Clockwise(start, w[i], w[j])
  {
    var high, low := AtOrAfter(points, start), Before(points, start);
    AscendingIsSorted(high);
    AscendingIsSorted(low);
    AscendingMembers(high);
    AscendingMembers(low);
    assert forall i :: 0 <= i < |Ascending(high)| ==> Ascending(high)[i] in high;
    assert forall i :: 0 <= i < |Ascending(low)| ==> Ascending(low)[i] in low;
  }

  /** `x` occurs in `s` before every occurrence of `y`. */
  ghost predicate LeadsIn(s: seq<string>, x: string, y: string) {
    exists f :: 0 <= f < |s| && s[f] == x && forall g :: 0 <= g < |s| && s[g] == y ==> f < g
  }

  lemma {:induction false} DedupKeepsFirstOrder(s: seq<string>, i: nat, j: nat)
    requires i < j < |Dedup(s)|
    ensures LeadsIn(s, Dedup(s)[i], Dedup(s)[j])
  {
    var front, last := s[..|s| - 1], s[|s| - 1];
    DedupIsDistinct(front);
    var d := Dedup(front);
    if j < |d| {
      DedupKeepsFirstOrder(front, i, j);
      var f :| 0 <= f < |front| && front[f] == d[i] && forall g :: 0 <= g < |front| && front[g] == d[j] ==> f < g;
      assert s[f] == d[i];
    } else {
      assert d[i] in front;
      var f :| 0 <= f < |front| && front[f] == d[i];
      assert s[f] == d[i];
    }
  }

  lemma {:induction false} FirstOccurrence(s: seq<string>, x: string) returns (f: nat)
    requires x in s
    ensures f < |s| && s[f] == x && forall e :: 0 <= e < f ==> s[e] != x
  {
    if s[0] == x {
      f := 0;
    } else {
      f := FirstOccurrence(s[1..], x);
      f := f + 1;
    }
  }

  /** The first point of a preferred node, clockwise from the key, comes before every point of every
      node that is preferred less. */
  lemma {:induction false} FirstPointLeads(h: string -> nat, key: string, nodes: seq<string>, i: nat) returns (p: nat)
    requires i < |Preference(h, key, nodes)|
    ensures var ring, d := Build(h, nodes), Preference(h, key, nodes);
      && p in ring && ring[p] == d[i]
      && forall q :: q in ring && ring[q] !in d[..i + 1] ==> Clockwise(h(key), p, q)
  {
    var ring, start, d := Build(h, nodes), h(key), Preference(h, key, nodes);
    var ps, walk := WalkPoints(ring.Keys, start), Walk(ring, start);
    WalkPointsMembers(ring.Keys, start);
    OwnersAt(ring, ps);
    DedupIsDistinct(walk);
    assert d[i] in d;
    var f := FirstOccurrence(walk, d[i]);
    p := ps[f];
    assert p in ps;
    WalkIsClockwise(ring.Keys, start);
    forall q | q in ring && ring[q] !in d[..i + 1]
      ensures Clockwise(start, p, q)
    {
      var g :| 0 <= g < |ps| && ps[g] == q;
      assert walk[g] == ring[q] && walk[g] in d;
      var j :| 0 <= j < |d| && d[j] == ring[q];
      assert forall k :: 0 <= k <= i ==> d[k] in d[..i + 1];
      DedupKeepsFirstOrder(walk, i, j);
      var e :| 0 <= e < |walk| && walk[e] == d[i] && forall k :: 0 <= k < |walk| && walk[k] == d[j] ==> e < k;
    }
  }

  /** `x` owns the point `p`, which is met before every point of `y`. */
  ghost predicate MetFirst(ring: Points, start: nat, p: nat, x: string, y: string) {
    p in ring && ring[p] == x && forall q :: q in ring && ring[q] == y ==> Clockwise(start, p, q)
  }

  /** Nodes are preferred by the first of their points on the ring met clockwise from the key: a node
      earlier in the order owns a point that is met before every point of a later node. */
  lemma {:induction false} PreferenceIsByNearestPoint(h: string -> nat, key: string, nodes: seq<string>, i: nat, j: nat)
    requires i < j < |Preference(h, key, nodes)|
    ensures var d := Preference(h, key, nodes);
      exists p :: MetFirst(Build(h, nodes), h(key), p, d[i], d[j])
  {
    var ring, d := Build(h, nodes), Preference(h, key, nodes);
    var p := FirstPointLeads(h, key, nodes, i);
    PreferenceMembers(h, key, nodes);
    assert d[j] !in d[..i + 1];
    assert MetFirst(ring, h(key), p, d[i], d[j]);
  }

  // ---------- the ring and the targets, from the hash alone ----------

  /** The node has the point `p`: one of the ten texts hashed for it hashes to `p`. */
  ghost predicate HasPoint(h: string -> nat, n: string, p: nat) {
    exists d :: d in "0123456789" && h(n + "#" + [d]) == p
  }

  /** The point belongs to `n`, the last listed node that has it. */
  ghost predicate GoesTo(h: string -> nat, nodes: seq<string>, p: nat, n: string) {
    exists i: nat :: i < |nodes| && nodes[i] == n && HasPoint(h, n, p) &&
      forall j :: i < j < |nodes| ==> !HasPoint(h, nodes[j], p)
  }

  lemma {:induction false} PointsAreDigits(h: string -> nat, n: string, p: nat)
    ensures OwnsPoint(h, n, p) <==> HasPoint(h, n, p)
  {
    var digits := "0123456789";
    if v :| 0 <= v < VIRTUAL_NODES && h(Label(n, v)) == p {
      assert digits[v] in digits && h(n + "#" + [digits[v]]) == p;
    }
    if d :| d in digits && h(n + "#" + [d]) == p {
      var v :| 0 <= v < |digits| && digits[v] == d;
      assert h(Label(n, v)) == p;
    }
  }

  /** The ring consists of the points of the listed nodes, ten texts for each, and each point belongs to
      the last listed node that has it. */
  lemma {:induction false} RingIsTenPointsPerNode(h: string -> nat, nodes: seq<string>, p: nat)
    ensures p in Build(h, nodes) <==> exists n, d :: n in nodes && d in "0123456789" && h(n + "#" + [d]) == p
    ensures forall n :: p in Build(h, nodes) && Build(h, nodes)[p] == n <==> GoesTo(h, nodes, p, n)
  {
    ListedPointsAreOnTheRing(h, nodes, p);
    LastListedOwnsPoint(h, nodes, p);
    forall n
      ensures OwnsPoint(h, n, p) <==> HasPoint(h, n, p)
    {
      PointsAreDigits(h, n, p);
    }
    if n, d :| n in nodes && d in "0123456789" && h(n + "#" + [d]) == p {
      assert HasPoint(h, n, p);
    }
    if p in Build(h, nodes) {
      var i: nat :| LastAt(h, nodes, i, p);
      assert GoesTo(h, nodes, p, nodes[i]);
    }
    forall n | GoesTo(h, nodes, p, n)
      ensures p in Build(h, nodes) && Build(h, nodes)[p] == n
    {
      var i: nat :| i < |nodes| && nodes[i] == n && HasPoint(h, n, p) &&
        forall j :: i < j < |nodes| ==> !HasPoint(h, nodes[j], p);
      assert LastAt(h, nodes, i, p);
    }
  }

  /** A node alone on the ring has all its ten points there, if their hashes differ. */
  lemma {:induction false} AloneHasTenPoints(h: string -> nat, n: string)
    requires forall d, e :: d in "0123456789" && e in "0123456789" && h(n + "#" + [d]) == h(n + "#" + [e]) ==> d == e
    ensures |Build(h, [n])| == 10
  {
    assert [n][..0] == [];
    forall v, w | 0 <= v < w < VIRTUAL_NODES
      ensures h(Label(n, v)) != h(Label(n, w))
    {
      var digits := "0123456789";
      assert digits[v] in digits && digits[w] in digits && digits[v] != digits[w];
    }
    InsertedPoints(h, n, VIRTUAL_NODES);
  }

  lemma {:induction false} InsertedPoints(h: string -> nat, n: string, count: nat)
    requires count <= VIRTUAL_NODES
    requires forall v, w :: 0 <= v < w < VIRTUAL_NODES ==> h(Label(n, v)) != h(Label(n, w))
    ensures |InsertPoints(map[], h, n, count)| == count
  {
    if count > 0 {
      InsertedPoints(h, n, count - 1);
      InsertPointsContents(map[], h, n, count - 1, h(Label(n, count - 1)));
    }
  }

  /** For any hash, slice and factor, each target has a point that is met, clockwise from the key and
      round the end of the ring, before every point of every node that is not an earlier target. */
  lemma {:induction false} TargetsAreByNearestPoint(
      h: string -> nat, key: string, nodes: seq<string>, factor: nat, i: nat)
    requires i < |Targets(h, key, nodes, factor)|
    ensures var ts, start := Targets(h, key, nodes, factor), h(key);
      exists p: nat :: GoesTo(h, nodes, p, ts[i]) &&
        forall q: nat, n :: GoesTo(h, nodes, q, n) && n !in ts[..i + 1] ==>
          if p >= start then q < start || p < q else p < q < start
  {
    var ts, d := Targets(h, key, nodes, factor), Preference(h, key, nodes);
    TargetsAreDistinct(h, key, nodes, factor);
    assert ts[i] == d[i] && ts[..i + 1] == d[..i + 1];
    var p := FirstPointLeads(h, key, nodes, i);
    RingIsTenPointsPerNode(h, nodes, p);
    var start := h(key);
    forall q: nat, n | GoesTo(h, nodes, q, n) && n !in ts[..i + 1]
      ensures if p >= start then q < start || p < q else p < q < start
    {
      RingIsTenPointsPerNode(h, nodes, q);
      assert Clockwise(start, p, q);
    }
    assert GoesTo(h, nodes, p, ts[i]);
  }
}
