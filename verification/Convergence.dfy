/** Convergence of the nodes on a key, from the last time a record of it was taken away from them:
    by a delete of the key at the node, or by a restart of the node. */
module Convergence {
  import opened Options
  import opened Sequences
  import opened Versions
  import opened Merge
  import opened Stores
  import opened Replication

  /** The versions of the key that node `n` has written or received. */
  ghost function SeenBy(c: Cluster, n: NodeId, t: string, k: string): set<Version> {
    set m | m in c.seen && m.node == n && m.table == t && m.key == k :: m.version
  }

  /** The versions of the key that node `n` writes or receives in the course of the actions. */
  ghost function Arrived(c: Cluster, actions: seq<Action>, n: NodeId, t: string, k: string): seq<Version> {
    if actions == [] then [] else
    var front, a := actions[..|actions| - 1], actions[|actions| - 1];
    Arrived(c, front, n, t, k) + Gain(EffectOn(After(c, front), a, n, t, k))
  }

  function Gain(e: Effect): seq<Version> {
    match e
    case Wrote(v) => [v]
    case Received(v) => [v]
    case _ => []
  }

  /** What node `n` had after the first `i` actions of the run, and then wrote or received. */
  ghost function Known(run: seq<Action>, i: nat, n: NodeId, t: string, k: string): seq<Version>
    requires i <= |run|
  {
    Alone(Held(Reach(run[..i]), n, t, k)) + Arrived(Reach(run[..i]), run[i..], n, t, k)
  }

  function Alone(held: Option<Version>): seq<Version> {
    if held.None? then [] else [held.value]
  }

  /** The best of the versions is held, and something as soon as there is any. */
  ghost predicate HoldsBest(held: Option<Version>, S: set<Version>) {
    match held
    case None => S == {}
    case Some(v) => Champion(v, S)
  }

  lemma {:induction false} SeenGrowth(c: Cluster, a: Action, n: NodeId, t: string, k: string)
    ensures SeenBy(Next(c, a), n, t, k) == SeenBy(c, n, t, k) +
            Members(Gain(EffectOn(c, a, n, t, k)))
  {
    HistoryGrowth(c, a);
    var c', e := Next(c, a), EffectOn(c, a, n, t, k);
    forall v
      ensures v in SeenBy(c', n, t, k) <==> v in SeenBy(c, n, t, k) || e == Wrote(v) || e == Received(v)
    {
      var m := Message(n, t, k, v);
      assert v in SeenBy(c', n, t, k) <==> m in c'.seen;
      assert v in SeenBy(c, n, t, k) <==> m in c.seen;
    }
  }

  /** A node's own write wins over what it was applied to. */
  lemma {:induction false} WriteIsMerge(c: Cluster, a: Action, n: NodeId, t: string, k: string)
    requires EffectOn(c, a, n, t, k).Wrote?
    ensures MergedOption(Held(c, n, t, k), EffectOn(c, a, n, t, k).v) == EffectOn(c, a, n, t, k).v
  {
    if Held(c, n, t, k).Some? {
      BumpDominates(Held(c, n, t, k).value, EffectOn(c, a, n, t, k).v, a.node);
    }
  }

  /** What merging the versions one by one leaves, starting from nothing. */
  ghost function FoldOption(vs: seq<Version>): Option<Version> {
    if vs == [] then None else Some(FoldMerge(vs))
  }

  lemma {:induction false} FoldOneMore(vs: seq<Version>, v: Version)
    ensures FoldOption(vs + [v]) == Some(MergedOption(FoldOption(vs), v))
  {
    assert (vs + [v])[..|vs|] == vs;
  }

  /** From any state, whatever the versions, the clocks and the rest of the cluster: as long as no
      record of the key is taken away from a node, the node holds what it had merged, one by one,
      with everything it has written or received since. */
  lemma {:induction false} HeldSince(c: Cluster, actions: seq<Action>, n: NodeId, t: string, k: string)
    requires Keeps(actions, n, t, k)
    ensures Held(After(c, actions), n, t, k) ==
            FoldOption(Alone(Held(c, n, t, k)) + Arrived(c, actions, n, t, k))
  {
    if actions == [] {
      AloneFolds(Held(c, n, t, k));
    } else {
      var front, a := actions[..|actions| - 1], actions[|actions| - 1];
      var known := Alone(Held(c, n, t, k)) + Arrived(c, front, n, t, k);
      HeldSince(c, front, n, t, k);
      assert KeepsAt(a, n, t, k);
      HeldOneMore(After(c, front), a, n, t, k, known);
      assert Alone(Held(c, n, t, k)) + Arrived(c, actions, n, t, k) ==
             known + Gain(EffectOn(After(c, front), a, n, t, k));
    }
  }

  lemma {:induction false} HeldOneMore(c: Cluster, a: Action, n: NodeId, t: string, k: string, known: seq<Version>)
    requires KeepsAt(a, n, t, k) && Held(c, n, t, k) == FoldOption(known)
    ensures Held(Next(c, a), n, t, k) == FoldOption(known + Gain(EffectOn(c, a, n, t, k)))
  {
    var e := EffectOn(c, a, n, t, k);
    EffectIsExact(c, a, n, t, k);
    if e.Wrote? || e.Received? {
      FoldOneMore(known, e.v);
      if e.Wrote? { WriteIsMerge(c, a, n, t, k); }
    } else {
      assert known + Gain(e) == known;
    }
  }

  lemma {:induction false} AloneFolds(held: Option<Version>)
    ensures FoldOption(Alone(held) + []) == held
  {
    assert Alone(held) + [] == Alone(held);
  }

  /** In every run: since the last time a record of the key was taken away from it, a node holds the
      merge, one by one, of what it then had and of all it has written or received. */
  lemma {:induction false} HeldIsFold(run: seq<Action>, i: nat, n: NodeId, t: string, k: string)
    requires i <= |run| && Keeps(run[i..], n, t, k)
    ensures Held(Reach(run), n, t, k) == FoldOption(Known(run, i, n, t, k))
  {
    assert run[..i] + run[i..] == run;
    ReachThenAfter(run[..i], run[i..]);
    HeldSince(Reach(run[..i]), run[i..], n, t, k);
  }

  /** `v` replaces a held `e`: it dominates it, or is strictly later and not dominated by it. */
  ghost predicate Replaces(v: Version, e: Version) {
    Dominates(v, e) || (!Dominates(e, v) && v.timestamp > e.timestamp)
  }

  /** However deliveries, pulls, reads, writes and losses elsewhere interleave, a node keeps a record
      for as long as nothing replaces it; equals, ties and stale versions come and go without effect. */
  lemma {:induction false} HeldUntilReplaced(
      c: Cluster, actions: seq<Action>, n: NodeId, t: string, k: string, e: Version)
    requires Keeps(actions, n, t, k) && Held(c, n, t, k) == Some(e)
    requires forall v :: v in Arrived(c, actions, n, t, k) ==> !Replaces(v, e)
    ensures Held(After(c, actions), n, t, k) == Some(e)
  {
    if actions != [] {
      var front, a := actions[..|actions| - 1], actions[|actions| - 1];
      var last := Gain(EffectOn(After(c, front), a, n, t, k));
      assert Arrived(c, actions, n, t, k) == Arrived(c, front, n, t, k) + last;
      assert forall v :: v in last ==> v in Arrived(c, actions, n, t, k);
      HeldUntilReplaced(c, front, n, t, k, e);
      assert KeepsAt(a, n, t, k);
      StaysUnlessReplaced(After(c, front), a, n, t, k, e);
    }
  }

  lemma {:induction false} StaysUnlessReplaced(c: Cluster, a: Action, n: NodeId, t: string, k: string, e: Version)
    requires KeepsAt(a, n, t, k) && Held(c, n, t, k) == Some(e)
    requires forall v :: v in Gain(EffectOn(c, a, n, t, k)) ==> !Replaces(v, e)
    ensures Held(Next(c, a), n, t, k) == Some(e)
  {
    var f := EffectOn(c, a, n, t, k);
    EffectIsExact(c, a, n, t, k);
    assert f.Wrote? || f.Received? ==> f.v in Gain(f);
    if f.Wrote? { BumpDominates(e, f.v, n); }
  }

  /** In any state, and so along every run, whatever an action other than a loss puts in the place of a
      held record is one that replaces it. */
  lemma {:induction false} OnlyReplaced(c: Cluster, a: Action, n: NodeId, t: string, k: string)
    requires KeepsAt(a, n, t, k) && Held(c, n, t, k).Some?
    ensures var c' := Next(c, a);
      && Held(c', n, t, k).Some?
      && (Held(c', n, t, k) == Held(c, n, t, k) || Replaces(Held(c', n, t, k).value, Held(c, n, t, k).value))
  {
    EffectIsExact(c, a, n, t, k);
    if EffectOn(c, a, n, t, k).Wrote? {
      BumpDominates(Held(c, n, t, k).value, EffectOn(c, a, n, t, k).v, n);
    }
  }

  lemma {:induction false} SeenSince(c: Cluster, actions: seq<Action>, n: NodeId, t: string, k: string)
    ensures SeenBy(After(c, actions), n, t, k) == SeenBy(c, n, t, k) + Members(Arrived(c, actions, n, t, k))
  {
    if actions != [] {
      var front, a := actions[..|actions| - 1], actions[|actions| - 1];
      SeenSince(c, front, n, t, k);
      SeenGrowth(After(c, front), a, n, t, k);
    }
  }

  /** From the start of a run, what a node knows is what it has written or received in all. */
  lemma {:induction false} KnownFromStart(run: seq<Action>, n: NodeId, t: string, k: string)
    ensures Members(Known(run, 0, n, t, k)) == SeenBy(Reach(run), n, t, k)
  {
    assert run[..0] == [] && run[0..] == run && [] + run == run;
    ReachThenAfter([], run);
    SeenSince(INITIAL, run, n, t, k);
  }

  /** A node that knows a version that beats all others it knows holds that version. */
  lemma {:induction false} ChampionIsHeld(run: seq<Action>, i: nat, n: NodeId, t: string, k: string, m: Version)
    requires i <= |run| && Keeps(run[i..], n, t, k) && Champion(m, Members(Known(run, i, n, t, k)))
    ensures Held(Reach(run), n, t, k) == Some(m)
  {
    HeldIsFold(run, i, n, t, k);
    ChampionSurvives(Known(run, i, n, t, k), m);
  }

  /** In every run, over any number of nodes and with messages delivered in any order and any number
      of times, a node holds the best of all versions it knows since a record was last taken away
      from it exactly when there is a best one. */
  lemma {:induction false} NodesHoldTheBest(run: seq<Action>, i: nat, n: NodeId, t: string, k: string)
    requires i <= |run| && Keeps(run[i..], n, t, k)
    ensures var S := Members(Known(run, i, n, t, k));
      HoldsBest(Held(Reach(run), n, t, k), S) <==> S == {} || exists m :: Champion(m, S)
  {
    var p := Known(run, i, n, t, k);
    HeldIsFold(run, i, n, t, k);
    assert p != [] ==> p[0] in Members(p);
    if m :| Champion(m, Members(p)) {
      ChampionIsHeld(run, i, n, t, k, m);
    }
  }

  /** Nodes that know the same versions, each since a record was last taken away from it, hold the
      same record if one of the versions beats the others: the one that merging them in any order
      yields. */
  lemma {:induction false} Convergence(
      run: seq<Action>, i: nat, n: NodeId, j: nat, m: NodeId, t: string, k: string, S: set<Version>)
    requires i <= |run| && Keeps(run[i..], n, t, k) && Members(Known(run, i, n, t, k)) == S
    requires j <= |run| && Keeps(run[j..], m, t, k) && Members(Known(run, j, m, t, k)) == S
    requires S == {} || exists v :: Champion(v, S)
    ensures Held(Reach(run), n, t, k) == Held(Reach(run), m, t, k)
    ensures Held(Reach(run), n, t, k).None? <==> S == {}
    ensures forall p :: Arrivals(p, S) ==> Held(Reach(run), n, t, k) == Some(FoldMerge(p))
  {
    if v :| Champion(v, S) {
      ChampionIsHeld(run, i, n, t, k, v);
      ChampionIsHeld(run, j, m, t, k, v);
      forall p | Arrivals(p, S)
        ensures FoldMerge(p) == v
      {
        ChampionSurvives(p, v);
      }
    } else {
      NodesHoldTheBest(run, i, n, t, k);
      NodesHoldTheBest(run, j, m, t, k);
      NothingArrives();
    }
  }

  lemma {:induction false} NothingArrives()
    ensures forall p :: !Arrivals(p, {})
  {
    assert forall p: seq<Version> :: p != [] ==> p[0] in Members(p);
  }

  lemma {:induction false} KnownIsWritten(run: seq<Action>, i: nat, n: NodeId, t: string, k: string)
    requires i <= |run| && FaithfulRestarts(run, t, k)
    ensures Members(Known(run, i, n, t, k)) <= Writes(Reach(run).log, t, k)
  {
    var c := Reach(run[..i]);
    assert run[..i] + run[i..] == run;
    ReachThenAfter(run[..i], run[i..]);
    ReachIsGenuine(run, t, k);
    ReachIsGenuine(run[..i], t, k);
    SeenSince(c, run[i..], n, t, k);
    WritesRemain(c, run[i..], t, k);
    forall v | v in Known(run, i, n, t, k)
      ensures v in Writes(Reach(run).log, t, k)
    {
      if v in Arrived(c, run[i..], n, t, k) {
        assert v in SeenBy(Reach(run), n, t, k);
      }
    }
  }

  lemma {:induction false} WritesRemain(c: Cluster, actions: seq<Action>, t: string, k: string)
    ensures Writes(c.log, t, k) <= Writes(After(c, actions).log, t, k)
  {
    if actions != [] {
      WritesRemain(c, actions[..|actions| - 1], t, k);
      LogOnlyGrows(After(c, actions[..|actions| - 1]), actions[|actions| - 1], t, k);
    }
  }

  /** If "wins" orders the versions ever written to the key, every node holds the best it knows. */
  lemma {:induction false} LinearWritesConverge(run: seq<Action>, i: nat, n: NodeId, t: string, k: string)
    requires i <= |run| && Keeps(run[i..], n, t, k) && FaithfulRestarts(run, t, k)
    requires Linear(Writes(Reach(run).log, t, k))
    ensures HoldsBest(Held(Reach(run), n, t, k), Members(Known(run, i, n, t, k)))
  {
    KnownIsWritten(run, i, n, t, k);
    NodesHoldTheBest(run, i, n, t, k);
    var S := Members(Known(run, i, n, t, k));
    if S != {} {
      var m := LinearHasChampion(Writes(Reach(run).log, t, k), S);
    }
  }

  /** In particular if the versions ever written to the key are well-stamped: then nodes that know
      the same versions agree. */
  lemma {:induction false} WellStampedWritesConverge(
      run: seq<Action>, i: nat, n: NodeId, j: nat, m: NodeId, t: string, k: string)
    requires i <= |run| && Keeps(run[i..], n, t, k) && FaithfulRestarts(run, t, k)
    requires WellStamped(Writes(Reach(run).log, t, k))
    ensures HoldsBest(Held(Reach(run), n, t, k), Members(Known(run, i, n, t, k)))
    ensures j <= |run| && Keeps(run[j..], m, t, k) &&
            Members(Known(run, i, n, t, k)) == Members(Known(run, j, m, t, k)) ==>
            Held(Reach(run), n, t, k) == Held(Reach(run), m, t, k)
  {
    WellStampedIsLinear(Writes(Reach(run).log, t, k));
    LinearWritesConverge(run, i, n, t, k);
    if j <= |run| && Keeps(run[j..], m, t, k) && Members(Known(run, i, n, t, k)) == Members(Known(run, j, m, t, k)) {
      NodesHoldTheBest(run, i, n, t, k);
      Convergence(run, i, n, j, m, t, k, Members(Known(run, i, n, t, k)));
    }
  }

  // ---------- all orders of delivery ----------

  /** The versions of the key that the actions deliver to node `n`, in order. */
  ghost function DeliveredTo(actions: seq<Action>, n: NodeId): seq<Version> {
    if actions == [] then [] else
    var front, a := DeliveredTo(actions[..|actions| - 1], n), actions[|actions| - 1];
    if a.Receive? && a.message.node == n then front + [a.message.version] else front
  }

  /** Nothing but deliveries of versions of the key that are in flight. */
  ghost predicate OnlyDelivers(c: Cluster, actions: seq<Action>, t: string, k: string) {
    forall a :: a in actions ==>
      a.Receive? && a.message in c.inFlight && a.message.table == t && a.message.key == k
  }

  lemma {:induction false} DeliveryMerges(c: Cluster, m: Message, n: NodeId)
    requires m in c.inFlight
    ensures Next(c, Receive(m)).inFlight == c.inFlight
    ensures var held := Held(c, n, m.table, m.key);
      Held(Next(c, Receive(m)), n, m.table, m.key) ==
      if m.node == n then Some(MergedOption(held, m.version)) else held
  {
    EffectIsExact(c, Receive(m), n, m.table, m.key);
  }

  lemma {:induction false} DeliveriesFold(c: Cluster, actions: seq<Action>, n: NodeId, t: string, k: string)
    requires OnlyDelivers(c, actions, t, k) && Held(c, n, t, k) == None
    ensures After(c, actions).inFlight == c.inFlight
    ensures Held(After(c, actions), n, t, k) == FoldOption(DeliveredTo(actions, n))
  {
    if actions != [] {
      var front, a := actions[..|actions| - 1], actions[|actions| - 1];
      assert a in actions && forall x :: x in front ==> x in actions;
      DeliveriesFold(c, front, n, t, k);
      DeliveryMerges(After(c, front), a.message, n);
      FoldOneMore(DeliveredTo(front, n), a.message.version);
    }
  }

  ghost function Deliveries(n: NodeId, t: string, k: string, vs: seq<Version>): seq<Action> {
    if vs == [] then [] else Deliveries(n, t, k, vs[..|vs| - 1]) + [Receive(Message(n, t, k, vs[|vs| - 1]))]
  }

  lemma {:induction false} DeliveredAppend(a: seq<Action>, b: seq<Action>, n: NodeId)
    ensures DeliveredTo(a + b, n) == DeliveredTo(a, n) + DeliveredTo(b, n)
  {
    if b == [] {
      assert a + b == a;
    } else {
      assert (a + b)[..|a + b| - 1] == a + b[..|b| - 1];
      DeliveredAppend(a, b[..|b| - 1], n);
    }
  }

  lemma {:induction false} DeliveriesDeliver(n: NodeId, m: NodeId, t: string, k: string, vs: seq<Version>)
    ensures DeliveredTo(Deliveries(n, t, k, vs), m) == if m == n then vs else []
  {
    if vs != [] {
      var front, actions := vs[..|vs| - 1], Deliveries(n, t, k, vs);
      assert actions[..|actions| - 1] == Deliveries(n, t, k, front);
      DeliveriesDeliver(n, m, t, k, front);
    }
  }

  lemma {:induction false} DeliveriesArePossible(c: Cluster, n: NodeId, t: string, k: string, vs: seq<Version>)
    requires forall v :: v in vs ==> Message(n, t, k, v) in c.inFlight
    ensures OnlyDelivers(c, Deliveries(n, t, k, vs), t, k)
  {
    if vs != [] {
      DeliveriesArePossible(c, n, t, k, vs[..|vs| - 1]);
    }
  }

  /** The actions deliver all of `S`, and nothing else, to the node, in some order with repeats. */
  ghost predicate DeliversAll(actions: seq<Action>, n: NodeId, S: set<Version>) {
    Arrivals(DeliveredTo(actions, n), S)
  }

  /** The versions of `S` are on their way to both nodes, neither of which has the key yet. */
  ghost predicate OnTheWay(c: Cluster, p: NodeId, q: NodeId, t: string, k: string, S: set<Version>) {
    && Held(c, p, t, k) == None && Held(c, q, t, k) == None
    && forall v :: v in S ==> Message(p, t, k, v) in c.inFlight && Message(q, t, k, v) in c.inFlight
  }

  /** From any state: whatever the order in which the versions of `S`, with repetition and
      interleaving, are delivered to two nodes that do not have the key, the two end up equal
      exactly when one version of `S` beats all others. */
  lemma {:induction false} DeliveryOrdersAgreeIffChampion(
      c: Cluster, p: NodeId, q: NodeId, t: string, k: string, S: set<Version>)
    requires p != q && S != {} && OnTheWay(c, p, q, t, k, S)
    ensures (exists m :: Champion(m, S)) <==>
      forall actions ::
        OnlyDelivers(c, actions, t, k) && DeliversAll(actions, p, S) && DeliversAll(actions, q, S) ==>
        Held(After(c, actions), p, t, k) == Held(After(c, actions), q, t, k)
  {
    OrderFreeIffChampion(S);
    if OrderFree(S) {
      forall actions | OnlyDelivers(c, actions, t, k) && DeliversAll(actions, p, S) && DeliversAll(actions, q, S)
        ensures Held(After(c, actions), p, t, k) == Held(After(c, actions), q, t, k)
      {
        DeliveriesFold(c, actions, p, t, k);
        DeliveriesFold(c, actions, q, t, k);
      }
    } else {
      var a, b :| Arrivals(a, S) && Arrivals(b, S) && FoldMerge(a) != FoldMerge(b);
      var actions := OneThenOther(c, p, q, t, k, S, a, b);
    }
  }

  /** Deliver `a` to `p` and then `b` to `q`. */
  lemma {:induction false} OneThenOther(
      c: Cluster, p: NodeId, q: NodeId, t: string, k: string, S: set<Version>, a: seq<Version>, b: seq<Version>)
    returns (actions: seq<Action>)
    requires p != q && OnTheWay(c, p, q, t, k, S) && Arrivals(a, S) && Arrivals(b, S)
    ensures OnlyDelivers(c, actions, t, k) && DeliversAll(actions, p, S) && DeliversAll(actions, q, S)
    ensures Held(After(c, actions), p, t, k) == Some(FoldMerge(a))
    ensures Held(After(c, actions), q, t, k) == Some(FoldMerge(b))
  {
    actions := Deliveries(p, t, k, a) + Deliveries(q, t, k, b);
    BothPossible(c, p, q, t, k, S, a, b);
    OrdersDelivered(p, q, t, k, a, b);
    DeliveriesFold(c, actions, p, t, k);
    DeliveriesFold(c, actions, q, t, k);
  }

  lemma {:induction false} BothPossible(
      c: Cluster, p: NodeId, q: NodeId, t: string, k: string, S: set<Version>, a: seq<Version>, b: seq<Version>)
    requires OnTheWay(c, p, q, t, k, S) && Members(a) == S == Members(b)
    ensures OnlyDelivers(c, Deliveries(p, t, k, a) + Deliveries(q, t, k, b), t, k)
  {
    assert forall v :: v in a ==> v in Members(a);
    assert forall v :: v in b ==> v in Members(b);
    DeliveriesArePossible(c, p, t, k, a);
    DeliveriesArePossible(c, q, t, k, b);
  }

  lemma {:induction false} OrdersDelivered(p: NodeId, q: NodeId, t: string, k: string, a: seq<Version>, b: seq<Version>)
    requires p != q
    ensures var actions := Deliveries(p, t, k, a) + Deliveries(q, t, k, b);
      DeliveredTo(actions, p) == a && DeliveredTo(actions, q) == b
  {
    var first, second := Deliveries(p, t, k, a), Deliveries(q, t, k, b);
    assert DeliveredTo(first + second, p) == a by {
      DeliveredAppend(first, second, p);
      DeliveriesDeliver(p, p, t, k, a);
      DeliveriesDeliver(q, p, t, k, b);
    }
    assert DeliveredTo(first + second, q) == b by {
      DeliveredAppend(first, second, q);
      DeliveriesDeliver(p, q, t, k, a);
      DeliveriesDeliver(q, q, t, k, b);
    }
  }

  /** The same for the continuations of a run. */
  lemma {:induction false} RunsAgreeIffChampion(
      run: seq<Action>, p: NodeId, q: NodeId, t: string, k: string, S: set<Version>)
    requires p != q && S != {} && OnTheWay(Reach(run), p, q, t, k, S)
    ensures (exists m :: Champion(m, S)) <==>
      forall actions ::
        OnlyDelivers(Reach(run), actions, t, k) && DeliversAll(actions, p, S) && DeliversAll(actions, q, S) ==>
        Held(Reach(run + actions), p, t, k) == Held(Reach(run + actions), q, t, k)
  {
    DeliveryOrdersAgreeIffChampion(Reach(run), p, q, t, k, S);
    forall actions
      ensures Reach(run + actions) == After(Reach(run), actions)
    {
      ReachThenAfter(run, actions);
    }
  }
}
