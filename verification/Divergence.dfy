/** Why convergence needs a hypothesis: a run under one perfect global clock in which two nodes
    receive the same versions and keep different records. A merge replaces a record together with
    its clock, so a node that accepts a foreign version forgets its own counter and reuses it. */
module Divergence {
  import opened Options
  import opened Versions
  import opened Merge
  import opened Stores
  import opened Replication
  import opened Convergence

  const T := "t"
  const K := "k"

  /** Four writers and two nodes that only receive. */
  datatype Cast = Cast(a: NodeId, b: NodeId, c: NodeId, e: NodeId, p: NodeId, q: NodeId) {
    ghost predicate Distinct() {
      && a !in {b, c, e, p, q} && b !in {c, e, p, q} && c !in {e, p, q} && e !in {p, q} && p != q
    }
  }

  /** Each write of the run carries a later time than every write before it. */
  ghost predicate PerfectClock(log: seq<Write>) {
    forall i, j :: 0 <= i < j < |log| ==> log[i].result.timestamp < log[j].result.timestamp
  }

  /** What the run has brought about for the key: who holds, was sent and has seen what, and a
      time that is later than all writes. */
  datatype Scene = Scene(held: map<NodeId, Version>, sent: set<Message>, seen: set<Message>, now: nat)

  /** No action of the run takes a record away from a node. */
  ghost predicate NothingIsLost(run: seq<Action>) {
    forall i :: 0 <= i < |run| ==> !run[i].Delete? && !run[i].Restart?
  }

  ghost predicate Shows(run: seq<Action>, s: Scene) {
    && NothingIsLost(run)
    && ClockedUntil(Reach(run).log, s.now)
    && Reach(run).inFlight == s.sent
    && Reach(run).seen == s.seen
    && HoldsAll(Reach(run), s.held)
  }

  ghost predicate ClockedUntil(log: seq<Write>, now: nat) {
    PerfectClock(log) && forall i :: 0 <= i < |log| ==> log[i].result.timestamp < now
  }

  ghost predicate HoldsAll(c: Cluster, held: map<NodeId, Version>) {
    forall n :: Held(c, n, T, K) == if n in held then Some(held[n]) else None
  }

  /** User "u" writes an empty body at node `n`. */
  ghost function Authored(s: Scene, n: NodeId): Version {
    if n in s.held then Updated(s.held[n], map[], n, s.now) else Created(map[], "u", n, s.now)
  }

  ghost function AfterPut(s: Scene, n: NodeId, targets: set<NodeId>): Scene {
    var v := Authored(s, n);
    Scene(s.held[n := v], s.sent + Addressed(targets, T, K, v), s.seen + {Message(n, T, K, v)}, s.now + 1)
  }

  ghost function AfterReceive(s: Scene, n: NodeId, v: Version): Scene {
    s.(held := s.held[n := if n in s.held then Merged(s.held[n], v) else v], seen := s.seen + {Message(n, T, K, v)})
  }

  lemma {:induction false} ClockExtends(log: seq<Write>, now: nat, w: Write)
    requires ClockedUntil(log, now) && w.result.timestamp == now
    ensures ClockedUntil(log + [w], now + 1)
  {
  }

  lemma {:induction false} PutHolds(c: Cluster, s: Scene, n: NodeId, targets: set<NodeId>)
    requires HoldsAll(c, s.held) && (n in s.held ==> s.held[n].owner == "u")
    ensures HoldsAll(Next(c, Put(n, T, K, "u", map[], s.now, targets)), s.held[n := Authored(s, n)])
  {
    var a := Put(n, T, K, "u", map[], s.now, targets);
    forall p
      ensures Held(Next(c, a), p, T, K) == if p == n then Some(Authored(s, n)) else Held(c, p, T, K)
    {
      EffectIsExact(c, a, p, T, K);
    }
  }

  lemma {:induction false} PutRecords(c: Cluster, s: Scene, n: NodeId, targets: set<NodeId>)
    requires HoldsAll(c, s.held) && (n in s.held ==> s.held[n].owner == "u")
    ensures var c', v := Next(c, Put(n, T, K, "u", map[], s.now, targets)), Authored(s, n);
      && c'.inFlight == c.inFlight + Addressed(targets, T, K, v)
      && c'.seen == c.seen + {Message(n, T, K, v)}
      && c'.log == c.log + [Write(n, T, K, "u", Whole(map[]), s.now, Held(c, n, T, K), v)]
  {
    assert WriteOutcome(c, Put(n, T, K, "u", map[], s.now, targets)) == Written(Authored(s, n));
  }

  lemma {:induction false} PutStep(run: seq<Action>, s: Scene, n: NodeId, targets: set<NodeId>)
    returns (run': seq<Action>)
    requires Shows(run, s) && (n in s.held ==> s.held[n].owner == "u")
    ensures Shows(run', AfterPut(s, n, targets))
  {
    var c, a := Reach(run), Put(n, T, K, "u", map[], s.now, targets);
    run' := run + [a];
    ReachAppend(run, a);
    PutHolds(c, s, n, targets);
    PutRecords(c, s, n, targets);
    ClockExtends(c.log, s.now, Write(n, T, K, "u", Whole(map[]), s.now, Held(c, n, T, K), Authored(s, n)));
  }

  lemma {:induction false} ReceiveHolds(c: Cluster, s: Scene, n: NodeId, v: Version)
    requires HoldsAll(c, s.held) && Message(n, T, K, v) in c.inFlight
    ensures HoldsAll(Next(c, Receive(Message(n, T, K, v))), AfterReceive(s, n, v).held)
  {
    var a := Receive(Message(n, T, K, v));
    forall p
      ensures Held(Next(c, a), p, T, K) ==
              if p == n then Some(MergedOption(Held(c, p, T, K), v)) else Held(c, p, T, K)
    {
      EffectIsExact(c, a, p, T, K);
    }
  }

  lemma {:induction false} ReceiveStep(run: seq<Action>, s: Scene, n: NodeId, v: Version) returns (run': seq<Action>)
    requires Shows(run, s) && Message(n, T, K, v) in s.sent
    ensures Shows(run', AfterReceive(s, n, v))
  {
    var a := Receive(Message(n, T, K, v));
    run' := run + [a];
    ReachAppend(run, a);
    ReceiveHolds(Reach(run), s, n, v);
  }

  /** A run described by its effect on the scene alone. */
  datatype Script =
    | Start
    | Writing(before: Script, n: NodeId, targets: set<NodeId>)
    | Receiving(before: Script, n: NodeId, v: Version)

  ghost function SceneOf(script: Script): Scene {
    match script
    case Start => Scene(map[], {}, {}, 1)
    case Writing(before, n, targets) => AfterPut(SceneOf(before), n, targets)
    case Receiving(before, n, v) => AfterReceive(SceneOf(before), n, v)
  }

  ghost predicate Playable(script: Script) {
    match script
    case Start => true
    case Writing(before, n, _) =>
      Playable(before) && (n in SceneOf(before).held ==> SceneOf(before).held[n].owner == "u")
    case Receiving(before, n, v) =>
      Playable(before) && Message(n, T, K, v) in SceneOf(before).sent
  }

  lemma {:induction false} Play(script: Script) returns (run: seq<Action>)
    requires Playable(script)
    ensures Shows(run, SceneOf(script))
  {
    match script
    case Start =>
      run := [];
    case Writing(before, n, targets) =>
      var front := Play(before);
      run := PutStep(front, SceneOf(before), n, targets);
    case Receiving(before, n, v) =>
      var front := Play(before);
      run := ReceiveStep(front, SceneOf(before), n, v);
  }

  lemma {:induction false} Concurrent(x: Version, y: Version, n: NodeId, m: NodeId)
    requires At(x.clock, n) > At(y.clock, n) && At(y.clock, m) > At(x.clock, m)
    ensures !Dominates(x, y) && !Dominates(y, x)
    ensures Wins(x, y) <==> x.timestamp > y.timestamp
  {
  }

  function Stamp(clock: Clock, now: nat): Version {
    Version(map[], clock, now, "u")
  }

  function V1(s: Cast): Version { Stamp(map[s.a := 1], 1) }
  function V2(s: Cast): Version { Stamp(map[s.c := 1], 2) }
  function V3(s: Cast): Version { Stamp(map[s.a := 1, s.b := 1], 3) }
  function Y(s: Cast): Version { Stamp(map[s.a := 1, s.b := 1, s.c := 1], 4) }
  function Z(s: Cast): Version { Stamp(map[s.e := 1], 5) }
  function X(s: Cast): Version { Stamp(map[s.c := 1, s.a := 1], 6) }

  /** `Y` beats `X` by dominance, `X` beats `Z` and `Z` beats `Y` by timestamp. */
  lemma {:induction false} Cycle(s: Cast)
    requires s.Distinct()
    ensures Dominates(Y(s), X(s)) && X(s).timestamp > Y(s).timestamp
    ensures Wins(Y(s), X(s)) && Wins(X(s), Z(s)) && Wins(Z(s), Y(s))
  {
    assert At(X(s).clock, s.b) < At(Y(s).clock, s.b);
    assert Within(X(s).clock, Y(s).clock);
    Concurrent(X(s), Z(s), s.a, s.e);
    Concurrent(Y(s), Z(s), s.a, s.e);
  }

  /** Nodes that only receive have seen nothing yet. */
  ghost predicate Idle(s: Scene, n: NodeId) {
    n !in s.held && forall m :: m in s.seen ==> m.node != n
  }

  ghost predicate Offered(s: Scene, n: NodeId, v: Version) {
    Message(n, T, K, v) in s.sent
  }

  ghost predicate Keeps(s: Scene, n: NodeId, v: Version) {
    n in s.held && s.held[n] == v
  }

  ghost predicate HasNone(s: Scene, n: NodeId) {
    n !in s.held
  }

  /** Only node `n` has changed, and what was offered is still offered. */
  ghost predicate OnlyAt(s: Scene, s': Scene, n: NodeId) {
    && (forall p, u :: p != n && Keeps(s, p, u) ==> Keeps(s', p, u))
    && (forall p :: p != n && HasNone(s, p) ==> HasNone(s', p))
    && (forall p :: p != n && Idle(s, p) ==> Idle(s', p))
    && (forall p, u :: Offered(s, p, u) ==> Offered(s', p, u))
  }

  /** `n` writes `v`, on top of what it keeps if it keeps anything. */
  lemma {:induction false} WriteStage(script: Script, n: NodeId, targets: set<NodeId>, v: Version)
    returns (script': Script)
    requires Playable(script) && v == Authored(SceneOf(script), n) && v.owner == "u"
    ensures Playable(script') && SceneOf(script').now == SceneOf(script).now + 1
    ensures Keeps(SceneOf(script'), n, v) && OnlyAt(SceneOf(script), SceneOf(script'), n)
    ensures forall p :: p in targets ==> Offered(SceneOf(script'), p, v)
  {
    script' := Writing(script, n, targets);
  }

  /** `n` receives a version that is concurrent with the one it holds, and later. */
  lemma {:induction false} ReceiveStage(script: Script, n: NodeId, v: Version, x: NodeId, y: NodeId)
    returns (script': Script)
    requires Playable(script) && Offered(SceneOf(script), n, v)
    requires n in SceneOf(script).held ==>
      var u := SceneOf(script).held[n];
      At(v.clock, x) > At(u.clock, x) && At(u.clock, y) > At(v.clock, y) && v.timestamp > u.timestamp
    ensures Playable(script') && SceneOf(script').now == SceneOf(script).now
    ensures Keeps(SceneOf(script'), n, v) && OnlyAt(SceneOf(script), SceneOf(script'), n)
  {
    if n in SceneOf(script).held {
      Concurrent(v, SceneOf(script).held[n], x, y);
    }
    script' := Receiving(script, n, v);
  }

  ghost predicate Waiting(s: Scene, cast: Cast) {
    Idle(s, cast.p) && Idle(s, cast.q)
  }

  /** `a` writes and reaches only `b`. */
  lemma {:induction false} FirstStage(s: Cast) returns (script: Script)
    requires s.Distinct()
    ensures Playable(script) && SceneOf(script).now == 2 && Waiting(SceneOf(script), s)
    ensures Keeps(SceneOf(script), s.a, V1(s)) && Keeps(SceneOf(script), s.b, V1(s))
    ensures HasNone(SceneOf(script), s.c) && HasNone(SceneOf(script), s.e)
  {
    assert Waiting(SceneOf(Start), s) && HasNone(SceneOf(Start), s.b);
    assert HasNone(SceneOf(Start), s.c) && HasNone(SceneOf(Start), s.e);
    var s1 := WriteStage(Start, s.a, {s.b}, V1(s));
    script := ReceiveStage(s1, s.b, V1(s), s.a, s.a);
  }

  /** `c` writes concurrently and reaches `a`. */
  lemma {:induction false} SecondStage(s: Cast) returns (script: Script)
    requires s.Distinct()
    ensures Playable(script) && SceneOf(script).now == 3 && Waiting(SceneOf(script), s)
    ensures Keeps(SceneOf(script), s.a, V2(s)) && Keeps(SceneOf(script), s.b, V1(s))
    ensures Keeps(SceneOf(script), s.c, V2(s))
    ensures HasNone(SceneOf(script), s.e)
  {
    var s0 := FirstStage(s);
    var s1 := WriteStage(s0, s.c, {s.a}, V2(s));
    assert Keeps(SceneOf(s1), s.a, V1(s)) && Offered(SceneOf(s1), s.a, V2(s));
    script := ReceiveStage(s1, s.a, V2(s), s.c, s.a);
  }

  /** `b` writes on top of the first version and reaches `c`. */
  lemma {:induction false} ThirdStage(s: Cast) returns (script: Script)
    requires s.Distinct()
    ensures Playable(script) && SceneOf(script).now == 4 && Waiting(SceneOf(script), s)
    ensures Keeps(SceneOf(script), s.a, V2(s)) && Keeps(SceneOf(script), s.c, V3(s))
    ensures HasNone(SceneOf(script), s.e)
  {
    var s0 := SecondStage(s);
    assert V3(s).clock == Bump(V1(s).clock, s.b);
    var s1 := WriteStage(s0, s.b, {s.c}, V3(s));
    assert Keeps(SceneOf(s1), s.c, V2(s)) && Offered(SceneOf(s1), s.c, V3(s));
    script := ReceiveStage(s1, s.c, V3(s), s.a, s.c);
  }

  ghost predicate OfferedBoth(s: Scene, cast: Cast, v: Version) {
    Offered(s, cast.p, v) && Offered(s, cast.q, v)
  }

  /** `c` writes `Y` and `e` writes `Z`. */
  lemma {:induction false} FourthStage(s: Cast) returns (script: Script)
    requires s.Distinct()
    ensures Playable(script) && SceneOf(script).now == 6 && Waiting(SceneOf(script), s)
    ensures Keeps(SceneOf(script), s.a, V2(s))
    ensures OfferedBoth(SceneOf(script), s, Y(s)) && OfferedBoth(SceneOf(script), s, Z(s))
  {
    var s0 := ThirdStage(s);
    assert Y(s).clock == Bump(V3(s).clock, s.c);
    var s1 := WriteStage(s0, s.c, {s.p, s.q}, Y(s));
    assert HasNone(SceneOf(s1), s.e);
    script := WriteStage(s1, s.e, {s.p, s.q}, Z(s));
  }

  /** `a`, whose own counter was lost with its first version, writes `X`. */
  lemma {:induction false} FifthStage(s: Cast) returns (script: Script)
    requires s.Distinct()
    ensures Playable(script) && Waiting(SceneOf(script), s)
    ensures OfferedBoth(SceneOf(script), s, X(s)) && OfferedBoth(SceneOf(script), s, Y(s))
    ensures OfferedBoth(SceneOf(script), s, Z(s))
  {
    var s0 := FourthStage(s);
    assert X(s).clock == Bump(V2(s).clock, s.a);
    script := WriteStage(s0, s.a, {s.p, s.q}, X(s));
  }

  ghost function ThreeMessages(n: NodeId, x: Version, y: Version, z: Version): set<Message> {
    {Message(n, T, K, x), Message(n, T, K, y), Message(n, T, K, z)}
  }

  /** Deliver `x`, `y`, `z` to an idle node; each beats the one before it. */
  lemma {:induction false} DeliverThree(script: Script, n: NodeId, x: Version, y: Version, z: Version)
    returns (script': Script)
    requires Playable(script) && Idle(SceneOf(script), n)
    requires Offered(SceneOf(script), n, x) && Offered(SceneOf(script), n, y) && Offered(SceneOf(script), n, z)
    requires Wins(y, x) && Wins(z, y)
    ensures Playable(script') && SceneOf(script').sent == SceneOf(script).sent
    ensures SceneOf(script').held == SceneOf(script).held[n := z]
    ensures SceneOf(script').seen == SceneOf(script).seen + ThreeMessages(n, x, y, z)
  {
    var s1 := Receiving(script, n, x);
    assert SceneOf(s1).held == SceneOf(script).held[n := x];
    var s2 := Receiving(s1, n, y);
    assert SceneOf(s2).held == SceneOf(script).held[n := y];
    script' := Receiving(s2, n, z);
    assert SceneOf(script').held == SceneOf(script).held[n := z];
  }

  lemma {:induction false} SeenThree(c: Cluster, before: set<Message>, n: NodeId, x: Version, y: Version, z: Version)
    requires c.seen == before + ThreeMessages(n, x, y, z)
    requires forall m :: m in before ==> m.node != n
    ensures SeenBy(c, n, T, K) == {x, y, z}
  {
  }

  /** `p` and `q` receive the three versions in different orders. */
  lemma {:induction false} LastStage(s: Cast) returns (script: Script, before: set<Message>)
    requires s.Distinct()
    ensures Playable(script)
    ensures s.p in SceneOf(script).held && SceneOf(script).held[s.p] == Z(s)
    ensures s.q in SceneOf(script).held && SceneOf(script).held[s.q] == X(s)
    ensures forall m :: m in before ==> m.node != s.p && m.node != s.q
    ensures SceneOf(script).seen == before + ThreeMessages(s.p, X(s), Y(s), Z(s)) + ThreeMessages(s.q, Y(s), Z(s), X(s))
  {
    var x, y, z := X(s), Y(s), Z(s);
    var s0 := FifthStage(s);
    Cycle(s);
    before := SceneOf(s0).seen;
    var s1 := DeliverThree(s0, s.p, x, y, z);
    script := DeliverThree(s1, s.q, y, z, x);
  }

  lemma {:induction false} BothHaveSeenAll(c: Cluster, before: set<Message>, s: Cast)
    requires s.Distinct() && forall m :: m in before ==> m.node != s.p && m.node != s.q
    requires c.seen == before + ThreeMessages(s.p, X(s), Y(s), Z(s)) + ThreeMessages(s.q, Y(s), Z(s), X(s))
    ensures SeenBy(c, s.p, T, K) == {X(s), Y(s), Z(s)} && SeenBy(c, s.q, T, K) == {X(s), Y(s), Z(s)}
  {
    var toP, toQ := ThreeMessages(s.p, X(s), Y(s), Z(s)), ThreeMessages(s.q, Y(s), Z(s), X(s));
    SeenThree(c, before + toP, s.q, Y(s), Z(s), X(s));
    assert before + toP + toQ == (before + toQ) + toP;
    SeenThree(c, before + toQ, s.p, X(s), Y(s), Z(s));
  }

  /** For any six nodes there is a run, with one perfect global clock and no deletes or restarts, in which two
      of them have received the same versions and hold different records. */
  lemma {:induction false} PerfectClockDiverges(s: Cast) returns (run: seq<Action>)
    requires s.Distinct()
    ensures NothingIsLost(run) && PerfectClock(Reach(run).log)
    ensures SeenBy(Reach(run), s.p, T, K) == SeenBy(Reach(run), s.q, T, K) == {X(s), Y(s), Z(s)}
    ensures Held(Reach(run), s.p, T, K) == Some(Z(s)) && Held(Reach(run), s.q, T, K) == Some(X(s))
    ensures Z(s) != X(s)
  {
    var script, before := LastStage(s);
    run := Play(script);
    BothHaveSeenAll(Reach(run), before, s);
    assert HoldsAll(Reach(run), SceneOf(script).held);
  }
}
