/** SWIM-inspired membership: probes that mark nodes suspect and down, newest-heartbeat gossip with
    a capacity limit, and the join handshake. Times are milliseconds. */
module Membership {
  import opened Sequences
  import Ring

  datatype Status = Active | Suspect | Down | Leaving
  datatype NodeInfo = NodeInfo(status: Status, lastHeartbeat: nat)

  /** A node's table of members, by address. */
  type View = map<string, NodeInfo>

  type Entry = (string, NodeInfo)

  const MAX_CLUSTER_SIZE: nat := 100
  const INTERVAL_SEC: nat := 5
  const TIMEOUT: nat := INTERVAL_SEC * 5000
  const TWO_TO_128: nat := 0x1_0000_0000_0000_0000_0000_0000_0000_0000

  // ---------- specification of the updates ----------

  /** Unsigned 128-bit subtraction, which wraps when the heartbeat lies in the future. */
  function Elapsed(now: nat, heartbeat: nat): int {
    if heartbeat <= now then now - heartbeat else (now - heartbeat) % TWO_TO_128
  }

  /** The effect of a failed probe. */
  function AfterFailure(info: NodeInfo, now: nat): NodeInfo {
    match info.status
    case Active => info.(status := Suspect)
    case Suspect => if Elapsed(now, info.lastHeartbeat) > TIMEOUT then info.(status := Down) else info
    case _ => info
  }

  function AfterProbe(view: View, target: string, success: bool, now: nat): View {
    if target !in view then view
    else if success then view[target := NodeInfo(Active, now)]
    else view[target := AfterFailure(view[target], now)]
  }

  predicate ValidName(name: string) {
    name != "" && ' ' !in name
  }

  /** One entry of a gossip message. */
  function AfterEntry(view: View, e: Entry): View {
    if !ValidName(e.0) then view
    else if e.0 !in view then
      if |view| >= MAX_CLUSTER_SIZE then view else view[e.0 := e.1]
    else if e.1.lastHeartbeat > view[e.0].lastHeartbeat then view[e.0 := e.1]
    else view
  }

  function Absorb(view: View, es: seq<Entry>): View {
    if es == [] then view else AfterEntry(Absorb(view, es[..|es| - 1]), es[|es| - 1])
  }

  /** `es` lists the entries of a message, each once, in some order. */
  ghost predicate Lists(es: seq<Entry>, message: View) {
    NoRepeats(es) && forall e :: e in es <==> e.0 in message && message[e.0] == e.1
  }

  function AfterJoin(view: View, newcomer: string, now: nat): View {
    if newcomer in view then view else view[newcomer := NodeInfo(Active, now)]
  }

  // ---------- what the updates promise ----------

  /** A failed probe keeps the heartbeat. It makes an active member suspect, and a suspect one down if
      the unsigned 128-bit time since its heartbeat exceeds 25 seconds; others stay as they are. */
  ghost predicate FollowsFailure(before: NodeInfo, after: NodeInfo, now: nat) {
    && after.lastHeartbeat == before.lastHeartbeat
    && match before.status
       case Active => after.status == Suspect
       case Suspect =>
         var silent := if before.lastHeartbeat <= now then now - before.lastHeartbeat
                       else (now - before.lastHeartbeat) % 0x1_0000_0000_0000_0000_0000_0000_0000_0000;
         after.status == if silent > 25_000 then Down else Suspect
       case _ => after.status == before.status
  }

  /** A probe changes only the entry of its target: to active and fresh, or as a failure does. */
  ghost predicate FollowsProbe(before: View, after: View, target: string, success: bool, now: nat) {
    && after.Keys == before.Keys
    && (forall n :: n in before && n != target ==> after[n] == before[n])
    && (target in before ==>
          if success then after[target] == NodeInfo(Active, now)
          else FollowsFailure(before[target], after[target], now))
  }

  ghost predicate Renewed(before: View, message: View, n: string)
    requires n in before
  {
    n in message && n != "" && ' ' !in n && message[n].lastHeartbeat > before[n].lastHeartbeat
  }

  /** What a message does to a table, name by name: a member's entry is replaced exactly by a strictly
      later one under a name that is not empty and has no space; other such names become members as
      they are announced, unless 100 members are there. */
  ghost predicate FollowsMessage(before: View, message: View, after: View) {
    && before.Keys <= after.Keys
    && (forall n :: n in before ==> after[n] == if Renewed(before, message, n) then message[n] else before[n])
    && (forall n :: n in after && n !in before ==> n in message && n != "" && ' ' !in n && after[n] == message[n])
    && (forall n :: n in message && n != "" && ' ' !in n && n !in after ==> |after| >= 100)
    && |after| <= (if |before| >= 100 then |before| else 100)
  }

  /** A newcomer is listed as active from now; nobody else's entry changes, and a member's join
      changes nothing. */
  ghost predicate FollowsJoin(before: View, after: View, newcomer: string, now: nat) {
    && after.Keys == before.Keys + {newcomer}
    && (forall n :: n in before ==> after[n] == before[n])
    && (newcomer !in before ==> after[newcomer] == NodeInfo(Active, now))
  }

  // ---------- the shared table ----------

  class ClusterData {
    var nodes: View

    constructor (self: string, now: nat)
      ensures nodes == map[self := NodeInfo(Active, now)]
    {
      nodes := map[self := NodeInfo(Active, now)];
    }

    /** The status update at the end of a health check of `target`. */
    method RecordProbe(target: string, success: bool, now: nat)
      modifies this
      ensures nodes == AfterProbe(old(nodes), target, success, now)
      ensures FollowsProbe(old(nodes), nodes, target, success, now)
    {
      if target in nodes {
        var info := nodes[target];
        if success {
          info := NodeInfo(Active, now);
        } else {
          match info.status {
            case Active => info := info.(status := Suspect);
            case Suspect =>
              if Elapsed(now, info.lastHeartbeat) > TIMEOUT {
                info := info.(status := Down);
              }
            case Down =>
            case Leaving =>
          }
        }
        nodes := nodes[target := info];
      }
    }

    /** Process a gossip message, visiting its entries in an arbitrary order. */
    method UpdateMembership(incoming: View)
      modifies this
      ensures exists es :: Lists(es, incoming) && nodes == Absorb(old(nodes), es)
      ensures FollowsMessage(old(nodes), incoming, nodes)
    {
      var todo := incoming.Keys;
      ghost var es: seq<Entry> := [];
      while todo != {}
        invariant todo <= incoming.Keys
        invariant NoRepeats(es)
        invariant forall e :: e in es <==> e.0 in incoming && e.0 !in todo && incoming[e.0] == e.1
        invariant nodes == Absorb(old(nodes), es)
      {
        var name :| name in todo;
        todo := todo - {name};
        var info := incoming[name];
        ghost var es' := es + [(name, info)];
        assert es'[..|es|] == es;
        es := es';
        if name == "" || ' ' in name {
          continue;
        }
        if name !in nodes {
          if |nodes| >= MAX_CLUSTER_SIZE {
            continue;
          }
          nodes := nodes[name := info];
          continue;
        }
        if info.lastHeartbeat > nodes[name].lastHeartbeat {
          nodes := nodes[name := info];
        }
      }
      assert Lists(es, incoming);
      MessageIsFollowed(old(nodes), es, incoming);
    }

    /** Admit a node that asks to join; the reply is the table afterwards. */
    method JoinCluster(newcomer: string, now: nat) returns (reply: View)
      modifies this
      ensures nodes == reply == AfterJoin(old(nodes), newcomer, now)
      ensures FollowsJoin(old(nodes), nodes, newcomer, now)
    {
      if newcomer !in nodes {
        nodes := nodes[newcomer := NodeInfo(Active, now)];
      }
      reply := nodes;
    }

    /** A starting node copies every entry of the join reply over its own. */
    method AdoptReply(reply: View)
      modifies this
      ensures nodes == old(nodes) + reply
    {
      var todo := reply.Keys;
      while todo != {}
        invariant todo <= reply.Keys
        invariant nodes.Keys == old(nodes).Keys + (reply.Keys - todo)
        invariant forall n :: n in nodes ==> nodes[n] == if n in reply.Keys - todo then reply[n] else old(nodes)[n]
      {
        var n :| n in todo;
        todo := todo - {n};
        nodes := nodes[n := reply[n]];
      }
    }

    /** The active members, in arbitrary order. */
    method GetActiveNodes() returns (active: seq<string>)
      ensures NoRepeats(active) && forall n :: n in active <==> n in nodes && nodes[n].status == Active
    {
      active := [];
      var todo := nodes.Keys;
      while todo != {}
        invariant todo <= nodes.Keys && NoRepeats(active)
        invariant forall n :: n in active <==> n in nodes && n !in todo && nodes[n].status == Active
      {
        var n :| n in todo;
        todo := todo - {n};
        if nodes[n].status == Active {
          active := active + [n];
        }
      }
    }
  }

  /** Whatever order the active list comes in, replicating to as many nodes as it has members repeats
      none, and names every active node exactly if none has all its points taken by nodes listed
      after it. */
  lemma {:induction false} ReplicationCoversActiveNodes(h: string -> nat, key: string, view: View, active: seq<string>)
    requires NoRepeats(active) && forall n :: n in active <==> n in view && view[n].status == Active
    ensures var ts := Ring.Targets(h, key, active, |active|);
      && NoRepeats(ts)
      && (forall n :: n in ts ==> n in view && view[n].status == Active)
      && ((forall n :: n in view && view[n].status == Active ==> n in ts) <==> Ring.AllKeepPoints(h, active))
      && (Ring.CollisionFree(h, Members(active)) ==> forall n :: n in view && view[n].status == Active ==> n in ts)
  {
    var ts := Ring.Targets(h, key, active, |active|);
    Ring.FullFactorNamesEveryNode(h, key, active);
    assert forall n :: n in ts <==> n in Members(ts);
    if Ring.CollisionFree(h, Members(active)) {
      Ring.CollisionFreeKeepsPoints(h, active);
    }
  }

  // ---------- gossip ----------

  ghost function ValidNames(es: seq<Entry>): set<string> {
    set e | e in es && ValidName(e.0) :: e.0
  }

  lemma {:induction false} AbsorbAppend(view: View, a: seq<Entry>, b: seq<Entry>)
    ensures Absorb(Absorb(view, a), b) == Absorb(view, a + b)
  {
    if b == [] {
      assert a + b == a;
    } else {
      assert (a + b)[..|a + b| - 1] == a + b[..|b| - 1];
      AbsorbAppend(view, a, b[..|b| - 1]);
    }
  }

  lemma {:induction false} ValidNamesAppend(es: seq<Entry>)
    requires es != []
    ensures var e := es[|es| - 1];
      ValidNames(es) == ValidNames(es[..|es| - 1]) + (if ValidName(e.0) then {e.0} else {})
  {
  }

  /** For any gossip at all: no member is dropped, no heartbeat goes back, members only come from
      valid names, and the table ends with at most max(old size, 100) members. */
  lemma {:induction false} GossipIsBounded(view: View, es: seq<Entry>)
    ensures var view' := Absorb(view, es);
      && view.Keys <= view'.Keys <= view.Keys + ValidNames(es)
      && (forall n :: n in view ==> view[n].lastHeartbeat <= view'[n].lastHeartbeat)
      && |view'| <= (if |view| >= MAX_CLUSTER_SIZE then |view| else MAX_CLUSTER_SIZE)
  {
    if es != [] {
      GossipIsBounded(view, es[..|es| - 1]);
      ValidNamesAppend(es);
    }
  }

  /** The entry of `n` is as new as everything known locally or received, and is one of those. */
  ghost predicate Newest(view: View, es: seq<Entry>, n: string, info: NodeInfo) {
    && (n in view ==> view[n].lastHeartbeat <= info.lastHeartbeat)
    && (forall e :: e in es && e.0 == n ==> e.1.lastHeartbeat <= info.lastHeartbeat)
    && ((n in view && view[n] == info) || (n, info) in es)
  }

  /** Some entry with the name was heard. */
  ghost predicate HeardOf(es: seq<Entry>, n: string) {
    exists e :: e in es && e.0 == n
  }

  /** For any gossip at all, in any order and with any repetition: a validly named member ends at the
      newest heartbeat known locally or received, and a valid name is left out only if it was no
      member before and the table is full. A member with any other name, which only a join can
      bring in, is left as it is. */
  lemma {:induction false} GossipKeepsNewest(view: View, es: seq<Entry>, n: string)
    ensures ValidName(n) && n in Absorb(view, es) ==> Newest(view, es, n, Absorb(view, es)[n])
    ensures ValidName(n) && n !in Absorb(view, es) ==>
              n !in view && (|Absorb(view, es)| >= MAX_CLUSTER_SIZE || !HeardOf(es, n))
    ensures !ValidName(n) ==> (n in Absorb(view, es) <==> n in view)
    ensures !ValidName(n) && n in view ==> Absorb(view, es)[n] == view[n]
  {
    if ValidName(n) {
      ValidNamesKeepNewest(view, es, n);
    } else {
      GossipIgnoresInvalidNames(view, es, n);
    }
  }

  lemma {:induction false} ValidNamesKeepNewest(view: View, es: seq<Entry>, n: string)
    requires ValidName(n)
    ensures n in Absorb(view, es) ==> Newest(view, es, n, Absorb(view, es)[n])
    ensures n !in Absorb(view, es) ==> n !in view && (|Absorb(view, es)| >= MAX_CLUSTER_SIZE || !HeardOf(es, n))
  {
    if es != [] {
      var front, e := es[..|es| - 1], es[|es| - 1];
      assert es == front + [e];
      ValidNamesKeepNewest(view, front, n);
      EntryKeepsNewest(view, front, e, n);
    }
  }

  /** The step of `ValidNamesKeepNewest`: one more entry. */
  lemma {:induction false} EntryKeepsNewest(view: View, front: seq<Entry>, e: Entry, n: string)
    requires ValidName(n)
    requires var v := Absorb(view, front);
      if n in v then Newest(view, front, n, v[n])
      else n !in view && (|v| >= MAX_CLUSTER_SIZE || !HeardOf(front, n))
    ensures var v, es := AfterEntry(Absorb(view, front), e), front + [e];
      if n in v then Newest(view, es, n, v[n])
      else n !in view && (|v| >= MAX_CLUSTER_SIZE || !HeardOf(es, n))
  {
    var v, es := Absorb(view, front), front + [e];
    assert forall x :: x in es <==> x in front || x == e;
    if n !in v && n in AfterEntry(v, e) {
      assert forall x :: x in front ==> x.0 != n;
    }
    if n !in AfterEntry(v, e) && e.0 != n && |v| < MAX_CLUSTER_SIZE {
      assert !HeardOf(es, n);
    }
  }

  /** A member whose name gossip would not accept is left alone. */
  lemma {:induction false} GossipIgnoresInvalidNames(view: View, es: seq<Entry>, n: string)
    requires !ValidName(n)
    ensures n in Absorb(view, es) <==> n in view
    ensures n in view ==> Absorb(view, es)[n] == view[n]
  {
    if es != [] {
      GossipIgnoresInvalidNames(view, es[..|es| - 1], n);
    }
  }

  /** A whole message, in whatever order its entries are visited. */
  lemma {:induction false} MessageIsFollowed(view: View, es: seq<Entry>, message: View)
    requires Lists(es, message)
    ensures FollowsMessage(view, message, Absorb(view, es))
  {
    var after := Absorb(view, es);
    GossipIsBounded(view, es);
    forall n
      ensures n in view ==>
        n in after && after[n] == if Renewed(view, message, n) then message[n] else view[n]
      ensures n in after && n !in view ==> n in message && n != "" && ' ' !in n && after[n] == message[n]
      ensures n in message && n != "" && ' ' !in n && n !in after ==> |after| >= 100
    {
      GossipKeepsNewest(view, es, n);
      assert n in message ==> (n, message[n]) in es;
      if n in view && (n in message ==> message[n].lastHeartbeat <= view[n].lastHeartbeat) {
        StaleEntriesAreIgnored(view, es, n);
      }
    }
  }

  lemma {:induction false} SubsetBound<T>(a: set<T>, b: set<T>)
    requires a <= b
    ensures |a| <= |b| && (|a| == |b| ==> a == b)
  {
    assert b == a + (b - a);
  }

  /** Every valid name heard of becomes a member exactly when the names fit within the capacity,
      or were members already. */
  lemma {:induction false} AllAdmittedIffTheyFit(view: View, es: seq<Entry>)
    ensures ValidNames(es) <= Absorb(view, es).Keys <==>
      |view.Keys + ValidNames(es)| <= MAX_CLUSTER_SIZE || ValidNames(es) <= view.Keys
  {
    GossipIsBounded(view, es);
    var all, view' := view.Keys + ValidNames(es), Absorb(view, es);
    if ValidNames(es) <= view'.Keys && |all| > MAX_CLUSTER_SIZE {
      assert view'.Keys == all;
      SubsetBound(view.Keys, all);
    }
    if |all| <= MAX_CLUSTER_SIZE {
      AllAdmittedIfTheyFit(view, es);
    }
  }

  lemma {:induction false} AllAdmittedIfTheyFit(view: View, es: seq<Entry>)
    requires |view.Keys + ValidNames(es)| <= MAX_CLUSTER_SIZE
    ensures Absorb(view, es).Keys == view.Keys + ValidNames(es)
  {
    GossipIsBounded(view, es);
    forall n | n in ValidNames(es)
      ensures n in Absorb(view, es)
    {
      GossipKeepsNewest(view, es, n);
      SubsetBound(Absorb(view, es).Keys, view.Keys + ValidNames(es));
    }
  }

  // ---------- order of gossip ----------

  /** Two tables have the same members, with the same heartbeats. */
  ghost predicate SameHeartbeats(a: View, b: View) {
    a.Keys == b.Keys && forall n :: n in a ==> a[n].lastHeartbeat == b[n].lastHeartbeat
  }

  /** Hearing the same entries in any order and however often gives every common member the same
      heartbeat, whether or not all names fit. */
  lemma {:induction false} CommonHeartbeatsAgree(view: View, a: seq<Entry>, b: seq<Entry>, n: string)
    requires Members(a) == Members(b) && n in Absorb(view, a) && n in Absorb(view, b)
    ensures Absorb(view, a)[n].lastHeartbeat == Absorb(view, b)[n].lastHeartbeat
  {
    assert forall e :: e in a <==> e in Members(a);
    assert forall e :: e in b <==> e in Members(b);
    if ValidName(n) {
      GossipKeepsNewest(view, a, n);
      GossipKeepsNewest(view, b, n);
      assert Newest(view, a, n, Absorb(view, a)[n]) && Newest(view, b, n, Absorb(view, b)[n]);
    } else {
      GossipIgnoresInvalidNames(view, a, n);
      GossipIgnoresInvalidNames(view, b, n);
    }
  }

  /** The valid names among a set of entries. */
  ghost function NamesIn(E: set<Entry>): set<string> {
    set e | e in E && ValidName(e.0) :: e.0
  }

  /** The result of hearing exactly the entries of `E` does not depend on their order. */
  ghost predicate OrderFree(view: View, E: set<Entry>) {
    forall a, b :: Members(a) == E == Members(b) ==> SameHeartbeats(Absorb(view, a), Absorb(view, b))
  }

  lemma {:induction false} NamesOfEntries(es: seq<Entry>)
    ensures NamesIn(Members(es)) == ValidNames(es)
  {
    assert forall e :: e in es <==> e in Members(es);
  }

  /** Members and heartbeats come out the same for every order and repetition of the same entries
      exactly when the table was full from the start or all the names fit. */
  lemma {:induction false} GossipOrderFreeIff(view: View, E: set<Entry>)
    ensures OrderFree(view, E) <==>
      |view| >= MAX_CLUSTER_SIZE || |view.Keys + NamesIn(E)| <= MAX_CLUSTER_SIZE
  {
    if |view| >= MAX_CLUSTER_SIZE || |view.Keys + NamesIn(E)| <= MAX_CLUSTER_SIZE {
      forall a, b | Members(a) == E == Members(b)
        ensures SameHeartbeats(Absorb(view, a), Absorb(view, b))
      {
        SettledOrdersAgree(view, a, b);
      }
    } else {
      NewNameExists(view, E);
      var e :| e in E && ValidName(e.0) && e.0 !in view;
      var a, b := EarlyOrLate(view, E, e);
      assert !SameHeartbeats(Absorb(view, a), Absorb(view, b));
    }
  }

  lemma {:induction false} NewNameExists(view: View, E: set<Entry>)
    requires |view| < MAX_CLUSTER_SIZE < |view.Keys + NamesIn(E)|
    ensures exists e :: e in E && ValidName(e.0) && e.0 !in view
  {
    assert NamesIn(E) <= view.Keys ==> view.Keys + NamesIn(E) == view.Keys;
  }

  lemma {:induction false} SettledOrdersAgree(view: View, a: seq<Entry>, b: seq<Entry>)
    requires Members(a) == Members(b)
    requires |view| >= MAX_CLUSTER_SIZE || |view.Keys + NamesIn(Members(a))| <= MAX_CLUSTER_SIZE
    ensures SameHeartbeats(Absorb(view, a), Absorb(view, b))
  {
    NamesOfEntries(a);
    NamesOfEntries(b);
    MembersAreSettled(view, a);
    MembersAreSettled(view, b);
    forall n | n in Absorb(view, a)
      ensures Absorb(view, a)[n].lastHeartbeat == Absorb(view, b)[n].lastHeartbeat
    {
      CommonHeartbeatsAgree(view, a, b, n);
    }
  }

  /** Where the order does not matter, the members are known beforehand. */
  lemma {:induction false} MembersAreSettled(view: View, es: seq<Entry>)
    requires |view| >= MAX_CLUSTER_SIZE || |view.Keys + ValidNames(es)| <= MAX_CLUSTER_SIZE
    ensures Absorb(view, es).Keys == if |view| >= MAX_CLUSTER_SIZE then view.Keys else view.Keys + ValidNames(es)
  {
    GossipIsBounded(view, es);
    if |view| >= MAX_CLUSTER_SIZE {
      SubsetBound(view.Keys, Absorb(view, es).Keys);
    } else {
      AllAdmittedIffTheyFit(view, es);
    }
  }

  /** When not all names fit, a new name is admitted if it is heard first and left out if last. */
  lemma {:induction false} EarlyOrLate(view: View, E: set<Entry>, e: Entry) returns (a: seq<Entry>, b: seq<Entry>)
    requires |view| < MAX_CLUSTER_SIZE < |view.Keys + NamesIn(E)|
    requires e in E && ValidName(e.0) && e.0 !in view
    ensures Members(a) == E == Members(b)
    ensures e.0 in Absorb(view, a) && e.0 !in Absorb(view, b)
  {
    a := HeardEarly(view, E, e);
    b := HeardLate(view, E, e);
  }

  lemma {:induction false} HeardEarly(view: View, E: set<Entry>, e: Entry) returns (a: seq<Entry>)
    requires |view| < MAX_CLUSTER_SIZE && e in E && ValidName(e.0)
    ensures Members(a) == E && e.0 in Absorb(view, a)
  {
    var s := Enumerate(E);
    a := [e] + s;
    AbsorbAppend(view, [e], s);
    assert [e][..0] == [];
    GossipIsBounded(AfterEntry(view, e), s);
  }

  lemma {:induction false} HeardLate(view: View, E: set<Entry>, e: Entry) returns (b: seq<Entry>)
    requires MAX_CLUSTER_SIZE < |view.Keys + NamesIn(E)| && e in E && ValidName(e.0) && e.0 !in view
    ensures Members(b) == E && e.0 !in Absorb(view, b)
  {
    var others, same := set x | x in E && x.0 != e.0, set x | x in E && x.0 == e.0;
    var first := Enumerate(others);
    var last := Enumerate(same);
    b := first + last;
    assert forall x :: x in b <==> x in Members(first) || x in Members(last);
    assert forall x :: x in first ==> x in Members(first);
    FullWithout(view, E, e, first);
    LeftOut(view, first, last, e.0);
  }

  /** A new name heard only after the table is full is left out. */
  lemma {:induction false} LeftOut(view: View, first: seq<Entry>, last: seq<Entry>, n: string)
    requires n !in view && n !in ValidNames(first) && |Absorb(view, first)| >= MAX_CLUSTER_SIZE
    ensures n !in Absorb(view, first + last)
  {
    AbsorbAppend(view, first, last);
    GossipIsBounded(view, first);
    MembersAreSettled(Absorb(view, first), last);
  }

  /** Hearing all entries except those of one new name fills the table. */
  lemma {:induction false} FullWithout(view: View, E: set<Entry>, e: Entry, first: seq<Entry>)
    requires |view.Keys + NamesIn(E)| > MAX_CLUSTER_SIZE && e in E && ValidName(e.0)
    requires Members(first) == set x | x in E && x.0 != e.0
    ensures |Absorb(view, first)| >= MAX_CLUSTER_SIZE
  {
    var all, view' := view.Keys + NamesIn(E), Absorb(view, first);
    GossipIsBounded(view, first);
    if |view'| < MAX_CLUSTER_SIZE {
      forall n | n in all && n != e.0
        ensures n in view'
      {
        if n !in view {
          var x :| x in E && ValidName(x.0) && x.0 == n;
          assert x in Members(first);
          assert HeardOf(first, n);
          GossipKeepsNewest(view, first, n);
        }
      }
      SubsetBound(all - {e.0}, view'.Keys);
    }
  }

  // ---------- runs over many nodes with one shared clock ----------

  /** Gossip messages and join replies, once sent, may arrive late, repeatedly or never. */
  datatype Cluster = Cluster(tables: map<string, View>, inFlight: set<View>, now: nat)

  datatype Action =
    | Tick(elapsed: nat)
    | Boot(node: string)
    | Probe(node: string, target: string, success: bool)
    | Gossip(node: string)
    | Hear(node: string, message: View, es: seq<Entry>)
    | Join(node: string, newcomer: string)
    | Adopt(node: string, reply: View)

  const START: Cluster := Cluster(map[], {}, 0)

  function Table(c: Cluster, n: string): View {
    if n in c.tables then c.tables[n] else map[]
  }

  ghost function Next(c: Cluster, a: Action): Cluster {
    match a
    case Tick(elapsed) => c.(now := c.now + elapsed)
    case Boot(n) => c.(tables := c.tables[n := map[n := NodeInfo(Active, c.now)]])
    case Probe(n, target, success) => c.(tables := c.tables[n := AfterProbe(Table(c, n), target, success, c.now)])
    case Gossip(n) => c.(inFlight := c.inFlight + {Table(c, n)})
    case Hear(n, message, es) =>
      if message !in c.inFlight || !Lists(es, message) then c else
      c.(tables := c.tables[n := Absorb(Table(c, n), es)])
    case Join(n, newcomer) =>
      var view := AfterJoin(Table(c, n), newcomer, c.now);
      c.(tables := c.tables[n := view], inFlight := c.inFlight + {view})
    case Adopt(n, reply) =>
      if reply !in c.inFlight then c else
      c.(tables := c.tables[n := Table(c, n) + reply])
  }

  ghost function Reach(run: seq<Action>): Cluster {
    if run == [] then START else Next(Reach(run[..|run| - 1]), run[|run| - 1])
  }

  /** The heartbeat is not in the future, and a member marked down has been silent too long. */
  predicate Plausible(info: NodeInfo, now: nat) {
    info.lastHeartbeat <= now && (info.status == Down ==> now - info.lastHeartbeat > 25_000)
  }

  ghost predicate AllPlausible(view: View, now: nat) {
    forall n :: n in view ==> Plausible(view[n], now)
  }

  ghost predicate Invariant(c: Cluster) {
    && (forall n :: n in c.tables ==> AllPlausible(c.tables[n], c.now))
    && (forall m :: m in c.inFlight ==> AllPlausible(m, c.now))
  }

  lemma {:induction false} AbsorbIsPlausible(view: View, es: seq<Entry>, now: nat)
    requires AllPlausible(view, now) && forall e :: e in es ==> Plausible(e.1, now)
    ensures AllPlausible(Absorb(view, es), now)
  {
    if es != [] {
      AbsorbIsPlausible(view, es[..|es| - 1], now);
      assert es[|es| - 1] in es;
    }
  }

  lemma {:induction false} InvariantStep(c: Cluster, a: Action)
    requires Invariant(c)
    ensures Invariant(Next(c, a))
  {
    if a.Hear? && a.message in c.inFlight && Lists(a.es, a.message) {
      AbsorbIsPlausible(Table(c, a.node), a.es, c.now);
    }
  }

  /** In every run with one shared non-decreasing clock, no heartbeat in any table or message is in
      the future, and any member marked down has a heartbeat more than 25 seconds old. */
  lemma {:induction false} DownMeansSilent(run: seq<Action>)
    ensures Invariant(Reach(run))
  {
    if run != [] {
      DownMeansSilent(run[..|run| - 1]);
      InvariantStep(Reach(run[..|run| - 1]), run[|run| - 1]);
    }
  }

  /** So the unsigned subtraction of a failed probe never wraps, in any reachable state. */
  lemma {:induction false} SubtractionNeverWraps(run: seq<Action>, n: string, target: string)
    requires n in Reach(run).tables && target in Reach(run).tables[n]
    ensures var c := Reach(run);
      Elapsed(c.now, c.tables[n][target].lastHeartbeat) == c.now - c.tables[n][target].lastHeartbeat
  {
    DownMeansSilent(run);
  }

  /** The state after further actions. */
  ghost function After(c: Cluster, actions: seq<Action>): Cluster {
    if actions == [] then c else Next(After(c, actions[..|actions| - 1]), actions[|actions| - 1])
  }

  // ---------- hearing many messages ----------

  /** Node `n` hears a message that is in flight. */
  ghost predicate Hears(c: Cluster, a: Action, n: string) {
    a.Hear? && a.node == n && a.message in c.inFlight && Lists(a.es, a.message)
  }

  /** Node `n` hears messages, one after the other, and nothing else happens. */
  ghost predicate OnlyHears(c: Cluster, actions: seq<Action>, n: string) {
    forall a :: a in actions ==> Hears(c, a, n)
  }

  /** All the entries that are heard, in order. */
  ghost function Heard(actions: seq<Action>): seq<Entry> {
    if actions == [] then [] else
    var a := actions[|actions| - 1];
    Heard(actions[..|actions| - 1]) + (if a.Hear? then a.es else [])
  }

  lemma {:induction false} HearingOnce(c: Cluster, a: Action, n: string)
    requires Hears(c, a, n)
    ensures Next(c, a).inFlight == c.inFlight && Table(Next(c, a), n) == Absorb(Table(c, n), a.es)
  {
  }

  lemma {:induction false} HearingAbsorbs(c: Cluster, actions: seq<Action>, n: string)
    requires OnlyHears(c, actions, n)
    ensures After(c, actions).inFlight == c.inFlight
    ensures Table(After(c, actions), n) == Absorb(Table(c, n), Heard(actions))
  {
    if actions != [] {
      var front, a := actions[..|actions| - 1], actions[|actions| - 1];
      assert Hears(c, a, n) && OnlyHears(c, front, n);
      HearingAbsorbs(c, front, n);
      var c' := After(c, front);
      assert Hears(c', a, n);
      HearingOnce(c', a, n);
      AbsorbAppend(Table(c, n), Heard(front), a.es);
    }
  }

  /** The entry for `name` with this info is in one of the messages. */
  ghost predicate Mentioned(actions: seq<Action>, name: string, info: NodeInfo) {
    exists a :: a in actions && a.Hear? && name in a.message && a.message[name] == info
  }

  lemma {:induction false} HeardIsMentioned(c: Cluster, actions: seq<Action>, n: string, e: Entry)
    requires OnlyHears(c, actions, n)
    ensures e in Heard(actions) <==> Mentioned(actions, e.0, e.1)
  {
    if actions != [] {
      var front, a := actions[..|actions| - 1], actions[|actions| - 1];
      assert a in actions && forall x :: x in actions <==> x in front || x == a;
      HeardIsMentioned(c, front, n, e);
      assert e in a.es <==> e.0 in a.message && a.message[e.0] == e.1;
    }
  }

  /** After any number of messages, heard in any order, with repeats and with any iteration order
      within each, a validly named member is at the newest of its local and received heartbeats, and
      any other member is left as it was. */
  lemma {:induction false} MessagesKeepNewest(c: Cluster, actions: seq<Action>, n: string, name: string)
    requires OnlyHears(c, actions, n) && name in Table(After(c, actions), n)
    ensures var before, info := Table(c, n), Table(After(c, actions), n)[name];
      if ValidName(name) then NewestMentioned(before, actions, name, info)
      else name in before && before[name] == info
  {
    HearingAbsorbs(c, actions, n);
    if ValidName(name) {
      ValidMessagesKeepNewest(c, actions, n, name);
    } else {
      GossipIgnoresInvalidNames(Table(c, n), Heard(actions), name);
    }
  }

  /** The entry is as new as the former one and all mentioned ones, and is one of those. */
  ghost predicate NewestMentioned(before: View, actions: seq<Action>, name: string, info: NodeInfo) {
    && (name in before ==> before[name].lastHeartbeat <= info.lastHeartbeat)
    && (forall i :: Mentioned(actions, name, i) ==> i.lastHeartbeat <= info.lastHeartbeat)
    && ((name in before && before[name] == info) || Mentioned(actions, name, info))
  }

  lemma {:induction false} ValidMessagesKeepNewest(c: Cluster, actions: seq<Action>, n: string, name: string)
    requires OnlyHears(c, actions, n) && ValidName(name)
    requires name in Table(After(c, actions), n)
    ensures NewestMentioned(Table(c, n), actions, name, Table(After(c, actions), n)[name])
  {
    var es, info := Heard(actions), Table(After(c, actions), n)[name];
    HearingAbsorbs(c, actions, n);
    GossipKeepsNewest(Table(c, n), es, name);
    HeardIsMentioned(c, actions, n, (name, info));
    forall i | Mentioned(actions, name, i)
      ensures i.lastHeartbeat <= info.lastHeartbeat
    {
      HeardIsMentioned(c, actions, n, (name, i));
    }
  }

  /** Two nodes with equal tables that hear the same messages, each in its own order and with its
      own repeats, agree on the heartbeat of every member both have; and on the members too if the
      table was full from the start or all the names fit. */
  lemma {:induction false} MessageOrderIsIrrelevant(c: Cluster, a: seq<Action>, b: seq<Action>, n: string, m: string)
    requires OnlyHears(c, a, n) && OnlyHears(c, b, m)
    requires Table(c, n) == Table(c, m)
    requires forall name, info :: Mentioned(a, name, info) <==> Mentioned(b, name, info)
    ensures var x, y := Table(After(c, a), n), Table(After(c, b), m);
      var view := Table(c, n);
      && (forall name :: name in x && name in y ==> x[name].lastHeartbeat == y[name].lastHeartbeat)
      && (|view| >= MAX_CLUSTER_SIZE || |view.Keys + ValidNames(Heard(a))| <= MAX_CLUSTER_SIZE ==> SameHeartbeats(x, y))
  {
    var view := Table(c, n);
    HearingAbsorbs(c, a, n);
    HearingAbsorbs(c, b, m);
    forall e
      ensures e in Heard(a) <==> e in Heard(b)
    {
      HeardIsMentioned(c, a, n, e);
      HeardIsMentioned(c, b, m, e);
    }
    assert Members(Heard(a)) == Members(Heard(b));
    NamesOfEntries(Heard(a));
    forall name | name in Absorb(view, Heard(a)) && name in Absorb(view, Heard(b))
      ensures Absorb(view, Heard(a))[name].lastHeartbeat == Absorb(view, Heard(b))[name].lastHeartbeat
    {
      CommonHeartbeatsAgree(view, Heard(a), Heard(b), name);
    }
    if |view| >= MAX_CLUSTER_SIZE || |view.Keys + ValidNames(Heard(a))| <= MAX_CLUSTER_SIZE {
      SettledOrdersAgree(view, Heard(a), Heard(b));
    }
  }

  // ---------- silence is noticed ----------

  /** The action brings node `n` no news of `target` later than `h`. */
  ghost predicate NoNews(a: Action, n: string, target: string, h: nat) {
    match a
    case Probe(_, _, success) => !(a.node == n && a.target == target && success)
    case Hear(_, message, _) => a.node == n && target in message ==> message[target].lastHeartbeat <= h
    case Boot(_) => a.node != n
    case Adopt(_, _) => a.node != n
    case _ => true
  }

  /** The `i`-th action is a failed probe of `target` by `n`. */
  ghost predicate FailsAt(actions: seq<Action>, i: nat, n: string, target: string) {
    i < |actions| && actions[i] == Probe(n, target, false)
  }

  /** A probe failed after an earlier one had, more than 25 seconds after the heartbeat `h`. */
  ghost predicate FailedLate(c: Cluster, actions: seq<Action>, n: string, target: string, h: nat) {
    exists i: nat, j: nat :: i < j && FailsAt(actions, i, n, target) && FailsAt(actions, j, n, target)
                             && After(c, actions[..j]).now - h > 25_000
  }

  lemma {:induction false} StaleEntriesAreIgnored(view: View, es: seq<Entry>, n: string)
    requires n in view && forall e :: e in es && e.0 == n ==> e.1.lastHeartbeat <= view[n].lastHeartbeat
    ensures n in Absorb(view, es) && Absorb(view, es)[n] == view[n]
  {
    if es != [] {
      StaleEntriesAreIgnored(view, es[..|es| - 1], n);
      assert es[|es| - 1] in es;
    }
  }

  lemma {:induction false} TimeMovesOn(c: Cluster, actions: seq<Action>)
    ensures c.now <= After(c, actions).now
  {
    if actions != [] {
      TimeMovesOn(c, actions[..|actions| - 1]);
    }
  }

  /** What one action without news does to the entry. */
  lemma {:induction false} StepWithoutNews(c: Cluster, a: Action, n: string, target: string)
    requires target in Table(c, n) && NoNews(a, n, target, Table(c, n)[target].lastHeartbeat)
    ensures target in Table(Next(c, a), n)
    ensures var info := Table(c, n)[target];
      Table(Next(c, a), n)[target] == if a == Probe(n, target, false) then AfterFailure(info, c.now) else info
  {
    if a.Hear? && a.node == n && a.message in c.inFlight && Lists(a.es, a.message) {
      StaleEntriesAreIgnored(Table(c, n), a.es, target);
    }
  }

  // ---------- what each action does, from any state ----------

  ghost predicate OnlyTable(c: Cluster, c': Cluster, n: string) {
    c'.now == c.now && forall m :: m != n ==> Table(c', m) == Table(c, m)
  }

  /** A probe changes its target's entry in the prober's table and nothing else. */
  lemma {:induction false} ProbeIsFollowed(c: Cluster, n: string, target: string, success: bool)
    ensures var c' := Next(c, Probe(n, target, success));
      && FollowsProbe(Table(c, n), Table(c', n), target, success, c.now)
      && OnlyTable(c, c', n) && c'.inFlight == c.inFlight
  {
  }

  /** A message that is in flight is followed by the node that hears it. */
  lemma {:induction false} HearingIsFollowed(c: Cluster, a: Action, n: string)
    requires Hears(c, a, n)
    ensures var c' := Next(c, a);
      && FollowsMessage(Table(c, n), a.message, Table(c', n))
      && OnlyTable(c, c', n) && c'.inFlight == c.inFlight
  {
    MessageIsFollowed(Table(c, n), a.es, a.message);
  }

  /** Gossip sends exactly the node's table, and time passes without changing any. */
  lemma {:induction false} GossipSendsTheTable(c: Cluster, n: string, elapsed: nat)
    ensures Next(c, Gossip(n)) == Cluster(c.tables, c.inFlight + {Table(c, n)}, c.now)
    ensures Next(c, Tick(elapsed)) == Cluster(c.tables, c.inFlight, c.now + elapsed)
  {
  }

  /** The join handshake, from any state: the asked node lists the newcomer, as active and fresh if it
      is new; the reply is its whole table; and a newcomer that adopts the reply has all its entries,
      and otherwise those it had. */
  lemma {:induction false} JoinIsFollowed(c: Cluster, n: string, newcomer: string)
    ensures var c1 := Next(c, Join(n, newcomer));
      var c2 := Next(c1, Adopt(newcomer, Table(c1, n)));
      && FollowsJoin(Table(c, n), Table(c1, n), newcomer, c.now)
      && OnlyTable(c, c1, n) && c1.inFlight == c.inFlight + {Table(c1, n)}
      && OnlyTable(c1, c2, newcomer) && c2.inFlight == c1.inFlight
      && Table(c2, newcomer).Keys == Table(c1, n).Keys + Table(c1, newcomer).Keys
      && (forall m :: m in Table(c1, n) ==> Table(c2, newcomer)[m] == Table(c1, n)[m])
      && (forall m :: m in Table(c1, newcomer) && m !in Table(c1, n) ==>
            Table(c2, newcomer)[m] == Table(c1, newcomer)[m])
  {
  }

  /** A node that starts knows itself, as active, and nobody else. */
  lemma {:induction false} BootedNodeKnowsItself(c: Cluster, n: string)
    ensures var c' := Next(c, Boot(n));
      && Table(c', n).Keys == {n} && Table(c', n)[n] == NodeInfo(Active, c.now)
      && OnlyTable(c, c', n) && c'.inFlight == c.inFlight
  {
  }

  /** A successful probe makes a member active and fresh, whatever it was before, down included. From
      then on, however other actions interleave and until later news arrives: it stays active with
      that heartbeat as long as no probe of it fails, and is down again only if a further probe has
      failed more than 25 seconds later. An unknown target stays unknown to the prober. */
  lemma {:induction false} SuccessRevives(c: Cluster, actions: seq<Action>, n: string, target: string)
    requires forall a :: a in actions ==> NoNews(a, n, target, c.now)
    ensures var c' := Next(c, Probe(n, target, true));
      && (target !in Table(c, n) ==> Table(c', n) == Table(c, n))
      && (target in Table(c, n) ==>
            && target in Table(c', n) && Table(c', n)[target] == NodeInfo(Active, c.now)
            && target in Table(After(c', actions), n)
            && var info := Table(After(c', actions), n)[target];
            && info.lastHeartbeat == c.now && info.status != Leaving
            && (info.status == Active <==> forall i: nat :: !FailsAt(actions, i, n, target))
            && (info.status == Down <==> FailedLate(c', actions, n, target, c.now)))
  {
    var c' := Next(c, Probe(n, target, true));
    ProbeIsFollowed(c, n, target, true);
    if target in Table(c, n) {
      SilenceIsNoticed(c', actions, n, target, c.now);
    }
  }

  /** However gossip, joins, other probes and other nodes' actions interleave: while a node gets no
      later news of an active member, the member's heartbeat stays, it is no longer active once a
      probe has failed, and it is down exactly if a further probe has failed more than 25 seconds
      after that heartbeat. */
  lemma {:induction false} SilenceIsNoticed(c: Cluster, actions: seq<Action>, n: string, target: string, h: nat)
    requires target in Table(c, n) && Table(c, n)[target] == NodeInfo(Active, h) && h <= c.now
    requires forall a :: a in actions ==> NoNews(a, n, target, h)
    ensures target in Table(After(c, actions), n)
    ensures var info := Table(After(c, actions), n)[target];
      && info.lastHeartbeat == h && info.status != Leaving
      && (info.status == Active <==> forall i: nat :: !FailsAt(actions, i, n, target))
      && (info.status == Down <==> FailedLate(c, actions, n, target, h))
  {
    if actions != [] {
      var front, a := actions[..|actions| - 1], actions[|actions| - 1];
      assert a in actions && forall x :: x in front ==> x in actions;
      SilenceIsNoticed(c, front, n, target, h);
      StepWithoutNews(After(c, front), a, n, target);
      TimeMovesOn(c, front);
      OneMoreProbe(c, actions, n, target, h);
    }
  }

  /** How the last action changes which probes have failed. */
  lemma {:induction false} OneMoreProbe(c: Cluster, actions: seq<Action>, n: string, target: string, h: nat)
    requires actions != []
    ensures var front := actions[..|actions| - 1];
      var fails := actions[|actions| - 1] == Probe(n, target, false);
      && ((exists i: nat :: FailsAt(actions, i, n, target)) <==>
          fails || exists i: nat :: FailsAt(front, i, n, target))
      && (FailedLate(c, actions, n, target, h) <==>
          || FailedLate(c, front, n, target, h)
          || (fails && (exists i: nat :: FailsAt(front, i, n, target)) && After(c, front).now - h > 25_000))
  {
    var front := actions[..|actions| - 1];
    assert forall i: nat :: i < |front| ==> (FailsAt(actions, i, n, target) <==> FailsAt(front, i, n, target));
    assert FailsAt(actions, |front|, n, target) <==> actions[|actions| - 1] == Probe(n, target, false);
    assert forall j: nat :: j <= |front| ==> front[..j] == actions[..j];
    if i: nat, j: nat :| i < j && FailsAt(front, i, n, target) && FailsAt(front, j, n, target)
                         && After(c, front[..j]).now - h > 25_000 {
      assert FailsAt(actions, i, n, target) && FailsAt(actions, j, n, target) && front[..j] == actions[..j];
    }
    if i: nat :| FailsAt(front, i, n, target) {
      assert i < |front| && FailsAt(actions, i, n, target) && front[..|front|] == front == actions[..|front|];
    }
  }
}
