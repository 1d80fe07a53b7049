/** The replication protocol as a state machine. Any number of nodes hold stores; messages may be
    delayed, reordered, duplicated or lost, so a message once sent stays available and delivering
    it does not consume it. Every sequence of actions is a run: an action that is not possible in
    a state leaves the state unchanged. */
module Replication {
  import opened Options
  import opened Sequences
  import opened Versions
  import opened Merge
  import opened Stores
  import opened ReadRepair
  import Persistence

  /** A version on its way to a node, or one that a node has written or received. */
  datatype Message = Message(node: NodeId, table: string, key: string, version: Version)

  /** What a node held for a key when the record was copied out of its memory: for a read's
      answer, for a peer that pulls the store, or for a save to disk. */
  datatype Copy = Copy(node: NodeId, table: string, key: string, content: Option<Version>)

  /** The body of a PUT, or of a PATCH. */
  datatype Sent = Whole(body: Fields) | Changes(body: Fields)

  /** One successful PUT or PATCH: who sent what, when, what it was applied to and what it produced. */
  datatype Write = Write(
    node: NodeId, table: string, key: string, user: User, sent: Sent, now: nat,
    base: Option<Version>, result: Version)

  /** `log` and `seen` are history: the writes so far in order, and what each node has written
      or received. No handler reads them. */
  datatype Cluster = Cluster(
    stores: map<NodeId, Store>,
    inFlight: set<Message>,
    copies: set<Copy>,
    log: seq<Write>,
    seen: set<Message>)

  datatype Action =
    | Put(node: NodeId, table: string, key: string, user: User, body: Fields, now: nat, targets: set<NodeId>)
    | PatchRecord(node: NodeId, table: string, key: string, user: User, body: Fields, now: nat, targets: set<NodeId>)
    | Receive(message: Message)
    | Delete(node: NodeId, table: string, key: string)
    | CopyOut(node: NodeId, table: string, key: string)
    | Read(table: string, key: string, responses: seq<Response>)
    | Pull(node: NodeId, peer: NodeId, remote: Store)
    | Restart(node: NodeId, disk: Persistence.Disk)

  const INITIAL: Cluster := Cluster(map[], {}, {}, [], {})

  function StoreAt(c: Cluster, n: NodeId): Store {
    if n in c.stores then c.stores[n] else map[]
  }

  function Held(c: Cluster, n: NodeId, t: string, k: string): Option<Version> {
    Lookup(StoreAt(c, n), t, k)
  }

  /** Every record of `s` was copied out of `n` at some time, not necessarily all at once. */
  ghost predicate CopiedFrom(c: Cluster, n: NodeId, s: Store) {
    forall t, k :: t in s && k in s[t] ==> Copy(n, t, k, Some(s[t][k])) in c.copies
  }

  /** The disk holds records of `n`, each as it was at some time, not necessarily all at once. */
  ghost predicate SavedBy(c: Cluster, n: NodeId, disk: Persistence.Disk) {
    && disk.Valid()
    && forall t, r :: t in disk.records && r in disk.records[t] ==> Copy(n, t, r.0, Some(r.1)) in c.copies
  }

  ghost predicate Answered(c: Cluster, t: string, k: string, rs: seq<Response>) {
    forall r :: r in rs ==> Copy(r.node, t, k, r.content) in c.copies
  }

  function Records(n: NodeId, s: Store): set<Message> {
    set t, k | t in s && k in s[t] :: Message(n, t, k, s[t][k])
  }

  function Addressed(targets: set<NodeId>, t: string, k: string, v: Version): set<Message> {
    set n | n in targets :: Message(n, t, k, v)
  }

  ghost function Repairs(t: string, k: string, rs: seq<Response>): set<Message>
    requires Present(rs) != []
  {
    set r | r in rs && NeedsRepair(r.content, MaxBy(Present(rs))) :: Message(r.node, t, k, MaxBy(Present(rs)))
  }

  ghost function AfterWrite(c: Cluster, a: Action): Cluster
    requires a.Put? || a.PatchRecord?
  {
    var o := WriteOutcome(c, a);
    var c' := c.(stores := c.stores[a.node := Commit(StoreAt(c, a.node), a.table, a.key, o)]);
    if !o.Written? then c' else
    c'.(inFlight := c.inFlight + Addressed(a.targets, a.table, a.key, o.version),
        log := c.log + [Logged(c, a, o.version)],
        seen := c.seen + {Message(a.node, a.table, a.key, o.version)})
  }

  /** The log entry of a PUT or PATCH that produced `v`. */
  ghost function Logged(c: Cluster, a: Action, v: Version): Write
    requires a.Put? || a.PatchRecord?
  {
    Write(a.node, a.table, a.key, a.user, if a.Put? then Whole(a.body) else Changes(a.body), a.now,
          Held(c, a.node, a.table, a.key), v)
  }

  /** What a PUT or PATCH answers in state `c`. */
  ghost function WriteOutcome(c: Cluster, a: Action): Outcome
    requires a.Put? || a.PatchRecord?
  {
    var current := Held(c, a.node, a.table, a.key);
    if a.Put? then PutOutcome(current, a.node, a.user, a.body, a.now)
    else PatchOutcome(current, a.node, a.user, a.body, a.now)
  }

  ghost function Next(c: Cluster, a: Action): Cluster {
    match a
    case Put(_, _, _, _, _, _, _) => AfterWrite(c, a)
    case PatchRecord(_, _, _, _, _, _, _) => AfterWrite(c, a)
    case Receive(m) =>
      if m !in c.inFlight then c else
      c.(stores := c.stores[m.node := Deliver(StoreAt(c, m.node), m.table, m.key, m.version)],
         seen := c.seen + {m})
    // Covers the internal delete, and the external one with any authorization check made earlier.
    case Delete(n, t, k) =>
      c.(stores := c.stores[n := Remove(StoreAt(c, n), t, k)])
    case CopyOut(n, t, k) =>
      c.(copies := c.copies + {Copy(n, t, k, Held(c, n, t, k))})
    case Read(t, k, rs) =>
      if !Answered(c, t, k, rs) || Present(rs) == [] then c else
      c.(inFlight := c.inFlight + Repairs(t, k, rs))
    case Pull(n, peer, remote) =>
      if !CopiedFrom(c, peer, remote) then c else
      c.(stores := c.stores[n := MergeStores(StoreAt(c, n), remote)],
         seen := c.seen + Records(n, remote))
    // The node comes back with what a start reads from its disk.
    case Restart(n, disk) =>
      if !SavedBy(c, n, disk) then c else
      c.(stores := c.stores[n := disk.Restored()])
  }

  /** The state reached by a run. */
  ghost function Reach(run: seq<Action>): Cluster {
    if run == [] then INITIAL else Next(Reach(run[..|run| - 1]), run[|run| - 1])
  }

  lemma {:induction false} ReachAppend(run: seq<Action>, a: Action)
    ensures Reach(run + [a]) == Next(Reach(run), a)
  {
    assert (run + [a])[..|run|] == run;
  }

  /** The state after further actions. */
  ghost function After(c: Cluster, actions: seq<Action>): Cluster {
    if actions == [] then c else Next(After(c, actions[..|actions| - 1]), actions[|actions| - 1])
  }

  lemma {:induction false} AfterAppend(c: Cluster, actions: seq<Action>, a: Action)
    ensures After(c, actions + [a]) == Next(After(c, actions), a)
  {
    assert (actions + [a])[..|actions|] == actions;
  }

  lemma {:induction false} ReachThenAfter(run: seq<Action>, actions: seq<Action>)
    ensures Reach(run + actions) == After(Reach(run), actions)
  {
    if actions == [] {
      assert run + actions == run;
    } else {
      var front, a := actions[..|actions| - 1], actions[|actions| - 1];
      assert actions == front + [a];
      ReachThenAfter(run, front);
      OneMoreAction(run, front, a);
    }
  }

  lemma {:induction false} OneMoreAction(run: seq<Action>, front: seq<Action>, a: Action)
    requires Reach(run + front) == After(Reach(run), front)
    ensures Reach(run + (front + [a])) == After(Reach(run), front + [a])
  {
    Associative(run, front, [a]);
    ReachAppend(run + front, a);
    AfterAppend(Reach(run), front, a);
  }

  /** If the action is a restart, it restores under the key only what was saved under it. */
  ghost predicate FaithfulRestart(a: Action, t: string, k: string) {
    a.Restart? && a.disk.Valid() ==> a.disk.Faithful(t, k)
  }

  /** Every restart of the run is faithful to the key. */
  ghost predicate FaithfulRestarts(run: seq<Action>, t: string, k: string) {
    forall i :: 0 <= i < |run| ==> FaithfulRestart(run[i], t, k)
  }

  /** The action takes no record of the key away from node `n`. */
  ghost predicate KeepsAt(a: Action, n: NodeId, t: string, k: string) {
    && !(a.Delete? && a.node == n && a.table == t && a.key == k)
    && !(a.Restart? && a.node == n)
  }

  ghost predicate Keeps(actions: seq<Action>, n: NodeId, t: string, k: string) {
    forall i :: 0 <= i < |actions| ==> KeepsAt(actions[i], n, t, k)
  }

  // ---------- what one action does to one key of one node ----------

  datatype Effect = Keep | Wrote(v: Version) | Received(v: Version) | Reset(content: Option<Version>)

  ghost function EffectOn(c: Cluster, a: Action, n: NodeId, t: string, k: string): Effect {
    match a
    case Put(_, _, _, _, _, _, _) =>
      if a.node == n && a.table == t && a.key == k && WriteOutcome(c, a).Written?
      then Wrote(WriteOutcome(c, a).version) else Keep
    case PatchRecord(_, _, _, _, _, _, _) =>
      if a.node == n && a.table == t && a.key == k && WriteOutcome(c, a).Written?
      then Wrote(WriteOutcome(c, a).version) else Keep
    case Receive(m) =>
      if m in c.inFlight && m.node == n && m.table == t && m.key == k then Received(m.version) else Keep
    case Delete(_, _, _) =>
      if a.node == n && a.table == t && a.key == k then Reset(None) else Keep
    case Pull(_, _, remote) =>
      if CopiedFrom(c, a.peer, remote) && a.node == n && Lookup(remote, t, k).Some?
      then Received(Lookup(remote, t, k).value) else Keep
    case Restart(_, disk) =>
      if SavedBy(c, a.node, disk) && a.node == n then Reset(Lookup(disk.Restored(), t, k)) else Keep
    case _ => Keep
  }

  ghost function Apply(current: Option<Version>, e: Effect): Option<Version> {
    match e
    case Keep => current
    case Wrote(v) => Some(v)
    case Received(v) => Some(MergedOption(current, v))
    case Reset(content) => content
  }

  /** Every action changes what a node holds for a key exactly as its effect says. */
  lemma {:induction false} EffectIsExact(c: Cluster, a: Action, n: NodeId, t: string, k: string)
    ensures Held(Next(c, a), n, t, k) == Apply(Held(c, n, t, k), EffectOn(c, a, n, t, k))
  {
    if a.Put? || a.PatchRecord? {
      WriteEffect(c, a, n, t, k);
    } else if a.Receive? || a.Pull? {
      TransferEffect(c, a, n, t, k);
    } else {
      ResetEffect(c, a, n, t, k);
    }
  }

  lemma {:induction false} WriteEffect(c: Cluster, a: Action, n: NodeId, t: string, k: string)
    requires a.Put? || a.PatchRecord?
    ensures Held(Next(c, a), n, t, k) == Apply(Held(c, n, t, k), EffectOn(c, a, n, t, k))
  {
    LookupCommit(StoreAt(c, a.node), a.table, a.key, WriteOutcome(c, a), t, k);
  }

  lemma {:induction false} ResetEffect(c: Cluster, a: Action, n: NodeId, t: string, k: string)
    requires a.Delete? || a.Restart? || a.Read? || a.CopyOut?
    ensures Held(Next(c, a), n, t, k) == Apply(Held(c, n, t, k), EffectOn(c, a, n, t, k))
  {
  }

  lemma {:induction false} TransferEffect(c: Cluster, a: Action, n: NodeId, t: string, k: string)
    requires a.Receive? || a.Pull?
    ensures Held(Next(c, a), n, t, k) == Apply(Held(c, n, t, k), EffectOn(c, a, n, t, k))
  {
    if a.Pull? {
      LookupMergeStores(StoreAt(c, a.node), a.remote, t, k);
    } else {
      var m := a.message;
      LookupDeliver(StoreAt(c, m.node), m.table, m.key, m.version, t, k);
    }
  }

  /** The history of a key grows only by what its effect says. */
  lemma {:induction false} HistoryGrowth(c: Cluster, a: Action)
    ensures var c' := Next(c, a);
      || (c'.log == c.log && forall n, t, k :: !EffectOn(c, a, n, t, k).Wrote?)
      || ((a.Put? || a.PatchRecord?) && WriteOutcome(c, a).Written?
          && c'.log == c.log + [Logged(c, a, WriteOutcome(c, a).version)])
    ensures var c' := Next(c, a);
      forall m :: m in c'.seen <==>
        m in c.seen || EffectOn(c, a, m.node, m.table, m.key) in {Wrote(m.version), Received(m.version)}
  {
  }

  // ---------- every version in the system was produced by a logged write ----------

  ghost function Writes(log: seq<Write>, t: string, k: string): set<Version> {
    set i | 0 <= i < |log| && log[i].table == t && log[i].key == k :: log[i].result
  }

  /** The write did to its base what PUT and PATCH do, for the base's owner and with the body sent. */
  ghost predicate IsApplied(w: Write) {
    && w.result.timestamp == w.now
    && match w.base
       case None =>
         && w.sent == Whole(w.result.value)
         && w.result.clock == map[w.node := 1] && w.result.owner == w.user
       case Some(b) =>
         && (if w.sent.Whole? then w.result.value == w.sent.body
             else IsOverlay(b.value, w.sent.body, w.result.value))
         && w.result.clock == Bump(b.clock, w.node) && w.result.owner == b.owner == w.user
  }

  /** The base of write `i` is the result of an earlier write to the same key. */
  ghost predicate IsBased(log: seq<Write>, i: nat)
    requires i < |log|
  {
    log[i].base.Some? ==> log[i].base.value in Writes(log[..i], log[i].table, log[i].key)
  }

  /** The version `v` of the key is somewhere in the system. */
  ghost predicate Somewhere(c: Cluster, t: string, k: string, v: Version) {
    || (exists n :: Held(c, n, t, k) == Some(v))
    || (exists n :: Message(n, t, k, v) in c.inFlight)
    || (exists n :: Copy(n, t, k, Some(v)) in c.copies)
    || (exists n :: Message(n, t, k, v) in c.seen)
  }

  /** Every version of the key anywhere in the system is the result of a logged write to it. */
  ghost predicate Genuine(c: Cluster, t: string, k: string) {
    var S := Writes(c.log, t, k);
    && (forall n :: Held(c, n, t, k).Some? ==> Held(c, n, t, k).value in S)
    && (forall m :: m in c.inFlight && m.table == t && m.key == k ==> m.version in S)
    && (forall x :: x in c.copies && x.table == t && x.key == k && x.content.Some? ==> x.content.value in S)
    && (forall m :: m in c.seen && m.table == t && m.key == k ==> m.version in S)
  }

  ghost predicate AllApplied(log: seq<Write>) {
    forall i :: 0 <= i < |log| ==> IsApplied(log[i])
  }

  ghost predicate AllBased(log: seq<Write>, t: string, k: string) {
    forall i :: 0 <= i < |log| && log[i].table == t && log[i].key == k ==> IsBased(log, i)
  }

  lemma {:induction false} WritesGrow(log: seq<Write>, w: Write, t: string, k: string)
    ensures Writes(log + [w], t, k) ==
            Writes(log, t, k) + (if w.table == t && w.key == k then {w.result} else {})
  {
    var log' := log + [w];
    assert log'[|log|] == w;
    assert forall i :: 0 <= i < |log| ==> log'[i] == log[i];
    forall v | v in Writes(log, t, k)
      ensures v in Writes(log', t, k)
    {
      var i :| 0 <= i < |log| && log[i].table == t && log[i].key == k && log[i].result == v;
      assert log'[i].result == v;
    }
  }

  lemma {:induction false} LogOnlyGrows(c: Cluster, a: Action, t: string, k: string)
    ensures Writes(c.log, t, k) <= Writes(Next(c, a).log, t, k)
    ensures forall n :: EffectOn(c, a, n, t, k).Wrote? ==> EffectOn(c, a, n, t, k).v in Writes(Next(c, a).log, t, k)
  {
    HistoryGrowth(c, a);
    if Next(c, a).log != c.log {
      WritesGrow(c.log, Next(c, a).log[|c.log|], t, k);
    }
  }

  lemma {:induction false} EffectIsGenuine(c: Cluster, a: Action, n: NodeId, t: string, k: string)
    requires Genuine(c, t, k) && FaithfulRestart(a, t, k)
    ensures match EffectOn(c, a, n, t, k)
      case Keep => true
      case Wrote(v) => v in Writes(Next(c, a).log, t, k)
      case Received(v) => v in Writes(c.log, t, k)
      case Reset(content) => content.Some? ==> content.value in Writes(c.log, t, k)
  {
    LogOnlyGrows(c, a, t, k);
    if a.Restart? && SavedBy(c, a.node, a.disk) {
      var content := Lookup(a.disk.Restored(), t, k);
      if content.Some? {
        assert (k, content.value) in a.disk.records[t];
        assert Copy(a.node, t, k, content) in c.copies;
      }
    }
  }

  lemma {:induction false} StoresStayGenuine(c: Cluster, a: Action, n: NodeId, t: string, k: string)
    requires Genuine(c, t, k) && FaithfulRestart(a, t, k)
    ensures Held(Next(c, a), n, t, k).Some? ==> Held(Next(c, a), n, t, k).value in Writes(Next(c, a).log, t, k)
  {
    EffectIsExact(c, a, n, t, k);
    EffectIsGenuine(c, a, n, t, k);
    LogOnlyGrows(c, a, t, k);
  }

  lemma {:induction false} MessagesStayGenuine(c: Cluster, a: Action, m: Message)
    requires Genuine(c, m.table, m.key) && m in Next(c, a).inFlight
    ensures m.version in Writes(Next(c, a).log, m.table, m.key)
  {
    LogOnlyGrows(c, a, m.table, m.key);
    if m !in c.inFlight {
      if a.Read? {
        var rs := a.responses;
        MaxByIsMember(Present(rs));
        PresentMembers(rs);
        var i :| 0 <= i < |rs| && rs[i].content == Some(m.version);
        assert rs[i] in rs;
      } else {
        assert EffectOn(c, a, a.node, m.table, m.key) == Wrote(m.version);
      }
    }
  }

  lemma {:induction false} GenuineStep(c: Cluster, a: Action, t: string, k: string)
    requires Genuine(c, t, k) && FaithfulRestart(a, t, k)
    ensures Genuine(Next(c, a), t, k)
  {
    var c' := Next(c, a);
    LogOnlyGrows(c, a, t, k);
    forall n | Held(c', n, t, k).Some?
      ensures Held(c', n, t, k).value in Writes(c'.log, t, k)
    {
      StoresStayGenuine(c, a, n, t, k);
    }
    forall m | m in c'.inFlight && m.table == t && m.key == k
      ensures m.version in Writes(c'.log, t, k)
    {
      MessagesStayGenuine(c, a, m);
    }
    forall m | m in c'.seen && m.table == t && m.key == k
      ensures m.version in Writes(c'.log, t, k)
    {
      HistoryGrowth(c, a);
      EffectIsGenuine(c, a, m.node, t, k);
    }
  }

  lemma {:induction false} LogStaysBased(c: Cluster, a: Action, t: string, k: string)
    requires Genuine(c, t, k) && AllBased(c.log, t, k)
    ensures AllBased(Next(c, a).log, t, k)
  {
    HistoryGrowth(c, a);
    var log' := Next(c, a).log;
    forall i | 0 <= i < |log'| && log'[i].table == t && log'[i].key == k
      ensures IsBased(log', i)
    {
      if i < |c.log| {
        assert log'[..i] == c.log[..i];
        assert IsBased(c.log, i);
      } else {
        assert log'[..i] == c.log;
      }
    }
  }

  /** In every run, whatever the restarts, each logged write did what PUT and PATCH do: it stored the
      body it was sent, or put it over the fields it found, counted one write, and was made by the
      owner. */
  lemma {:induction false} ReachIsApplied(run: seq<Action>)
    ensures AllApplied(Reach(run).log)
  {
    if run != [] {
      var c, a := Reach(run[..|run| - 1]), run[|run| - 1];
      ReachIsApplied(run[..|run| - 1]);
      HistoryGrowth(c, a);
      if a.Put? || a.PatchRecord? {
        OutcomeIsApplied(c, a);
      }
    }
  }

  lemma {:induction false} OutcomeIsApplied(c: Cluster, a: Action)
    requires a.Put? || a.PatchRecord?
    ensures WriteOutcome(c, a).Written? ==> IsApplied(Logged(c, a, WriteOutcome(c, a).version))
  {
    var held := Held(c, a.node, a.table, a.key);
    if a.Put? {
      PutIsAnswered(held, a.node, a.user, a.body, a.now);
    } else {
      PatchIsAnswered(held, a.node, a.user, a.body, a.now);
    }
  }

  /** In every run whose restarts are faithful to the key, whatever they do to other keys, every
      stored, sent, copied or seen version of the key was produced by a logged write to it, and so
      was the base of every such write. */
  lemma {:induction false} ReachIsGenuine(run: seq<Action>, t: string, k: string)
    requires FaithfulRestarts(run, t, k)
    ensures Genuine(Reach(run), t, k) && AllBased(Reach(run).log, t, k)
  {
    if run != [] {
      ReachIsGenuine(run[..|run| - 1], t, k);
      GenuineStep(Reach(run[..|run| - 1]), run[|run| - 1], t, k);
      LogStaysBased(Reach(run[..|run| - 1]), run[|run| - 1], t, k);
    }
  }

  // ---------- what each action does, from any state ----------

  /** No other record of any node is touched. */
  ghost predicate OnlyTouches(c: Cluster, c': Cluster, n: NodeId, t: string, k: string) {
    forall p, t', k' :: p != n || t' != t || k' != k ==> Held(c', p, t', k') == Held(c, p, t', k')
  }

  /** The counters of `after` are those of `before`, if there was a record, and one more for `n`. */
  ghost predicate Counted(before: Option<Version>, after: Version, n: NodeId) {
    forall m :: At(after.clock, m) ==
      (if before.Some? then At(before.value.clock, m) else 0) + (if m == n then 1 else 0)
  }

  /** A PUT by the owner of the record, or where there is none, stores the body it was sent, stamps and
      counts it, and sends the version to exactly the targets; a PUT by anyone else changes nothing. */
  lemma {:induction false} PutStoresTheBody(
      c: Cluster, n: NodeId, t: string, k: string, user: User, body: Fields, now: nat, targets: set<NodeId>)
    ensures var c', before := Next(c, Put(n, t, k, user, body, now, targets)), Held(c, n, t, k);
      if before.Some? && before.value.owner != user then
        && Held(c', n, t, k) == before
        && c'.inFlight == c.inFlight && c'.log == c.log && c'.seen == c.seen
      else
        && Held(c', n, t, k).Some?
        && var v := Held(c', n, t, k).value;
        && v.value == body && v.timestamp == now && v.owner == user && Counted(before, v, n)
        && (forall m :: m in c'.inFlight <==> m in c.inFlight || (m.node in targets && m == Message(m.node, t, k, v)))
    ensures OnlyTouches(c, Next(c, Put(n, t, k, user, body, now, targets)), n, t, k)
  {
    var a := Put(n, t, k, user, body, now, targets);
    PutIsAnswered(Held(c, n, t, k), n, user, body, now);
    OthersUntouched(c, a);
    EffectIsExact(c, a, n, t, k);
  }

  /** A PATCH by the owner replaces the fields it names and no others, stamps and counts the write, and
      sends the version to exactly the targets; without a record, or by anyone else, it changes
      nothing. */
  lemma {:induction false} PatchKeepsOtherFields(
      c: Cluster, n: NodeId, t: string, k: string, user: User, body: Fields, now: nat, targets: set<NodeId>)
    ensures var c', before := Next(c, PatchRecord(n, t, k, user, body, now, targets)), Held(c, n, t, k);
      if before.None? || before.value.owner != user then
        && Held(c', n, t, k) == before
        && c'.inFlight == c.inFlight && c'.log == c.log && c'.seen == c.seen
      else
        && Held(c', n, t, k).Some?
        && var v, b := Held(c', n, t, k).value, before.value;
        && (forall f :: f in v.value <==> f in b.value || f in body)
        && (forall f :: f in body ==> v.value[f] == body[f])
        && (forall f :: f in b.value && f !in body ==> v.value[f] == b.value[f])
        && v.timestamp == now && v.owner == user && Counted(before, v, n)
        && (forall m :: m in c'.inFlight <==> m in c.inFlight || (m.node in targets && m == Message(m.node, t, k, v)))
    ensures OnlyTouches(c, Next(c, PatchRecord(n, t, k, user, body, now, targets)), n, t, k)
  {
    var a := PatchRecord(n, t, k, user, body, now, targets);
    PatchIsAnswered(Held(c, n, t, k), n, user, body, now);
    OthersUntouched(c, a);
    EffectIsExact(c, a, n, t, k);
  }

  lemma {:induction false} OthersUntouched(c: Cluster, a: Action)
    requires a.Put? || a.PatchRecord? || a.Delete?
    ensures OnlyTouches(c, Next(c, a), a.node, a.table, a.key)
  {
    forall p, t, k | p != a.node || t != a.table || k != a.key
      ensures Held(Next(c, a), p, t, k) == Held(c, p, t, k)
    {
      EffectIsExact(c, a, p, t, k);
    }
  }

  /** A delete removes the record at its node, and no other. */
  lemma {:induction false} DeleteRemovesOneRecord(c: Cluster, n: NodeId, t: string, k: string)
    ensures Held(Next(c, Delete(n, t, k)), n, t, k) == None
    ensures OnlyTouches(c, Next(c, Delete(n, t, k)), n, t, k)
  {
    OthersUntouched(c, Delete(n, t, k));
    EffectIsExact(c, Delete(n, t, k), n, t, k);
  }

  /** A message in flight that reaches its node is stored there if the node has no record, or only one
      that the message dominates or is strictly later than without being dominated. */
  lemma {:induction false} ReceivedUnlessBeaten(c: Cluster, m: Message)
    requires m in c.inFlight
    ensures var before, v := Held(c, m.node, m.table, m.key), m.version;
      Held(Next(c, Receive(m)), m.node, m.table, m.key) ==
      if before.Some? && !Dominates(v, before.value)
         && (Dominates(before.value, v) || v.timestamp <= before.value.timestamp)
      then before else Some(v)
    ensures OnlyTouches(c, Next(c, Receive(m)), m.node, m.table, m.key)
  {
    forall p, t, k
      ensures Held(Next(c, Receive(m)), p, t, k) == Apply(Held(c, p, t, k), EffectOn(c, Receive(m), p, t, k))
    {
      EffectIsExact(c, Receive(m), p, t, k);
    }
  }

  /** A store that a node pulls is merged by the same rule, for every key, and at that node only. */
  lemma {:induction false} PulledUnlessBeaten(c: Cluster, n: NodeId, peer: NodeId, remote: Store, t: string, k: string)
    requires CopiedFrom(c, peer, remote)
    ensures var before, pulled := Held(c, n, t, k), Lookup(remote, t, k);
      Held(Next(c, Pull(n, peer, remote)), n, t, k) ==
      if pulled.None? then before
      else if before.Some? && !Dominates(pulled.value, before.value)
           && (Dominates(before.value, pulled.value) || pulled.value.timestamp <= before.value.timestamp)
      then before else pulled
    ensures forall p :: p != n ==> Held(Next(c, Pull(n, peer, remote)), p, t, k) == Held(c, p, t, k)
  {
    EffectIsExact(c, Pull(n, peer, remote), n, t, k);
  }

  /** The node answered that it lacks the key, or with a version that must catch up with `picked`. */
  ghost predicate IsStale(rs: seq<Response>, n: NodeId, picked: Version) {
    exists r :: r in rs && r.node == n && MustCatchUp(r.content, picked)
  }

  /** A read changes no record; it sends the version it picked to exactly the responders that lack the
      key, or hold a version that does not dominate it and is strictly earlier. */
  lemma {:induction false} ReadRepairsOnlyTheStale(c: Cluster, t: string, k: string, rs: seq<Response>)
    requires Answered(c, t, k, rs) && Present(rs) != []
    ensures var c', picked := Next(c, Read(t, k, rs)), MaxBy(Present(rs));
      && c'.stores == c.stores
      && forall m :: m in c'.inFlight <==>
           (m in c.inFlight || (m == Message(m.node, t, k, picked) && IsStale(rs, m.node, picked)))
  {
  }

  /** A repair that a read sends takes effect when it reaches a replica whose record is still the
      one it answered with. */
  lemma {:induction false} DeliveredRepairTakesEffect(c: Cluster, t: string, k: string, rs: seq<Response>, r: Response)
    requires Answered(c, t, k, rs) && r in rs && Present(rs) != []
    requires NeedsRepair(r.content, MaxBy(Present(rs)))
    requires Held(c, r.node, t, k) == r.content
    ensures var latest := MaxBy(Present(rs));
      Held(Next(Next(c, Read(t, k, rs)), Receive(Message(r.node, t, k, latest))), r.node, t, k) == Some(latest)
  {
  }
}
