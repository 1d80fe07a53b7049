/** The map of broadcast channels behind key subscriptions. A notification sends under the read
    lock and, if nobody was listening, cleans the channel up under the write lock after checking
    again; receivers may be dropped at any moment, without a lock. */
module Subscriptions {
  import opened Options

  type ChannelId = nat
  type ReceiverId = nat

  /** A live receiver: what it subscribed to and the channel it is attached to. */
  datatype Receiver = Receiver(id: string, channel: ChannelId)

  datatype Registry = Registry(
    channels: map<string, ChannelId>,
    receivers: map<ReceiverId, Receiver>,
    nextChannel: ChannelId,
    nextReceiver: ReceiverId)

  const EMPTY: Registry := Registry(map[], map[], 0, 0)

  function Identifier(table: string, key: string): string {
    table + "/" + key
  }

  function Attached(g: Registry, ch: ChannelId): set<ReceiverId> {
    set r | r in g.receivers && g.receivers[r].channel == ch
  }

  /** `send` fails exactly when the channel exists and has no receiver. */
  predicate SendFails(g: Registry, id: string) {
    id in g.channels && |Attached(g, g.channels[id])| == 0
  }

  function AfterSubscribe(g: Registry, id: string): Registry {
    var ch := if id in g.channels then g.channels[id] else g.nextChannel;
    Registry(
      g.channels[id := ch],
      g.receivers[g.nextReceiver := Receiver(id, ch)],
      if id in g.channels then g.nextChannel else g.nextChannel + 1,
      g.nextReceiver + 1)
  }

  function AfterRemove(g: Registry, id: string): Registry {
    g.(channels := g.channels - {id})
  }

  function AfterDrop(g: Registry, r: ReceiverId): Registry {
    g.(receivers := g.receivers - {r})
  }

  /** A new receiver listens on the identifier's channel; nobody else, and no other channel, changes. */
  ghost predicate IsSubscribed(before: Registry, after: Registry, id: string, r: ReceiverId) {
    && r !in before.receivers && after.receivers.Keys == before.receivers.Keys + {r}
    && (forall q :: q in before.receivers ==> after.receivers[q] == before.receivers[q])
    && after.channels.Keys == before.channels.Keys + {id}
    && (forall i :: i in before.channels ==> after.channels[i] == before.channels[i])
    && after.receivers[r] == Receiver(id, after.channels[id])
  }

  class SubscriptionManager {
    var channels: map<string, ChannelId>
    var receivers: map<ReceiverId, Receiver>
    var nextChannel: ChannelId
    var nextReceiver: ReceiverId

    ghost function Contents(): Registry
      reads this
    {
      Registry(channels, receivers, nextChannel, nextReceiver)
    }

    constructor ()
      ensures Contents() == EMPTY
    {
      channels, receivers, nextChannel, nextReceiver := map[], map[], 0, 0;
    }

    method Subscribe(table: string, key: string) returns (r: ReceiverId)
      modifies this
      ensures Contents() == AfterSubscribe(old(Contents()), Identifier(table, key))
      ensures r == old(nextReceiver)
      ensures r !in old(receivers) ==> IsSubscribed(old(Contents()), Contents(), table + "/" + key, r)
    {
      var id := table + "/" + key;
      var ch := nextChannel;
      if id in channels {
        ch := channels[id];
        assert channels == channels[id := ch];
      } else {
        channels := channels[id := ch];
        nextChannel := nextChannel + 1;
      }
      r := nextReceiver;
      receivers := receivers[r := Receiver(id, ch)];
      nextReceiver := nextReceiver + 1;
    }

    /** The phase under the read lock: who gets the event, and whether to clean up. */
    method Send(table: string, key: string) returns (recipients: set<ReceiverId>, cleanup: bool)
      ensures var id := Identifier(table, key);
        && recipients == (if id in channels then Attached(Contents(), channels[id]) else {})
        && (cleanup <==> SendFails(Contents(), id))
      ensures var id := table + "/" + key;
        && (forall r :: r in recipients <==> id in channels && r in receivers && receivers[r].channel == channels[id])
        && (cleanup <==> id in channels && recipients == {})
    {
      var id := table + "/" + key;
      if id in channels {
        var ch := channels[id];
        recipients := set r | r in receivers && receivers[r].channel == ch;
        cleanup := |recipients| == 0;
        assert recipients == Attached(Contents(), ch);
      } else {
        recipients, cleanup := {}, false;
      }
    }

    /** The phase under the write lock, which checks again. */
    method CleanUp(table: string, key: string)
      modifies this
      ensures var id := Identifier(table, key);
        Contents() == if SendFails(old(Contents()), id) then AfterRemove(old(Contents()), id) else old(Contents())
      ensures var id := table + "/" + key;
        channels == if exists r :: r in receivers && id in old(channels) && receivers[r].channel == old(channels)[id]
                    then old(channels) else old(channels) - {id}
      ensures receivers == old(receivers)
    {
      var id := table + "/" + key;
      var recipients, empty := Send(table, key);
      if empty {
        channels := channels - {id};
      } else {
        assert id !in channels ==> channels - {id} == channels;
        assert recipients != {} ==> exists r :: r in recipients;
      }
    }
  }

  // ---------- interleavings ----------

  /** Where a notification is between its atomic sections. */
  datatype Notification =
    | MustClean(id: string)   // the send failed; no lock is held
    | MayRemove(id: string)   // the write lock is held and no receiver was counted

  datatype State = State(registry: Registry, notifying: map<nat, Notification>, writer: Option<nat>)

  datatype Action =
    | Subscribe(id: string)
    | Send(n: nat, id: string)
    | Recheck(n: nat)
    | Remove(n: nat)
    | Drop(receiver: ReceiverId)

  const INITIAL: State := State(EMPTY, map[], None)

  ghost function Next(s: State, a: Action): State {
    match a
    case Subscribe(id) =>
      if s.writer.Some? then s else s.(registry := AfterSubscribe(s.registry, id))
    case Send(n, id) =>
      if s.writer.Some? || n in s.notifying || !SendFails(s.registry, id) then s else
      s.(notifying := s.notifying[n := MustClean(id)])
    case Recheck(n) =>
      if s.writer.Some? || n !in s.notifying || !s.notifying[n].MustClean? then s
      else if SendFails(s.registry, s.notifying[n].id) then
        s.(notifying := s.notifying[n := MayRemove(s.notifying[n].id)], writer := Some(n))
      else s.(notifying := s.notifying - {n})
    case Remove(n) =>
      if s.writer != Some(n) || n !in s.notifying || !s.notifying[n].MayRemove? then s else
      State(AfterRemove(s.registry, s.notifying[n].id), s.notifying - {n}, None)
    case Drop(r) => s.(registry := AfterDrop(s.registry, r))
  }

  ghost function Reach(run: seq<Action>): State {
    if run == [] then INITIAL else Next(Reach(run[..|run| - 1]), run[|run| - 1])
  }

  /** Every live receiver listens on the channel that is in the map under its identifier. */
  ghost predicate NoOrphans(g: Registry) {
    forall r :: r in g.receivers ==>
      g.receivers[r].id in g.channels && g.channels[g.receivers[r].id] == g.receivers[r].channel
  }

  ghost predicate Invariant(s: State) {
    var g := s.registry;
    && NoOrphans(g)
    && (forall id :: id in g.channels ==> g.channels[id] < g.nextChannel)
    && (forall i, j :: i in g.channels && j in g.channels && g.channels[i] == g.channels[j] ==> i == j)
    && (forall r :: r in g.receivers ==> r < g.nextReceiver)
    && (forall n :: n in s.notifying && s.notifying[n].MayRemove? ==> s.writer == Some(n))
    && (s.writer.Some? ==>
        && s.writer.value in s.notifying
        && s.notifying[s.writer.value].MayRemove?
        && SendFails(g, s.notifying[s.writer.value].id))
  }

  lemma {:induction false} DropKeepsEmpty(g: Registry, r: ReceiverId, id: string)
    requires SendFails(g, id)
    ensures SendFails(AfterDrop(g, r), id)
  {
  }

  lemma {:induction false} RemoveOrphansNobody(g: Registry, id: string)
    requires NoOrphans(g) && SendFails(g, id)
    ensures NoOrphans(AfterRemove(g, id))
  {
    assert forall r :: r in g.receivers && g.receivers[r].id == id ==> r in Attached(g, g.channels[id]);
  }

  lemma {:induction false} InvariantStep(s: State, a: Action)
    requires Invariant(s)
    ensures Invariant(Next(s, a))
  {
    if a.Drop? && s.writer.Some? {
      DropKeepsEmpty(s.registry, a.receiver, s.notifying[s.writer.value].id);
    }
    if a.Remove? && s.writer == Some(a.n) {
      RemoveOrphansNobody(s.registry, s.notifying[a.n].id);
    }
  }

  lemma {:induction false} ReachKeepsInvariant(run: seq<Action>)
    ensures Invariant(Reach(run))
  {
    if run != [] {
      ReachKeepsInvariant(run[..|run| - 1]);
      InvariantStep(Reach(run[..|run| - 1]), run[|run| - 1]);
    }
  }

  /** In every interleaving, clean-up never orphans a subscriber. */
  lemma {:induction false} CleanUpNeverOrphans(run: seq<Action>)
    ensures NoOrphans(Reach(run).registry)
  {
    ReachKeepsInvariant(run);
  }

  /** So in every interleaving a send reaches all live receivers of the identifier and no others,
      and fails to find a channel only when there are none. */
  lemma {:induction false} SendReachesAllSubscribers(run: seq<Action>, id: string)
    ensures var g := Reach(run).registry;
      (if id in g.channels then Attached(g, g.channels[id]) else {}) ==
      set r | r in g.receivers && g.receivers[r].id == id
  {
    ReachKeepsInvariant(run);
  }

  /** The state after further actions. */
  ghost function After(s: State, actions: seq<Action>): State {
    if actions == [] then s else Next(After(s, actions[..|actions| - 1]), actions[|actions| - 1])
  }

  /** The receiver is live, and a send to the identifier reaches it. */
  ghost predicate Listens(g: Registry, id: string, r: ReceiverId) {
    r in g.receivers && g.receivers[r].id == id && id in g.channels && g.receivers[r].channel == g.channels[id]
  }

  lemma {:induction false} StaysListening(s: State, actions: seq<Action>, id: string, r: ReceiverId)
    requires Invariant(s) && Listens(s.registry, id, r)
    requires forall a :: a in actions ==> a != Drop(r)
    ensures Invariant(After(s, actions)) && Listens(After(s, actions).registry, id, r)
  {
    if actions != [] {
      var front, a := actions[..|actions| - 1], actions[|actions| - 1];
      assert a in actions && forall x :: x in front ==> x in actions;
      StaysListening(s, front, id, r);
      InvariantStep(After(s, front), a);
      ReceiverStays(After(s, front), a, r);
    }
  }

  lemma {:induction false} ReceiverStays(s: State, a: Action, r: ReceiverId)
    requires r in s.registry.receivers && r < s.registry.nextReceiver && a != Drop(r)
    ensures var g, g' := s.registry, Next(s, a).registry;
      r in g'.receivers && g'.receivers[r] == g.receivers[r]
  {
  }

  /** In every interleaving: a subscription that gets the lock adds one live receiver, and from then on,
      whatever notifications, clean-ups and other subscriptions follow, sends to its identifier reach
      that receiver until it is dropped. */
  lemma {:induction false} SubscriberIsReachedUntilDropped(run: seq<Action>, id: string, actions: seq<Action>)
    requires Reach(run).writer.None?
    requires forall a :: a in actions ==> a != Drop(Reach(run).registry.nextReceiver)
    ensures var s, r := Reach(run), Reach(run).registry.nextReceiver;
      && IsSubscribed(s.registry, Next(s, Subscribe(id)).registry, id, r)
      && Listens(After(Next(s, Subscribe(id)), actions).registry, id, r)
  {
    ReachKeepsInvariant(run);
    InvariantStep(Reach(run), Subscribe(id));
    StaysListening(Next(Reach(run), Subscribe(id)), actions, id, Reach(run).registry.nextReceiver);
  }

  /** In every interleaving: once a channel has lost its last receiver, the next notification of it
      removes it, if nobody subscribes in between, and no other channel and no receiver goes. */
  lemma {:induction false} AbandonedChannelIsRemoved(run: seq<Action>, id: string, n: nat)
    requires var s := Reach(run); s.writer.None? && n !in s.notifying
    requires var g := Reach(run).registry;
      id in g.channels && forall r :: r in g.receivers ==> g.receivers[r].id != id
    ensures var g, g' := Reach(run).registry, After(Reach(run), [Send(n, id), Recheck(n), Remove(n)]).registry;
      g'.channels == g.channels - {id} && g'.receivers == g.receivers
  {
    var s := Reach(run);
    SendReachesAllSubscribers(run, id);
    assert Attached(s.registry, s.registry.channels[id]) == {};
    var s1 := Next(s, Send(n, id));
    var s2 := Next(s1, Recheck(n));
    var actions := [Send(n, id), Recheck(n), Remove(n)];
    assert actions[..2][..1] == actions[..1] && actions[..1][..0] == [];
    assert After(s, actions[..1]) == s1 && After(s, actions[..2]) == s2;
  }

  /** While a node holds the write lock nobody subscribes; a notification that finds no channel, or a
      listener, changes nothing; and dropping a receiver removes that receiver only. */
  lemma {:induction false} OtherActionsKeepChannels(s: State, id: string, n: nat, r: ReceiverId)
    ensures s.writer.Some? ==> Next(s, Subscribe(id)) == s
    ensures id !in s.registry.channels ==> Next(s, Send(n, id)) == s
    ensures forall q :: Listens(s.registry, id, q) ==> Next(s, Send(n, id)) == s
    ensures var g, g' := s.registry, Next(s, Drop(r)).registry;
      g'.channels == g.channels && g'.receivers == g.receivers - {r}
  {
    forall q | Listens(s.registry, id, q)
      ensures Next(s, Send(n, id)) == s
    {
      assert q in Attached(s.registry, s.registry.channels[id]);
    }
  }

  /** Why the second check is needed: a send can fail, and by the time the write lock is free a new
      receiver may be listening on the channel that was found empty. */
  lemma {:induction false} FirstCheckAloneWouldOrphan(id: string)
    ensures var s := Reach([Subscribe(id), Drop(0), Send(0, id), Subscribe(id)]);
      0 in s.notifying && s.notifying[0] == MustClean(id) && !NoOrphans(AfterRemove(s.registry, id))
  {
    var run := [Subscribe(id), Drop(0), Send(0, id), Subscribe(id)];
    var s1 := AfterSubscribe(EMPTY, id);
    assert run[..3][..2] == run[..2] && run[..2][..1] == run[..1] && run[..1][..0] == [];
    assert Reach(run[..1]) == State(s1, map[], None);
    assert Reach(run[..2]) == State(AfterDrop(s1, 0), map[], None);
    assert Attached(AfterDrop(s1, 0), 0) == {};
    assert Reach(run[..3]) == State(AfterDrop(s1, 0), map[0 := MustClean(id)], None);
    assert Reach(run) == State(AfterSubscribe(AfterDrop(s1, 0), id), map[0 := MustClean(id)], None);
    assert 1 in Reach(run).registry.receivers;
  }

  // ---------- identifiers ----------

  /** A key has its identifier to itself exactly when neither its table nor its own name
      contains the separator. */
  lemma {:induction false} IdentifierIsUniqueIffNoSlash(table: string, key: string)
    ensures (forall t, k :: Identifier(t, k) == Identifier(table, key) ==> t == table && k == key) <==>
            '/' !in table && '/' !in key
  {
    var id := Identifier(table, key);
    if '/' in table {
      var i :| 0 <= i < |table| && table[i] == '/';
      assert Identifier(table[..i], table[i + 1..] + "/" + key) == id;
    } else if '/' in key {
      var i :| 0 <= i < |key| && key[i] == '/';
      assert Identifier(table + "/" + key[..i], key[i + 1..]) == id;
    } else {
      forall t, k | Identifier(t, k) == id
        ensures t == table && k == key
      {
        assert id[|t|] == '/' && id[|table|] == '/';
        assert forall i :: 0 <= i < |table| ==> id[i] == table[i];
        assert forall i :: 0 <= i < |key| ==> id[|table| + 1 + i] == key[i];
        assert |t| == |table|;
        assert t == id[..|t|] && table == id[..|table|];
        assert k == id[|t| + 1..] && key == id[|table| + 1..];
      }
    }
  }
}
