/** One node's tables, and the handlers that change them: external PUT, PATCH and DELETE, the
    internal PUT that merges a replicated version, and the bulk merge of a peer's store. */
module Stores {
  import opened Options
  import opened Versions
  import opened Merge

  type Table = map<string, Version>
  type Store = map<string, Table>

  /** What a handler answers: the version it wrote, or why it wrote nothing. */
  datatype Outcome = Written(version: Version) | Unauthorized | NotFound

  function TableOf(s: Store, t: string): Table {
    if t in s then s[t] else map[]
  }

  function Lookup(s: Store, t: string, k: string): Option<Version> {
    if t in s && k in s[t] then Some(s[t][k]) else None
  }

  function WithRecord(s: Store, t: string, k: string, v: Version): Store {
    s[t := TableOf(s, t)[k := v]]
  }

  // ---------- specification of the handlers ----------

  ghost function PutOutcome(current: Option<Version>, node: NodeId, user: User, body: Fields, now: nat): Outcome {
    match current
    case None => Written(Created(body, user, node, now))
    case Some(v) => if v.owner != user then Unauthorized else Written(Updated(v, body, node, now))
  }

  ghost function PatchOutcome(current: Option<Version>, node: NodeId, user: User, body: Fields, now: nat): Outcome {
    match current
    case None => NotFound
    case Some(v) => if v.owner != user then Unauthorized else Written(Patched(v, body, node, now))
  }

  /** The store after a handler: the table exists from then on, even when nothing was written. */
  ghost function Commit(s: Store, t: string, k: string, outcome: Outcome): Store {
    match outcome
    case Written(v) => WithRecord(s, t, k, v)
    case _ => s[t := TableOf(s, t)]
  }

  ghost function MergedOption(current: Option<Version>, incoming: Version): Version {
    match current
    case None => incoming
    case Some(v) => Merged(v, incoming)
  }

  /** The internal PUT. */
  ghost function Deliver(s: Store, t: string, k: string, incoming: Version): Store {
    WithRecord(s, t, k, MergedOption(Lookup(s, t, k), incoming))
  }

  function Remove(s: Store, t: string, k: string): Store {
    if t in s then s[t := s[t] - {k}] else s
  }

  ghost function MergeTables(local: Table, remote: Table): Table {
    map k | k in local.Keys + remote.Keys ::
      if k !in remote then local[k]
      else if k !in local then remote[k]
      else Merged(local[k], remote[k])
  }

  ghost function MergeStores(local: Store, remote: Store): Store {
    map t | t in local.Keys + remote.Keys :: MergeTables(TableOf(local, t), TableOf(remote, t))
  }

  // ---------- what the handlers promise ----------

  /** Nothing changes but possibly the record under this key. */
  ghost predicate SameElsewhere(a: Store, b: Store, t: string, k: string) {
    forall t', k' :: t' != t || k' != k ==> Lookup(a, t', k') == Lookup(b, t', k')
  }

  /** A written version is held afterwards; otherwise every record is as before. The table exists
      from then on. */
  ghost predicate Holds(before: Store, after: Store, t: string, k: string, o: Outcome) {
    && Lookup(after, t, k) == (if o.Written? then Some(o.version) else Lookup(before, t, k))
    && SameElsewhere(before, after, t, k)
    && after.Keys == before.Keys + {t}
  }

  lemma {:induction false} CommitHolds(s: Store, t: string, k: string, o: Outcome)
    ensures Holds(s, Commit(s, t, k, o), t, k, o)
  {
  }

  ghost function ClockOf(held: Option<Version>): Clock {
    if held.Some? then held.value.clock else map[]
  }

  /** A PUT is refused on another user's record. Otherwise it writes exactly the body, for the user,
      at its time, and counts one write of the node. */
  ghost predicate AnswersPut(held: Option<Version>, node: NodeId, user: User, body: Fields, now: nat, o: Outcome) {
    if held.Some? && held.value.owner != user then o == Unauthorized else
    && o.Written?
    && o.version.value == body && o.version.timestamp == now && o.version.owner == user
    && OneMoreWrite(ClockOf(held), o.version.clock, node)
  }

  /** A PATCH is refused without a record, and on another user's record. Otherwise it replaces the
      fields of the body and no others, at its time, and counts one write of the node. */
  ghost predicate AnswersPatch(held: Option<Version>, node: NodeId, user: User, body: Fields, now: nat, o: Outcome) {
    if held.None? then o == NotFound
    else if held.value.owner != user then o == Unauthorized else
    && o.Written?
    && IsOverlay(held.value.value, body, o.version.value)
    && o.version.timestamp == now && o.version.owner == held.value.owner
    && OneMoreWrite(ClockOf(held), o.version.clock, node)
  }

  lemma {:induction false} PutIsAnswered(held: Option<Version>, node: NodeId, user: User, body: Fields, now: nat)
    ensures AnswersPut(held, node, user, body, now, PutOutcome(held, node, user, body, now))
  {
  }

  lemma {:induction false} PatchIsAnswered(held: Option<Version>, node: NodeId, user: User, body: Fields, now: nat)
    ensures AnswersPatch(held, node, user, body, now, PatchOutcome(held, node, user, body, now))
  {
  }

  /** The internal PUT stores a version that finds no record. It replaces a held one only by a
      version that dominates it, or by a strictly later one that it does not dominate; on any
      other, a tie included, the held record stays. Nothing else changes. */
  lemma {:induction false} DeliverReplacesOnlyTheBeaten(s: Store, t: string, k: string, v: Version)
    ensures Lookup(s, t, k) == None ==> Lookup(Deliver(s, t, k, v), t, k) == Some(v)
    ensures forall e :: Lookup(s, t, k) == Some(e) ==>
      Lookup(Deliver(s, t, k, v), t, k) ==
      Some(if Dominates(v, e) || (!Dominates(e, v) && v.timestamp > e.timestamp) then v else e)
    ensures SameElsewhere(s, Deliver(s, t, k, v), t, k)
  {
  }

  /** The same, key by key, for a merge of whole stores; a record on one side only is kept. */
  ghost predicate ReplacesOnlyTheBeaten(local: Store, remote: Store, result: Store) {
    && result.Keys == local.Keys + remote.Keys
    && (forall t, k :: Lookup(remote, t, k) == None ==> Lookup(result, t, k) == Lookup(local, t, k))
    && (forall t, k :: Lookup(local, t, k) == None ==> Lookup(result, t, k) == Lookup(remote, t, k))
    && (forall t, k :: Lookup(local, t, k).Some? && Lookup(remote, t, k).Some? ==>
          var e, v := Lookup(local, t, k).value, Lookup(remote, t, k).value;
          Lookup(result, t, k) ==
          Some(if Dominates(v, e) || (!Dominates(e, v) && v.timestamp > e.timestamp) then v else e))
  }

  lemma {:induction false} MergeReplacesOnlyTheBeaten(local: Store, remote: Store)
    ensures ReplacesOnlyTheBeaten(local, remote, MergeStores(local, remote))
  {
    forall t, k
      ensures Lookup(MergeStores(local, remote), t, k) ==
              match Lookup(remote, t, k)
              case None => Lookup(local, t, k)
              case Some(v) => Some(MergedOption(Lookup(local, t, k), v))
    {
      LookupMergeStores(local, remote, t, k);
    }
  }

  // ---------- the handlers ----------

  class AppState {
    var store: Store

    constructor ()
      ensures store == map[]
    {
      store := map[];
    }

    /** External PUT by an authenticated user, on the node `node`, at wall-clock time `now`. */
    method PutValue(t: string, k: string, user: User, body: Fields, node: NodeId, now: nat)
      returns (outcome: Outcome)
      modifies this
      ensures outcome == PutOutcome(old(Lookup(store, t, k)), node, user, body, now)
      ensures store == Commit(old(store), t, k, outcome)
      ensures AnswersPut(old(Lookup(store, t, k)), node, user, body, now, outcome)
      ensures Holds(old(store), store, t, k, outcome)
    {
      Touch(t);
      outcome := WrittenByPut(store[t], k, user, body, node, now);
      if outcome.Written? {
        store := store[t := store[t][k := outcome.version]];
      }
      CommitHolds(old(store), t, k, outcome);
    }

    /** The new or updated record, unless another user owns the held one. */
    method WrittenByPut(table: Table, k: string, user: User, body: Fields, node: NodeId, now: nat)
      returns (outcome: Outcome)
      ensures var held := if k in table then Some(table[k]) else None;
        && outcome == PutOutcome(held, node, user, body, now)
        && AnswersPut(held, node, user, body, now, outcome)
    {
      var v: Version;
      if k in table {
        if table[k].owner != user {
          return Unauthorized;
        }
        var existing := new VersionedValue.Of(table[k]);
        existing.Update(body, node, now);
        v := existing.Clone();
      } else {
        var created := new VersionedValue.New(body, user, node, now);
        v := created.Clone();
      }
      outcome := Written(v);
    }

    method PatchValue(t: string, k: string, user: User, body: Fields, node: NodeId, now: nat)
      returns (outcome: Outcome)
      modifies this
      ensures outcome == PatchOutcome(old(Lookup(store, t, k)), node, user, body, now)
      ensures store == Commit(old(store), t, k, outcome)
      ensures AnswersPatch(old(Lookup(store, t, k)), node, user, body, now, outcome)
      ensures Holds(old(store), store, t, k, outcome)
    {
      Touch(t);
      outcome := WrittenByPatch(store[t], k, user, body, node, now);
      if outcome.Written? {
        store := store[t := store[t][k := outcome.version]];
      }
      CommitHolds(old(store), t, k, outcome);
    }

    /** The patched record, if there is one and the user owns it. */
    method WrittenByPatch(table: Table, k: string, user: User, body: Fields, node: NodeId, now: nat)
      returns (outcome: Outcome)
      ensures var held := if k in table then Some(table[k]) else None;
        && outcome == PatchOutcome(held, node, user, body, now)
        && AnswersPatch(held, node, user, body, now, outcome)
    {
      if k !in table {
        return NotFound;
      }
      if table[k].owner != user {
        return Unauthorized;
      }
      var existing := new VersionedValue.Of(table[k]);
      existing.Patch(body, node, now);
      var v := existing.Clone();
      outcome := Written(v);
    }

    /** Internal PUT: the answer is the version the node holds afterwards. */
    method PutValueInternal(t: string, k: string, incoming: Version) returns (cached: Version)
      modifies this
      ensures store == Deliver(old(store), t, k, incoming)
      ensures Lookup(store, t, k) == Some(cached)
      ensures old(Lookup(store, t, k)) == None ==> cached == incoming
      ensures forall e :: old(Lookup(store, t, k)) == Some(e) ==>
        cached == if Dominates(incoming, e) || (!Dominates(e, incoming) && incoming.timestamp > e.timestamp)
                  then incoming else e
      ensures SameElsewhere(old(store), store, t, k) && store.Keys == old(store).Keys + {t}
    {
      Touch(t);
      cached := incoming;
      if k in store[t] {
        var replace := IncomingWins(incoming, store[t][k]);
        if !replace {
          cached := store[t][k];
        }
      }
      store := store[t := store[t][k := cached]];
      DeliverReplacesOnlyTheBeaten(old(store), t, k, incoming);
    }

    /** Internal DELETE. */
    method DeleteInternal(t: string, k: string)
      modifies this
      ensures store == Remove(old(store), t, k)
      ensures Lookup(store, t, k) == None
      ensures SameElsewhere(old(store), store, t, k) && store.Keys == old(store).Keys
    {
      if t in store {
        store := store[t := store[t] - {k}];
      }
    }

    /** External DELETE: only the owner of an existing record removes it. */
    method DeleteValue(t: string, k: string, user: User) returns (authorized: bool)
      modifies this
      ensures authorized <==> old(Lookup(store, t, k)).Some? && old(Lookup(store, t, k)).value.owner == user
      ensures store == if authorized then Remove(old(store), t, k) else old(store)
      ensures Lookup(store, t, k) == if authorized then None else old(Lookup(store, t, k))
      ensures SameElsewhere(old(store), store, t, k) && store.Keys == old(store).Keys
    {
      authorized := t in store && k in store[t] && store[t][k].owner == user;
      if authorized {
        DeleteInternal(t, k);
      }
    }

    /** Merge one remote table into the local table of that name, in any iteration order. */
    method MergeTableState(t: string, remote: Table)
      requires t in store
      modifies this
      ensures store == old(store)[t := MergeTables(old(store)[t], remote)]
      ensures store[t].Keys == old(store)[t].Keys + remote.Keys
      ensures forall k :: k in store[t] && k !in remote ==> store[t][k] == old(store)[t][k]
      ensures forall k :: k in remote && k !in old(store)[t] ==> store[t][k] == remote[k]
      ensures forall k :: k in remote && k in old(store)[t] ==>
        var e, v := old(store)[t][k], remote[k];
        store[t][k] == if Dominates(v, e) || (!Dominates(e, v) && v.timestamp > e.timestamp) then v else e
    {
      var local := store[t];
      ghost var before := local;
      var todo := remote.Keys;
      while todo != {}
        invariant todo <= remote.Keys && store == old(store)
        invariant local.Keys == before.Keys + (remote.Keys - todo)
        invariant forall k :: k in local ==>
          local[k] == if k in remote.Keys - todo then MergeTables(before, remote)[k] else before[k]
      {
        var k :| k in todo;
        todo := todo - {k};
        if k in local {
          var replace := IncomingWins(remote[k], local[k]);
          if replace {
            local := local[k := remote[k]];
          }
        } else {
          local := local[k := remote[k]];
        }
      }
      assert local == MergeTables(before, remote);
      store := store[t := local];
    }

    /** Merge a peer's whole store, in any iteration order. */
    method MergeGlobalStore(remote: Store)
      modifies this
      ensures store == MergeStores(old(store), remote)
      ensures ReplacesOnlyTheBeaten(old(store), remote, store)
    {
      var todo := remote.Keys;
      while todo != {}
        invariant todo <= remote.Keys
        invariant store.Keys == old(store).Keys + (remote.Keys - todo)
        invariant forall t :: t in remote.Keys - todo ==> store[t] == MergeTables(TableOf(old(store), t), remote[t])
        invariant forall t :: t in old(store) && (t in todo || t !in remote) ==> store[t] == old(store)[t]
      {
        var t :| t in todo;
        todo := todo - {t};
        MergeInto(t, remote[t]);
      }
      TableByTable(old(store), remote, store);
    }

    method MergeInto(t: string, remote: Table)
      modifies this
      ensures store == old(store)[t := MergeTables(TableOf(old(store), t), remote)]
    {
      Touch(t);
      MergeTableState(t, remote);
    }

    /** `entry(table).or_default()`. */
    method Touch(t: string)
      modifies this
      ensures store == old(store)[t := TableOf(old(store), t)]
    {
      if t !in store {
        store := store[t := map[]];
      } else {
        assert store == store[t := store[t]];
      }
    }
  }

  method IncomingWins(incoming: Version, existing: Version) returns (r: bool)
    ensures r <==> Wins(incoming, existing)
    ensures r <==> Dominates(incoming, existing) ||
                   (!Dominates(existing, incoming) && incoming.timestamp > existing.timestamp)
  {
    r := DecideDominates(incoming, existing);
    if !r {
      var beaten := DecideDominates(existing, incoming);
      r := !beaten && incoming.timestamp > existing.timestamp;
    }
  }

  // ---------- laws of the bulk merge ----------

  lemma {:induction false} TableByTable(local: Store, remote: Store, result: Store)
    requires result.Keys == local.Keys + remote.Keys
    requires forall t :: t in remote ==> result[t] == MergeTables(TableOf(local, t), remote[t])
    requires forall t :: t in local && t !in remote ==> result[t] == local[t]
    ensures result == MergeStores(local, remote)
    ensures ReplacesOnlyTheBeaten(local, remote, result)
  {
    MergeReplacesOnlyTheBeaten(local, remote);
    forall t | t in local && t !in remote
      ensures MergeTables(local[t], map[]) == local[t]
    {
    }
  }

  /** Two stores hold the same records; they may differ in empty tables. */
  ghost predicate SameRecords(a: Store, b: Store) {
    forall t, k :: Lookup(a, t, k) == Lookup(b, t, k)
  }

  lemma {:induction false} LookupMergeStores(local: Store, remote: Store, t: string, k: string)
    ensures Lookup(MergeStores(local, remote), t, k) ==
            match Lookup(remote, t, k)
            case None => Lookup(local, t, k)
            case Some(v) => Some(MergedOption(Lookup(local, t, k), v))
  {
  }

  lemma {:induction false} LookupDeliver(s: Store, t: string, k: string, v: Version, t': string, k': string)
    ensures Lookup(Deliver(s, t, k, v), t', k') ==
            if t' == t && k' == k then Some(MergedOption(Lookup(s, t, k), v)) else Lookup(s, t', k')
  {
  }

  lemma {:induction false} LookupCommit(s: Store, t: string, k: string, o: Outcome, t': string, k': string)
    ensures Lookup(Commit(s, t, k, o), t', k') ==
            if t' == t && k' == k && o.Written? then Some(o.version) else Lookup(s, t', k')
  {
  }

  /** Deliver the named records of `remote`, one by one, through the internal PUT. */
  ghost function DeliverAll(local: Store, remote: Store, order: seq<(string, string)>): Store
    requires forall r :: r in order ==> Lookup(remote, r.0, r.1).Some?
  {
    if order == [] then local
    else
      var (t, k) := order[|order| - 1];
      Deliver(DeliverAll(local, remote, order[..|order| - 1]), t, k, Lookup(remote, t, k).value)
  }

  lemma {:induction false} LookupDeliverAll(
      local: Store, remote: Store, order: seq<(string, string)>, t: string, k: string)
    requires forall r :: r in order ==> Lookup(remote, r.0, r.1).Some?
    ensures Lookup(DeliverAll(local, remote, order), t, k) ==
            if (t, k) in order then Some(MergedOption(Lookup(local, t, k), Lookup(remote, t, k).value))
            else Lookup(local, t, k)
  {
    if order != [] {
      var front, last := order[..|order| - 1], order[|order| - 1];
      LookupDeliverAll(local, remote, front, t, k);
      var v := Lookup(remote, last.0, last.1).value;
      LookupDeliver(DeliverAll(local, remote, front), last.0, last.1, v, t, k);
      WinsIsAsymmetric(v, v);
      assert (t, k) in order <==> (t, k) in front || (t, k) == last;
    }
  }

  /** Pulling a peer's store at once is the same as receiving each of its records through the
      internal PUT, in any order and with any repetition. */
  lemma {:induction false} BulkMergeIsDeliveries(local: Store, remote: Store, order: seq<(string, string)>)
    requires forall t, k :: (t, k) in order <==> Lookup(remote, t, k).Some?
    ensures SameRecords(MergeStores(local, remote), DeliverAll(local, remote, order))
  {
    forall t, k
      ensures Lookup(MergeStores(local, remote), t, k) == Lookup(DeliverAll(local, remote, order), t, k)
    {
      LookupMergeStores(local, remote, t, k);
      LookupDeliverAll(local, remote, order, t, k);
    }
  }

  lemma {:induction false} SameRecordsSameTables(a: Store, b: Store)
    requires a.Keys == b.Keys && SameRecords(a, b)
    ensures a == b
  {
    forall t | t in a
      ensures a[t] == b[t]
    {
      assert forall k :: k in a[t] ==> Lookup(a, t, k) == Lookup(b, t, k);
      assert forall k :: k in b[t] ==> Lookup(a, t, k) == Lookup(b, t, k);
    }
  }

  /** Pulling the same store twice changes nothing, whatever the versions are. */
  lemma {:induction false} BulkMergeIsIdempotent(local: Store, remote: Store)
    ensures MergeStores(MergeStores(local, remote), remote) == MergeStores(local, remote)
  {
    var once := MergeStores(local, remote);
    var twice := MergeStores(once, remote);
    forall t, k
      ensures Lookup(twice, t, k) == Lookup(once, t, k)
    {
      LookupMergeStores(local, remote, t, k);
      LookupMergeStores(once, remote, t, k);
    }
    SameRecordsSameTables(twice, once);
  }

  /** The versions that the stores hold for one key. */
  ghost function VersionsAt(stores: set<Store>, t: string, k: string): set<Version> {
    set s | s in stores && Lookup(s, t, k).Some? :: Lookup(s, t, k).value
  }

  /** For every key the versions in these stores are totally ordered by "wins". */
  ghost predicate Comparable(stores: set<Store>) {
    forall t, k :: Linear(VersionsAt(stores, t, k))
  }

  lemma {:induction false} WellStampedStoresAreComparable(stores: set<Store>)
    requires forall t, k :: WellStamped(VersionsAt(stores, t, k))
    ensures Comparable(stores)
  {
  }

  /** Two nodes that pull each other's store end up equal exactly when, for every key they both
      hold, their versions are equal or one wins over the other. */
  lemma {:induction false} ExchangeAgreesIffComparable(a: Store, b: Store)
    ensures MergeStores(a, b) == MergeStores(b, a) <==> Comparable({a, b})
  {
    forall t, k
      ensures Lookup(MergeStores(a, b), t, k) == Lookup(MergeStores(b, a), t, k) <==> Linear(VersionsAt({a, b}, t, k))
    {
      ExchangeAt(a, b, t, k);
    }
    if Comparable({a, b}) {
      SameRecordsSameTables(MergeStores(a, b), MergeStores(b, a));
    }
  }

  lemma {:induction false} PairAgrees(x: Version, y: Version)
    ensures Linear({x, y}) <==> Merged(x, y) == Merged(y, x)
    ensures Linear({x}) && Linear({})
  {
  }

  lemma {:induction false} ExchangeAt(a: Store, b: Store, t: string, k: string)
    ensures Lookup(MergeStores(a, b), t, k) == Lookup(MergeStores(b, a), t, k) <==> Linear(VersionsAt({a, b}, t, k))
  {
    LookupMergeStores(a, b, t, k);
    LookupMergeStores(b, a, t, k);
    var x, y := Lookup(a, t, k), Lookup(b, t, k);
    var S := VersionsAt({a, b}, t, k);
    assert a in {a, b} && b in {a, b};
    assert S == (if x.Some? then {x.value} else {}) + (if y.Some? then {y.value} else {});
    if x.Some? && y.Some? {
      assert S == {x.value, y.value};
      PairAgrees(x.value, y.value);
    } else if x.Some? {
      assert S == {x.value};
      PairAgrees(x.value, x.value);
    } else if y.Some? {
      assert S == {y.value};
      PairAgrees(y.value, y.value);
    }
  }

  lemma {:induction false} MergedIsAssociative(S: set<Version>, x: Version, y: Version, z: Version)
    requires Linear(S) && x in S && y in S && z in S
    ensures Merged(Merged(x, y), z) == Merged(x, Merged(y, z))
  {
  }

  lemma {:induction false} BulkMergeIsAssociative(a: Store, b: Store, c: Store)
    requires Comparable({a, b, c})
    ensures MergeStores(MergeStores(a, b), c) == MergeStores(a, MergeStores(b, c))
  {
    var l, r := MergeStores(MergeStores(a, b), c), MergeStores(a, MergeStores(b, c));
    forall t, k
      ensures Lookup(l, t, k) == Lookup(r, t, k)
    {
      AssociativeAt(a, b, c, t, k);
    }
    SameRecordsSameTables(l, r);
  }

  lemma {:induction false} AssociativeAt(a: Store, b: Store, c: Store, t: string, k: string)
    requires Comparable({a, b, c})
    ensures Lookup(MergeStores(MergeStores(a, b), c), t, k) == Lookup(MergeStores(a, MergeStores(b, c)), t, k)
  {
    LookupMergeStores(a, b, t, k);
    LookupMergeStores(MergeStores(a, b), c, t, k);
    LookupMergeStores(b, c, t, k);
    LookupMergeStores(a, MergeStores(b, c), t, k);
    if Lookup(a, t, k).Some? && Lookup(b, t, k).Some? && Lookup(c, t, k).Some? {
      var S := VersionsAt({a, b, c}, t, k);
      var x, y, z := Lookup(a, t, k).value, Lookup(b, t, k).value, Lookup(c, t, k).value;
      assert a in {a, b, c} && b in {a, b, c} && c in {a, b, c};
      assert x in S && y in S && z in S;
      MergedIsAssociative(S, x, y, z);
    }
  }
}
