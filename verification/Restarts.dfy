/** What a restart does to keys that the snapshot format cannot carry: the record moves to a key
    nobody wrote, or a record appears that nobody wrote, so lineages end at such a restart. */
module Restarts {
  import opened Options
  import opened Versions
  import opened Stores
  import opened Replication
  import opened Persistence
  import opened Text

  /** A node that holds one record, written as `w`, and has saved a copy of it. */
  ghost predicate HoldsOne(c: Cluster, w: Write) {
    && c.log == [w]
    && Copy(w.node, w.table, w.key, Some(w.result)) in c.copies
  }

  lemma {:induction false} FirstWrite(a: Action)
    requires a.Put?
    ensures var v, c := Created(a.body, a.user, a.node, a.now), Next(INITIAL, a);
      && c.log == [Write(a.node, a.table, a.key, a.user, Whole(a.body), a.now, None, v)]
      && Held(c, a.node, a.table, a.key) == Some(v)
  {
    WriteEffect(INITIAL, a, a.node, a.table, a.key);
  }

  lemma {:induction false} SaveCopy(before: seq<Action>, w: Write) returns (run: seq<Action>)
    requires Reach(before).log == [w] && Held(Reach(before), w.node, w.table, w.key) == Some(w.result)
    ensures HoldsOne(Reach(run), w)
  {
    var a := CopyOut(w.node, w.table, w.key);
    run := before + [a];
    ReachAppend(before, a);
  }

  /** A user creates a record and the node copies it out. */
  lemma {:induction false} WriteAndSave(n: NodeId, t: string, k: string, u: User, now: nat) returns (run: seq<Action>)
    ensures HoldsOne(Reach(run), Write(n, t, k, u, Whole(map[]), now, None, Created(map[], u, n, now)))
  {
    var put := Put(n, t, k, u, map[], now, {});
    ReachAppend([], put);
    FirstWrite(put);
    run := SaveCopy([] + [put], Write(n, t, k, u, Whole(map[]), now, None, Created(map[], u, n, now)));
  }

  lemma {:induction false} CanStart(c: Cluster, w: Write, d: Disk)
    requires HoldsOne(c, w)
    requires d.codec.Sound() && d.records == map[w.table := [(w.key, w.result)]]
    ensures SavedBy(c, w.node, d)
  {
    assert d.records[w.table] == [(w.key, w.result)];
  }

  lemma {:induction false} Starts(c: Cluster, n: NodeId, d: Disk)
    requires SavedBy(c, n, d)
    ensures Next(c, Restart(n, d)).log == c.log
    ensures StoreAt(Next(c, Restart(n, d)), n) == d.Restored()
  {
    assert Next(c, Restart(n, d)).stores == c.stores[n := d.Restored()];
  }

  /** What the text of the one saved record parses to. */
  function Parsed(codec: Codec, w: Write): Table {
    AfterLines(codec, map[], Lines(RecordText(codec, (w.key, w.result))))
  }

  /** The node then starts again from a disk with just that record. */
  lemma {:induction false} StartAgain(before: seq<Action>, w: Write, d: Disk) returns (run: seq<Action>)
    requires HoldsOne(Reach(before), w)
    requires d.codec.Sound() && d.records == map[w.table := [(w.key, w.result)]]
    ensures Reach(run).log == [w]
    ensures StoreAt(Reach(run), w.node) == map[w.table := Parsed(d.codec, w)]
  {
    run := before + [Restart(w.node, d)];
    ReachAppend(before, Restart(w.node, d));
    CanStart(Reach(before), w, d);
    Starts(Reach(before), w.node, d);
    OneTableRestored(d, w.table, (w.key, w.result));
  }

  /** A padded key comes back under another key, to which nobody has written. */
  lemma {:induction false} PaddedKeyIsRenamed(n: NodeId, t: string, u: User, now: nat, d: Disk)
    returns (run: seq<Action>)
    requires d.codec.Sound() && d.records == map[t := [(" k", Created(map[], u, n, now))]]
    ensures Held(Reach(run), n, t, "k") == Some(Created(map[], u, n, now))
    ensures Held(Reach(run), n, t, " k") == None && Writes(Reach(run).log, t, "k") == {}
  {
    var v := Created(map[], u, n, now);
    run := WriteAndSave(n, t, " k", u, now);
    run := StartAgain(run, Write(n, t, " k", u, Whole(map[]), now, None, v), d);
    PaddedKeyMoves(d.codec, v);
  }

  /** A key that contains a line of the snapshot format brings back a version nobody wrote. */
  lemma {:induction false} KeyForgesRecord(n: NodeId, t: string, u: User, now: nat, d: Disk, forged: Version)
    returns (run: seq<Action>)
    requires d.codec.Sound() && forged != Created(map[], u, n, now)
    requires d.records == map[t := [(ForgingKey(d.codec, forged), Created(map[], u, n, now))]]
    ensures Held(Reach(run), n, t, "x") == Some(forged)
    ensures forall w :: w in Reach(run).log ==> w.result != forged
  {
    var v, key := Created(map[], u, n, now), ForgingKey(d.codec, forged);
    run := WriteAndSave(n, t, key, u, now);
    run := StartAgain(run, Write(n, t, key, u, Whole(map[]), now, None, v), d);
    ForgingKeySplits(d.codec, forged, v);
  }
}
