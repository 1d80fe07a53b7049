/** Lineages: chains of logged writes, each applied to the result of the one before it. What a
    lineage says about a version holds in every run, with deletes, restarts and arbitrary wall
    clocks; that every version has one needs restarts to restore under a key only what was saved
    under it. */
module Lineage {
  import opened Options
  import opened Versions
  import opened Replication

  /** Write `q` was applied to what write `p` produced. */
  ghost predicate Derives(log: seq<Write>, p: nat, q: nat) {
    && p < q < |log|
    && log[p].table == log[q].table && log[p].key == log[q].key
    && log[q].base == Some(log[p].result)
  }

  /** Indices of a chain of writes that starts by creating the record. */
  ghost predicate IsLineage(log: seq<Write>, idx: seq<nat>) {
    && idx != []
    && (forall i :: 0 <= i < |idx| ==> idx[i] < |log|)
    && log[idx[0]].base.None?
    && (forall i :: 0 < i < |idx| ==> Derives(log, idx[i - 1], idx[i]))
  }

  /** `idx` is a lineage of version `v` of the key. */
  ghost predicate LineageOf(log: seq<Write>, idx: seq<nat>, t: string, k: string, v: Version) {
    && IsLineage(log, idx)
    && var w := log[idx[|idx| - 1]];
       w.table == t && w.key == k && w.result == v
  }

  /** `x` was a stage in the making of `y`. */
  ghost predicate Ancestor(log: seq<Write>, t: string, k: string, x: Version, y: Version) {
    exists idx: seq<nat>, i: nat ::
      LineageOf(log, idx, t, k, y) && i < |idx| - 1 && log[idx[i]].result == x
  }

  /** How many writes of the chain were made by node `n`. */
  ghost function WritesBy(log: seq<Write>, idx: seq<nat>, n: NodeId): nat
    requires forall i :: 0 <= i < |idx| ==> idx[i] < |log|
  {
    if idx == [] then 0
    else WritesBy(log, idx[..|idx| - 1], n) + (if log[idx[|idx| - 1]].node == n then 1 else 0)
  }

  lemma {:induction false} LineageExists(log: seq<Write>, i: nat) returns (idx: seq<nat>)
    requires i < |log| && AllBased(log, log[i].table, log[i].key)
    ensures IsLineage(log, idx) && idx[|idx| - 1] == i
  {
    assert IsBased(log, i);
    if log[i].base.None? {
      idx := [i];
    } else {
      var b := log[i].base.value;
      var j :| 0 <= j < i
        && log[..i][j].table == log[i].table && log[..i][j].key == log[i].key && log[..i][j].result == b;
      var front := LineageExists(log, j);
      idx := front + [i];
      assert Derives(log, j, i);
      forall p | 0 < p < |idx|
        ensures Derives(log, idx[p - 1], idx[p])
      {
        if p < |front| { assert Derives(log, front[p - 1], front[p]); }
      }
    }
  }

  lemma {:induction false} PrefixIsLineage(log: seq<Write>, idx: seq<nat>, m: nat)
    requires IsLineage(log, idx) && 0 < m <= |idx|
    ensures IsLineage(log, idx[..m])
  {
  }

  /** A version's clock counts, node by node, the writes in its lineage. */
  lemma {:induction false} ClockCountsLineage(log: seq<Write>, idx: seq<nat>, n: NodeId)
    requires AllApplied(log) && IsLineage(log, idx)
    ensures At(log[idx[|idx| - 1]].result.clock, n) == WritesBy(log, idx, n)
  {
    var front, last := idx[..|idx| - 1], idx[|idx| - 1];
    assert IsApplied(log[last]);
    if front == [] {
      assert WritesBy(log, front, n) == 0;
    } else {
      PrefixIsLineage(log, idx, |idx| - 1);
      ClockCountsLineage(log, front, n);
      assert Derives(log, idx[|idx| - 2], last);
    }
  }

  /** A derived version dominates every version it was derived from. */
  lemma {:induction false} DerivedDominates(log: seq<Write>, idx: seq<nat>, i: nat, j: nat)
    requires AllApplied(log) && IsLineage(log, idx) && i < j < |idx|
    ensures Dominates(log[idx[j]].result, log[idx[i]].result)
  {
    var x, y, z := log[idx[i]].result, log[idx[j - 1]].result, log[idx[j]].result;
    assert Derives(log, idx[j - 1], idx[j]) && IsApplied(log[idx[j]]);
    BumpDominates(y, z, log[idx[j]].node);
    if i < j - 1 {
      DerivedDominates(log, idx, i, j - 1);
      DominanceIsStrictOrder(z, y, x);
    }
  }

  /** One user made every write of a lineage, and owns every version along it. */
  lemma {:induction false} LineageHasOneOwner(log: seq<Write>, idx: seq<nat>, i: nat)
    requires AllApplied(log) && IsLineage(log, idx) && i < |idx|
    ensures log[idx[i]].user == log[idx[i]].result.owner == log[idx[|idx| - 1]].result.owner
    decreases |idx| - i
  {
    assert IsApplied(log[idx[i]]);
    if i < |idx| - 1 {
      LineageHasOneOwner(log, idx, i + 1);
      assert Derives(log, idx[i], idx[i + 1]) && IsApplied(log[idx[i + 1]]);
    }
  }

  lemma {:induction false} AncestorIsDominated(log: seq<Write>, t: string, k: string, x: Version, y: Version)
    requires AllApplied(log) && Ancestor(log, t, k, x, y)
    ensures Dominates(y, x)
  {
    var idx: seq<nat>, i: nat :| LineageOf(log, idx, t, k, y) && i < |idx| - 1 && log[idx[i]].result == x;
    DerivedDominates(log, idx, i, |idx| - 1);
  }

  /** In every run whose restarts are faithful to the key, every version of the key anywhere in the
      system has a lineage among the writes of the run. */
  lemma {:induction false} EveryVersionHasLineage(run: seq<Action>, t: string, k: string, v: Version)
    returns (idx: seq<nat>)
    requires FaithfulRestarts(run, t, k) && Somewhere(Reach(run), t, k, v)
    ensures LineageOf(Reach(run).log, idx, t, k, v)
  {
    var log := Reach(run).log;
    ReachIsGenuine(run, t, k);
    assert v in Writes(log, t, k);
    var i :| 0 <= i < |log| && log[i].table == t && log[i].key == k && log[i].result == v;
    idx := LineageExists(log, i);
  }

  /** In every run, whatever the lineage of a version, its clock counts it node by node, its owner made all of
      it, and the version dominates every earlier stage. */
  lemma {:induction false} VersionRecordsItsLineage(run: seq<Action>, idx: seq<nat>, t: string, k: string, v: Version)
    requires LineageOf(Reach(run).log, idx, t, k, v)
    ensures forall n :: At(v.clock, n) == WritesBy(Reach(run).log, idx, n)
    ensures forall i :: 0 <= i < |idx| ==> Reach(run).log[idx[i]].user == v.owner
    ensures forall i :: 0 <= i < |idx| - 1 ==> Dominates(v, Reach(run).log[idx[i]].result)
  {
    var log := Reach(run).log;
    ReachIsApplied(run);
    forall n ensures At(v.clock, n) == WritesBy(log, idx, n) {
      ClockCountsLineage(log, idx, n);
    }
    forall i | 0 <= i < |idx| ensures log[idx[i]].user == v.owner {
      LineageHasOneOwner(log, idx, i);
    }
    forall i | 0 <= i < |idx| - 1 ensures Dominates(v, log[idx[i]].result) {
      DerivedDominates(log, idx, i, |idx| - 1);
    }
  }

  /** Write `i` of the chain sent the field, and every later one is a PATCH that does not mention it. */
  ghost predicate LastSets(log: seq<Write>, idx: seq<nat>, f: string, i: nat)
    requires forall j :: 0 <= j < |idx| ==> idx[j] < |log|
  {
    && i < |idx| && f in log[idx[i]].sent.body
    && forall j :: i < j < |idx| ==> log[idx[j]].sent.Changes? && f !in log[idx[j]].sent.body
  }

  lemma {:induction false} FieldComesFromLineage(log: seq<Write>, idx: seq<nat>, f: string)
    requires AllApplied(log) && IsLineage(log, idx)
    ensures var value := log[idx[|idx| - 1]].result.value;
      && (f in value <==> exists i: nat :: LastSets(log, idx, f, i))
      && (forall i: nat :: LastSets(log, idx, f, i) ==> f in value && value[f] == log[idx[i]].sent.body[f])
  {
    var n := |idx| - 1;
    var w := log[idx[n]];
    assert IsApplied(w);
    if f in w.sent.body {
      assert LastSets(log, idx, f, n);
      assert forall i: nat :: i < n ==> !LastSets(log, idx, f, i);
    } else if w.sent.Whole? {
      assert forall i: nat :: i <= n ==> !LastSets(log, idx, f, i);
    } else {
      PrefixIsLineage(log, idx, n);
      FieldComesFromLineage(log, idx[..n], f);
      assert Derives(log, idx[n - 1], idx[n]);
      forall i: nat
        ensures LastSets(log, idx, f, i) <==> LastSets(log, idx[..n], f, i)
      {
        SetsBefore(log, idx, f, i);
      }
    }
  }

  lemma {:induction false} SetsBefore(log: seq<Write>, idx: seq<nat>, f: string, i: nat)
    requires idx != [] && forall j :: 0 <= j < |idx| ==> idx[j] < |log|
    requires log[idx[|idx| - 1]].sent.Changes? && f !in log[idx[|idx| - 1]].sent.body
    ensures LastSets(log, idx, f, i) <==> LastSets(log, idx[..|idx| - 1], f, i)
  {
    var front := idx[..|idx| - 1];
    if LastSets(log, front, f, i) {
      forall j | i < j < |idx|
        ensures log[idx[j]].sent.Changes? && f !in log[idx[j]].sent.body
      {
        if j < |front| { assert log[front[j]].sent.Changes?; }
      }
    }
    if LastSets(log, idx, f, i) {
      assert forall j :: i < j < |front| ==> front[j] == idx[j];
    }
  }

  /** In every run, whatever the lineage of a version, its payload is what the requests of that lineage
      add up to: a field is there exactly if some write sent it and every later one was a PATCH that
      did not mention it, and then it has the value that was sent; its time is that of the last
      write. */
  lemma {:induction false} PayloadReplaysLineage(run: seq<Action>, idx: seq<nat>, t: string, k: string, v: Version)
    requires LineageOf(Reach(run).log, idx, t, k, v)
    ensures var log := Reach(run).log;
      && v.timestamp == log[idx[|idx| - 1]].now
      && (forall f :: f in v.value <==> exists i: nat :: LastSets(log, idx, f, i))
      && (forall f, i: nat :: LastSets(log, idx, f, i) ==> f in v.value && v.value[f] == log[idx[i]].sent.body[f])
  {
    var log := Reach(run).log;
    ReachIsApplied(run);
    assert IsApplied(log[idx[|idx| - 1]]);
    forall f
      ensures f in v.value <==> exists i: nat :: LastSets(log, idx, f, i)
      ensures forall i: nat :: LastSets(log, idx, f, i) ==> f in v.value && v.value[f] == log[idx[i]].sent.body[f]
    {
      FieldComesFromLineage(log, idx, f);
    }
  }

  /** In every run, no action that does not take the record away from the node replaces a stored
      version by one of its ancestors, or makes it disappear. */
  lemma {:induction false} NeverBackToAncestor(run: seq<Action>, a: Action, n: NodeId, t: string, k: string)
    requires KeepsAt(a, n, t, k) && Held(Reach(run), n, t, k).Some?
    ensures var c' := Next(Reach(run), a);
      && Held(c', n, t, k).Some?
      && !Ancestor(c'.log, t, k, Held(c', n, t, k).value, Held(Reach(run), n, t, k).value)
  {
    var c := Reach(run);
    var c' := Next(c, a);
    var e := Held(c, n, t, k).value;
    ReachAppend(run, a);
    ReachIsApplied(run + [a]);
    EffectIsExact(c, a, n, t, k);
    var x := Held(c', n, t, k).value;
    DominanceIsStrictOrder(e, x, e);
    if EffectOn(c, a, n, t, k).Wrote? {
      BumpDominates(e, x, a.node);
    }
    if Ancestor(c'.log, t, k, x, e) {
      AncestorIsDominated(c'.log, t, k, x, e);
    }
  }
}
