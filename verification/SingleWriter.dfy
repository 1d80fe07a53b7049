/** Keys written through one node only, in runs that take no record of the key away from that node.
    Nothing is assumed about the wall clocks. */
module SingleWriter {
  import opened Options
  import opened Versions
  import opened Merge
  import opened Replication
  import opened Convergence

  /** Every write to the key so far went through node `w`. */
  ghost predicate OneWriter(log: seq<Write>, t: string, k: string, w: NodeId) {
    forall i :: 0 <= i < |log| && log[i].table == t && log[i].key == k ==> log[i].node == w
  }

  /** The position of a version in the writer's history. */
  function Rank(v: Version, w: NodeId): nat {
    At(v.clock, w)
  }

  /** The clocks hold nothing but the writer's counter, and the counter identifies the version. */
  ghost predicate Sequence(S: set<Version>, w: NodeId) {
    && (forall v :: v in S ==> v.clock == map[w := Rank(v, w)])
    && (forall u, v :: u in S && v in S && Rank(u, w) == Rank(v, w) ==> u == v)
  }

  ghost predicate WriterIsAhead(c: Cluster, t: string, k: string, w: NodeId) {
    var S := Writes(c.log, t, k);
    && Sequence(S, w)
    && match Held(c, w, t, k)
       case None => S == {}
       case Some(v) => v in S && forall u :: u in S ==> Rank(u, w) <= Rank(v, w)
  }

  lemma {:induction false} WinsByRank(S: set<Version>, w: NodeId, u: Version, v: Version)
    requires Sequence(S, w) && u in S && v in S
    ensures Wins(u, v) <==> Rank(u, w) > Rank(v, w)
  {
  }

  /** Without a write to the key the writer keeps what it holds. */
  lemma {:induction false} WriterKeepsItsVersion(c: Cluster, a: Action, t: string, k: string, w: NodeId)
    requires Genuine(c, t, k) && KeepsAt(a, w, t, k) && FaithfulRestart(a, t, k) && WriterIsAhead(c, t, k, w)
    requires !EffectOn(c, a, w, t, k).Wrote?
    ensures Held(Next(c, a), w, t, k) == Held(c, w, t, k)
  {
    EffectIsExact(c, a, w, t, k);
    EffectIsGenuine(c, a, w, t, k);
    if EffectOn(c, a, w, t, k).Received? {
      WinsByRank(Writes(c.log, t, k), w, EffectOn(c, a, w, t, k).v, Held(c, w, t, k).value);
    }
  }

  /** A write puts a version one rank above all others at the end of the sequence. */
  lemma {:induction false} SequenceGrows(S: set<Version>, w: NodeId, base: Option<Version>, v: Version)
    requires Sequence(S, w)
    requires match base
      case None => S == {} && v.clock == map[w := 1]
      case Some(b) => b in S && v.clock == Bump(b.clock, w) && forall u :: u in S ==> Rank(u, w) <= Rank(b, w)
    ensures Sequence(S + {v}, w)
    ensures forall u :: u in S + {v} ==> Rank(u, w) <= Rank(v, w)
  {
  }

  lemma {:induction false} WriterStaysAhead(c: Cluster, a: Action, t: string, k: string, w: NodeId)
    requires Genuine(c, t, k) && KeepsAt(a, w, t, k) && FaithfulRestart(a, t, k)
    requires OneWriter(Next(c, a).log, t, k, w) && WriterIsAhead(c, t, k, w)
    ensures WriterIsAhead(Next(c, a), t, k, w)
  {
    var c' := Next(c, a);
    HistoryGrowth(c, a);
    if c'.log == c.log {
      WriterKeepsItsVersion(c, a, t, k, w);
    } else {
      var last := c'.log[|c.log|];
      WritesGrow(c.log, last, t, k);
      if last.table == t && last.key == k {
        assert last.node == w;
        EffectIsExact(c, a, w, t, k);
        SequenceGrows(Writes(c.log, t, k), w, last.base, last.result);
      } else {
        WriterKeepsItsVersion(c, a, t, k, w);
      }
    }
  }

  lemma {:induction false} ReachKeepsWriterAhead(run: seq<Action>, t: string, k: string, w: NodeId)
    requires Keeps(run, w, t, k) && FaithfulRestarts(run, t, k) && OneWriter(Reach(run).log, t, k, w)
    ensures WriterIsAhead(Reach(run), t, k, w)
  {
    if run != [] {
      var front, a := run[..|run| - 1], run[|run| - 1];
      HistoryGrowth(Reach(front), a);
      assert Reach(front).log <= Reach(run).log;
      ReachKeepsWriterAhead(front, t, k, w);
      ReachIsGenuine(front, t, k);
      WriterStaysAhead(Reach(front), a, t, k, w);
    }
  }

  /** Every replica, whatever is deleted there and however often it restarts, holds a version from
      the writer's history, never one ahead of the writer's. */
  lemma {:induction false} ReplicasFollowTheWriter(run: seq<Action>, t: string, k: string, w: NodeId, n: NodeId)
    requires Keeps(run, w, t, k) && FaithfulRestarts(run, t, k) && OneWriter(Reach(run).log, t, k, w)
    requires Held(Reach(run), n, t, k).Some?
    ensures var c := Reach(run);
      var v := Held(c, n, t, k).value;
      && v in Writes(c.log, t, k)
      && Held(c, w, t, k).Some?
      && Rank(v, w) <= Rank(Held(c, w, t, k).value, w)
  {
    ReachIsGenuine(run, t, k);
    ReachKeepsWriterAhead(run, t, k, w);
  }

  /** A replica that has received the writer's latest version since a record of the key was last
      taken away from it holds exactly that version. */
  lemma {:induction false} ReceivingIsHolding(
      run: seq<Action>, i: nat, t: string, k: string, w: NodeId, n: NodeId)
    requires Keeps(run, w, t, k) && FaithfulRestarts(run, t, k) && OneWriter(Reach(run).log, t, k, w)
    requires i <= |run| && Keeps(run[i..], n, t, k)
    requires Held(Reach(run), w, t, k).Some? && Held(Reach(run), w, t, k).value in Known(run, i, n, t, k)
    ensures Held(Reach(run), n, t, k) == Held(Reach(run), w, t, k)
  {
    var S, latest := Writes(Reach(run).log, t, k), Held(Reach(run), w, t, k).value;
    ReachKeepsWriterAhead(run, t, k, w);
    KnownIsWritten(run, i, n, t, k);
    forall v | v in Known(run, i, n, t, k) && v != latest
      ensures Wins(latest, v)
    {
      WinsByRank(S, w, latest, v);
    }
    ChampionIsHeld(run, i, n, t, k, latest);
  }

  lemma {:induction false} RankNeverFalls(c: Cluster, a: Action, t: string, k: string, w: NodeId, n: NodeId)
    requires Genuine(c, t, k) && KeepsAt(a, n, t, k) && FaithfulRestart(a, t, k) && WriterIsAhead(c, t, k, w)
    requires Held(c, n, t, k).Some?
    ensures Held(Next(c, a), n, t, k).Some?
    ensures Rank(Held(c, n, t, k).value, w) <= Rank(Held(Next(c, a), n, t, k).value, w)
  {
    EffectIsExact(c, a, n, t, k);
    EffectIsGenuine(c, a, n, t, k);
    if EffectOn(c, a, n, t, k).Received? {
      WinsByRank(Writes(c.log, t, k), w, EffectOn(c, a, n, t, k).v, Held(c, n, t, k).value);
    }
  }

  /** As long as no record of the key is taken away from it, a replica's version only moves forward
      in the writer's history. */
  lemma {:induction false} ReplicasOnlyMoveForward(run: seq<Action>, m: nat, t: string, k: string, w: NodeId, n: NodeId)
    requires Keeps(run, w, t, k) && FaithfulRestarts(run, t, k) && OneWriter(Reach(run).log, t, k, w)
    requires m <= |run| && Keeps(run[m..], n, t, k)
    requires Held(Reach(run[..m]), n, t, k).Some?
    ensures Held(Reach(run), n, t, k).Some?
    ensures Rank(Held(Reach(run[..m]), n, t, k).value, w) <= Rank(Held(Reach(run), n, t, k).value, w)
  {
    if m == |run| {
      assert run[..m] == run;
    } else {
      var front, a := run[..|run| - 1], run[|run| - 1];
      assert front[..m] == run[..m] && front[m..] == run[m..][..|run| - 1 - m];
      assert run[m..][|run| - 1 - m] == a;
      HistoryGrowth(Reach(front), a);
      assert Reach(front).log <= Reach(run).log;
      ReplicasOnlyMoveForward(front, m, t, k, w, n);
      ReachIsGenuine(front, t, k);
      ReachKeepsWriterAhead(front, t, k, w);
      RankNeverFalls(Reach(front), a, t, k, w, n);
    }
  }
}
