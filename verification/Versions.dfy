/** Versioned records: payload, vector clock, wall-clock timestamp and owner, and the
    "dominates" test that compares two records by their vector clocks. */
module Versions {

  type NodeId = string
  type User = string

  /** A JSON field value; the engine stores and copies these without looking inside. */
  datatype Json =
    | Null
    | Bool(b: bool)
    | Number(digits: string)
    | String(s: string)
    | Array(items: seq<Json>)
    | Object(members: map<string, Json>)

  type Fields = map<string, Json>
  type Clock = map<NodeId, nat>

  /** The contents of one record: what is cloned into messages, tables and snapshots. */
  datatype Version = Version(value: Fields, clock: Clock, timestamp: nat, owner: User)

  /** The counter a clock holds for a node; a node the clock does not mention counts as 0. */
  function At(c: Clock, n: NodeId): nat {
    if n in c then c[n] else 0
  }

  /** One more write by node `n`. */
  function Bump(c: Clock, n: NodeId): Clock {
    c[n := At(c, n) + 1]
  }

  function Created(value: Fields, owner: User, node: NodeId, now: nat): Version {
    Version(value, map[node := 1], now, owner)
  }

  function Updated(v: Version, value: Fields, node: NodeId, now: nat): Version {
    v.(value := value, clock := Bump(v.clock, node), timestamp := now)
  }

  /** Updated fields take their new value, the others keep theirs, and no other field appears; the
      write is counted for its node only, and stamped with its time. */
  function Patched(v: Version, updates: Fields, node: NodeId, now: nat): (r: Version)
    ensures forall f :: f in updates ==> f in r.value && r.value[f] == updates[f]
    ensures forall f :: f in v.value && f !in updates ==> f in r.value && r.value[f] == v.value[f]
    ensures forall f :: f in r.value ==> f in v.value || f in updates
    ensures r.owner == v.owner && r.timestamp == now
    ensures At(r.clock, node) == At(v.clock, node) + 1
    ensures forall n :: n != node ==> At(r.clock, n) == At(v.clock, n)
  {
    v.(value := v.value + updates, clock := Bump(v.clock, node), timestamp := now)
  }

  /** `after` counts one write by `node` more than `before`, and lists no further node. */
  ghost predicate OneMoreWrite(before: Clock, after: Clock, node: NodeId) {
    && after.Keys == before.Keys + {node}
    && after[node] == (if node in before then before[node] + 1 else 1)
    && forall n :: n in before && n != node ==> after[n] == before[n]
  }

  /** `r` has exactly the fields of `base` and `updates`, the latter with their new values. */
  ghost predicate IsOverlay(base: Fields, updates: Fields, r: Fields) {
    && r.Keys == base.Keys + updates.Keys
    && forall f :: f in r ==> r[f] == if f in updates then updates[f] else base[f]
  }

  /** Every counter of `a` is at most the one in `b`. */
  ghost predicate Within(a: Clock, b: Clock) {
    forall n :: At(a, n) <= At(b, n)
  }

  /** The strict pointwise order on clocks. */
  ghost predicate Precedes(a: Clock, b: Clock) {
    Within(a, b) && exists n :: At(a, n) < At(b, n)
  }

  ghost predicate Dominates(a: Version, b: Version) {
    Precedes(b.clock, a.clock)
  }

  /** Dominance is a strict partial order. */
  lemma {:induction false} DominanceIsStrictOrder(a: Version, b: Version, c: Version)
    ensures !Dominates(a, a)
    ensures Dominates(a, b) ==> !Dominates(b, a)
    ensures Dominates(a, b) && Dominates(b, c) ==> Dominates(a, c)
  {
  }

  /** Dominance, read off the entries of the two clocks: what `b` has counted `a` has counted too,
      and `a` has counted more for some node. */
  lemma {:induction false} DominanceByCounters(a: Version, b: Version)
    ensures Dominates(a, b) <==>
      && (forall n :: n in b.clock && b.clock[n] > 0 ==> n in a.clock && a.clock[n] >= b.clock[n])
      && (exists n :: n in a.clock && a.clock[n] > 0 && (n in b.clock ==> a.clock[n] > b.clock[n]))
  {
    var x, y := b.clock, a.clock;
    if forall n :: n in x && x[n] > 0 ==> n in y && y[n] >= x[n] {
      assert Within(x, y);
    }
    if n :| n in y && y[n] > 0 && (n in x ==> y[n] > x[n]) {
      assert At(x, n) < At(y, n);
    }
    if Dominates(a, b) {
      forall n | n in x && x[n] > 0
        ensures n in y && y[n] >= x[n]
      {
        assert At(x, n) <= At(y, n);
      }
      var n :| At(x, n) < At(y, n);
      assert n in y && y[n] > 0 && (n in x ==> y[n] > x[n]);
    }
  }

  /** A write by any node on top of `v` produces a version that dominates `v`. */
  lemma {:induction false} BumpDominates(v: Version, w: Version, node: NodeId)
    requires w.clock == Bump(v.clock, node)
    ensures Dominates(w, v)
  {
  }

  /** The mutable record cell of the engine. Timestamps come from the caller, who read the clock. */
  class VersionedValue {
    var value: Fields
    var vectorClock: Clock
    var timestamp: nat
    var owner: User

    ghost function Contents(): Version
      reads this
    {
      Version(value, vectorClock, timestamp, owner)
    }

    constructor New(value: Fields, owner: User, node: NodeId, now: nat)
      ensures Contents() == Created(value, owner, node, now)
      ensures Contents() == Version(value, map[node := 1], now, owner)
    {
      this.value, this.timestamp, this.owner := value, now, owner;
      this.vectorClock := map[node := 1];
    }

    /** The cell a table hands out for one of its records. */
    constructor Of(v: Version)
      ensures Contents() == v
    {
      value, vectorClock, timestamp, owner := v.value, v.clock, v.timestamp, v.owner;
    }

    method Clone() returns (v: Version)
      ensures v == Contents()
    {
      v := Version(value, vectorClock, timestamp, owner);
    }

    method Update(value: Fields, node: NodeId, now: nat)
      modifies this
      ensures Contents() == Updated(old(Contents()), value, node, now)
      ensures this.value == value && timestamp == now && owner == old(owner)
      ensures OneMoreWrite(old(vectorClock), vectorClock, node)
    {
      this.value := value;
      CountWrite(node);
      timestamp := now;
    }

    /** The updates are inserted one at a time, in any order. */
    method Patch(updates: Fields, node: NodeId, now: nat)
      modifies this
      ensures Contents() == Patched(old(Contents()), updates, node, now)
      ensures IsOverlay(old(value), updates, value) && timestamp == now && owner == old(owner)
      ensures OneMoreWrite(old(vectorClock), vectorClock, node)
    {
      var todo := updates.Keys;
      while todo != {}
        invariant todo <= updates.Keys
        invariant value.Keys == old(value).Keys + (updates.Keys - todo)
        invariant forall f :: f in value ==>
          value[f] == if f in updates.Keys - todo then updates[f] else old(value)[f]
        invariant vectorClock == old(vectorClock) && timestamp == old(timestamp) && owner == old(owner)
      {
        var f :| f in todo;
        value := value[f := updates[f]];
        todo := todo - {f};
      }
      assert value == old(value) + updates;
      CountWrite(node);
      timestamp := now;
    }

    method CountWrite(node: NodeId)
      modifies this`vectorClock
      ensures vectorClock == Bump(old(vectorClock), node)
      ensures OneMoreWrite(old(vectorClock), vectorClock, node)
    {
      if node !in vectorClock {
        vectorClock := vectorClock[node := 0];
      }
      vectorClock := vectorClock[node := vectorClock[node] + 1];
    }

  }

  /** The two-loop test: the first loop may return early, both visit their map in any order.
      It decides the strict pointwise order with absent counters read as 0. */
  method DecideDominates(self: Version, other: Version) returns (r: bool)
    ensures r <==> Dominates(self, other)
  {
    var strictlyNewer := false;
    var todo := other.clock.Keys;
    while todo != {}
      invariant todo <= other.clock.Keys
      invariant forall n :: n in other.clock && n !in todo ==> other.clock[n] <= At(self.clock, n)
      invariant strictlyNewer <==> exists n :: n in other.clock && n !in todo && other.clock[n] < At(self.clock, n)
    {
      var n :| n in todo;
      todo := todo - {n};
      var selfV := if n in self.clock then self.clock[n] else 0;
      if selfV < other.clock[n] {
        assert At(self.clock, n) < At(other.clock, n);
        return false;
      } else if selfV > other.clock[n] {
        strictlyNewer := true;
      }
    }
    assert Within(other.clock, self.clock);
    todo := self.clock.Keys;
    while todo != {}
      invariant todo <= self.clock.Keys
      invariant strictlyNewer <==>
        || (exists n :: n in other.clock && other.clock[n] < At(self.clock, n))
        || (exists n :: n in self.clock && n !in todo && n !in other.clock && self.clock[n] > 0)
    {
      var n :| n in todo;
      todo := todo - {n};
      if n !in other.clock && self.clock[n] > 0 {
        strictlyNewer := true;
      }
    }
    r := strictlyNewer;
    assert r ==> exists n :: At(other.clock, n) < At(self.clock, n) by {
      if n :| n in other.clock && other.clock[n] < At(self.clock, n) {
        assert At(other.clock, n) < At(self.clock, n);
      } else if n :| n in self.clock && n !in other.clock && self.clock[n] > 0 {
        assert At(other.clock, n) < At(self.clock, n);
      }
    }
  }
}
