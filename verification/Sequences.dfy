/** Facts about sequences that the ring and the snapshot format share. */
module Sequences {

  function Members<T>(s: seq<T>): set<T> {
    set x | x in s
  }

  ghost predicate NoRepeats<T>(s: seq<T>) {
    forall i, j :: 0 <= i < j < |s| ==> s[i] != s[j]
  }

  function Filter<T>(s: seq<T>, keep: T -> bool): seq<T> {
    if s == [] then []
    else if keep(s[0]) then [s[0]] + Filter(s[1..], keep)
    else Filter(s[1..], keep)
  }

  lemma {:induction false} FilterAppend<T>(a: seq<T>, b: seq<T>, keep: T -> bool)
    ensures Filter(a + b, keep) == Filter(a, keep) + Filter(b, keep)
  {
    if a == [] {
      assert a + b == b;
    } else {
      assert (a + b)[1..] == a[1..] + b;
      FilterAppend(a[1..], b, keep);
    }
  }

  lemma {:induction false} FilterMembers<T>(s: seq<T>, keep: T -> bool)
    ensures forall x :: x in Filter(s, keep) <==> x in s && keep(x)
  {
    if s != [] {
      FilterMembers(s[1..], keep);
      assert s == [s[0]] + s[1..];
    }
  }

  lemma {:induction false} FilterAll<T>(s: seq<T>, keep: T -> bool)
    requires forall x :: x in s ==> keep(x)
    ensures Filter(s, keep) == s
  {
    if s != [] {
      FilterAll(s[1..], keep);
    }
  }

  lemma {:induction false} CardinalityOfNoRepeats<T>(s: seq<T>)
    requires NoRepeats(s)
    ensures |Members(s)| == |s|
  {
    if s != [] {
      CardinalityOfNoRepeats(s[1..]);
      assert Members(s) == {s[0]} + Members(s[1..]);
      assert s[0] !in s[1..];
    }
  }

  lemma {:induction false} CardinalityBound<T>(s: seq<T>)
    ensures |Members(s)| <= |s|
  {
    if s != [] {
      CardinalityBound(s[1..]);
      assert Members(s) == {s[0]} + Members(s[1..]);
    }
  }

  lemma {:induction false} Associative<T>(a: seq<T>, b: seq<T>, c: seq<T>)
    ensures (a + b) + c == a + (b + c) && a + [] == a
  {
  }

  lemma {:induction false} Enumerate<T>(S: set<T>) returns (s: seq<T>)
    ensures Members(s) == S
  {
    if S == {} {
      s := [];
    } else {
      var x :| x in S;
      var rest := Enumerate(S - {x});
      s := rest + [x];
      assert forall y :: y in s <==> y in Members(rest) || y == x;
    }
  }
}
