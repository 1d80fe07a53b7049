/** The read handler's choice of the latest version and the repairs it sends to stale replicas. */
module ReadRepair {
  import opened Options
  import opened Sequences
  import opened Versions
  import opened Merge
  import opened Stores

  /** A replica's answer to a read; replicas that fail to answer are simply absent. */
  datatype Response = Response(node: NodeId, content: Option<Version>)

  /** The versions among the answers, in answer order. */
  function Present(rs: seq<Response>): seq<Version> {
    if rs == [] then []
    else if rs[0].content.Some? then [rs[0].content.value] + Present(rs[1..])
    else Present(rs[1..])
  }

  ghost predicate NeedsRepair(content: Option<Version>, latest: Version) {
    match content
    case None => true
    case Some(v) => !Dominates(v, latest) && v.timestamp < latest.timestamp
  }

  /** The key is missing, or the version there does not dominate `latest` and is strictly earlier. */
  ghost predicate MustCatchUp(content: Option<Version>, latest: Version) {
    content.Some? ==> !Dominates(content.value, latest) && content.value.timestamp < latest.timestamp
  }

  /** What a responder holds once the repair sent to it, if any, has been delivered, and nothing
      else has reached it since it answered. */
  ghost function AfterRepair(content: Option<Version>, latest: Version): Option<Version> {
    if NeedsRepair(content, latest) then Some(MergedOption(content, latest)) else content
  }

  ghost function RepairAll(rs: seq<Response>, latest: Version): seq<Response> {
    seq(|rs|, i requires 0 <= i < |rs| => rs[i].(content := AfterRepair(rs[i].content, latest)))
  }

  /** Resolve a read: the latest version, or nothing when no replica has the key. */
  method ResolveLatest(rs: seq<Response>) returns (latest: Option<Version>)
    ensures latest.None? <==> Present(rs) == []
    ensures latest.Some? ==> latest.value == MaxBy(Present(rs))
  {
    var valid := ValidResults(rs);
    if valid == [] {
      return None;
    }
    var m := Maximum(valid);
    latest := Some(m);
  }

  method ValidResults(rs: seq<Response>) returns (valid: seq<Version>)
    ensures valid == Present(rs)
  {
    valid := [];
    for i := 0 to |rs|
      invariant valid == Present(rs[..i])
    {
      PresentAppend(rs[..i], rs[i]);
      assert rs[..i + 1] == rs[..i] + [rs[i]];
      if rs[i].content.Some? {
        valid := valid + [rs[i].content.value];
      }
    }
    assert rs[..|rs|] == rs;
  }

  /** The `max_by` loop. */
  method Maximum(valid: seq<Version>) returns (m: Version)
    requires valid != []
    ensures m == MaxBy(valid)
  {
    m := valid[0];
    for i := 1 to |valid|
      invariant m == MaxBy(valid[..i])
    {
      assert valid[..i + 1][..i] == valid[..i];
      var greater := IncomingWins(m, valid[i]);
      m := if greater then m else valid[i];
    }
    assert valid[..|valid|] == valid;
  }

  /** The nodes a read sends its result to. */
  method RepairTargets(rs: seq<Response>, latest: Version) returns (targets: seq<NodeId>)
    ensures forall n :: n in targets <==>
      exists i :: 0 <= i < |rs| && rs[i].node == n && NeedsRepair(rs[i].content, latest)
    ensures forall n :: n in targets <==>
      exists i :: 0 <= i < |rs| && rs[i].node == n && MustCatchUp(rs[i].content, latest)
  {
    targets := [];
    for i := 0 to |rs|
      invariant forall n :: n in targets <==>
        exists j :: 0 <= j < i && rs[j].node == n && NeedsRepair(rs[j].content, latest)
    {
      var needed := true;
      if rs[i].content.Some? {
        var newer := DecideDominates(rs[i].content.value, latest);
        needed := !newer && rs[i].content.value.timestamp < latest.timestamp;
      }
      if needed {
        targets := targets + [rs[i].node];
      }
    }
  }

  /** Of the answers, a read picks the one that no earlier one beats and that beats every later one, if
      there is such a one: of versions that tie, the last to answer. "Beats" is by dominance, and by
      the later time where neither dominates. */
  lemma {:induction false} LastUnbeatenIsPicked(s: seq<Version>, i: nat)
    requires i < |s|
    requires forall j :: 0 <= j < i ==>
      !Dominates(s[j], s[i]) && (Dominates(s[i], s[j]) || s[j].timestamp <= s[i].timestamp)
    requires forall j :: i < j < |s| ==>
      Dominates(s[i], s[j]) || (!Dominates(s[j], s[i]) && s[i].timestamp > s[j].timestamp)
    ensures MaxBy(s) == s[i]
  {
    var n := |s| - 1;
    if n > 0 {
      if i == n {
        MaxByIsMember(s[..n]);
        var j :| 0 <= j < n && s[..n][j] == MaxBy(s[..n]);
        assert s[j] == MaxBy(s[..n]);
      } else {
        LastUnbeatenIsPicked(s[..n], i);
        assert i < n < |s|;
      }
    }
  }

  lemma {:induction false} PresentAppend(rs: seq<Response>, r: Response)
    ensures Present(rs + [r]) == Present(rs) + (if r.content.Some? then [r.content.value] else [])
  {
    if rs == [] {
      assert rs + [r] == [r];
    } else {
      assert (rs + [r])[1..] == rs[1..] + [r];
      PresentAppend(rs[1..], r);
    }
  }

  lemma {:induction false} PresentMembers(rs: seq<Response>)
    ensures forall v :: v in Present(rs) <==> exists i :: 0 <= i < |rs| && rs[i].content == Some(v)
  {
    if rs != [] {
      PresentMembers(rs[1..]);
      forall v
        ensures v in Present(rs) <==> exists i :: 0 <= i < |rs| && rs[i].content == Some(v)
      {
        if i :| 0 <= i < |rs| && rs[i].content == Some(v) {
          if i > 0 { assert rs[1..][i - 1].content == Some(v); }
        }
        if v in Present(rs[1..]) {
          var j :| 0 <= j < |rs[1..]| && rs[1..][j].content == Some(v);
          assert rs[j + 1].content == Some(v);
        }
      }
    }
  }

  /** A repair delivered to a replica that has not changed since it answered takes effect. */
  lemma {:induction false} RepairTakesEffect(content: Option<Version>, latest: Version)
    requires NeedsRepair(content, latest)
    ensures AfterRepair(content, latest) == Some(latest)
  {
  }

  /** `m` is strictly later than every other version of `S`, and none of them dominates it. */
  ghost predicate LatestOf(m: Version, S: set<Version>) {
    m in S && forall v :: v in S && v != m ==> v.timestamp < m.timestamp && !Dominates(v, m)
  }

  /** Every responder holds `latest`. */
  ghost predicate AllHold(rs: seq<Response>, latest: Version) {
    forall i :: 0 <= i < |rs| ==> rs[i].content == Some(latest)
  }

  lemma {:induction false} LatestIsChampion(m: Version, S: set<Version>)
    requires LatestOf(m, S)
    ensures Champion(m, S)
  {
  }

  /** For any responses at all, one round of repairs brings every responder to the version the read
      picked exactly when some version is strictly later than all others and dominated by none. */
  lemma {:induction false} RepairsConvergeIffLatest(rs: seq<Response>)
    requires Present(rs) != []
    ensures var picked := MaxBy(Present(rs));
      AllHold(RepairAll(rs, picked), picked) <==> exists m :: LatestOf(m, Members(Present(rs)))
  {
    var s, picked := Present(rs), MaxBy(Present(rs));
    PresentMembers(rs);
    if m :| LatestOf(m, Members(s)) {
      LatestIsChampion(m, Members(s));
      MaxByFindsChampion(s, m);
      RepairsReachAll(rs, m);
    }
    if AllHold(RepairAll(rs, picked), picked) {
      MaxByIsMember(s);
      forall v | v in Members(s) && v != picked
        ensures v.timestamp < picked.timestamp && !Dominates(v, picked)
      {
        var i :| 0 <= i < |rs| && rs[i].content == Some(v);
        assert RepairAll(rs, picked)[i].content == AfterRepair(Some(v), picked);
      }
      assert LatestOf(picked, Members(s));
    }
  }

  lemma {:induction false} RepairsReachAll(rs: seq<Response>, m: Version)
    requires LatestOf(m, Members(Present(rs)))
    ensures AllHold(RepairAll(rs, m), m)
  {
    PresentMembers(rs);
    forall i | 0 <= i < |rs|
      ensures RepairAll(rs, m)[i].content == Some(m)
    {
      if rs[i].content.Some? {
        assert rs[i].content.value in Present(rs);
      }
      if NeedsRepair(rs[i].content, m) {
        RepairTakesEffect(rs[i].content, m);
      }
    }
  }

  /** Some other version among the responses carries a timestamp at least as late as `m`'s. */
  ghost predicate Outdated(m: Version, S: set<Version>) {
    exists v :: v in S && v != m && v.timestamp >= m.timestamp
  }

  /** If one version beats all others, repairs succeed exactly when it is strictly the latest: a
      version it dominates survives as soon as clock skew or a shared millisecond hides it. */
  lemma {:induction false} ChampionIsSpreadIffLatest(rs: seq<Response>, m: Version)
    requires Champion(m, Members(Present(rs)))
    ensures Present(rs) != [] && MaxBy(Present(rs)) == m
    ensures AllHold(RepairAll(rs, m), m) <==> !Outdated(m, Members(Present(rs)))
  {
    var s := Present(rs);
    assert Members<Version>([]) == {};
    MaxByFindsChampion(s, m);
    RepairsConvergeIffLatest(rs);
    forall v | v in Members(s) && v != m
      ensures !Dominates(v, m)
    {
      WinsIsAsymmetric(m, v);
    }
    if n :| LatestOf(n, Members(s)) {
      LatestIsChampion(n, Members(s));
      WinsIsAsymmetric(m, n);
    } else if !Outdated(m, Members(s)) {
      assert LatestOf(m, Members(s));
    }
  }

  /** On well-stamped responses the only obstacle is a version with the winner's very timestamp. */
  lemma {:induction false} RepairsConvergeIffNoTie(rs: seq<Response>)
    requires Present(rs) != [] && WellStamped(Members(Present(rs)))
    ensures var picked := MaxBy(Present(rs));
      AllHold(RepairAll(rs, picked), picked) <==>
      forall v :: v in Present(rs) && v != picked ==> v.timestamp != picked.timestamp
  {
    var S := Members(Present(rs));
    assert Present(rs)[0] in S;
    WellStampedHasChampion(S);
    var m :| Champion(m, S);
    ChampionIsSpreadIffLatest(rs, m);
    forall v | v in S && v != m
      ensures v.timestamp <= m.timestamp
    {
      assert Wins(m, v);
    }
    assert forall v :: v in Present(rs) <==> v in S;
  }

  /** Once every responder holds the same version, a read picks it and repairs nobody. */
  lemma {:induction false} SecondReadIsQuiet(rs: seq<Response>, latest: Version)
    requires rs != [] && AllHold(rs, latest)
    ensures Present(rs) != [] && MaxBy(Present(rs)) == latest
    ensures forall i :: 0 <= i < |rs| ==> !NeedsRepair(rs[i].content, latest)
  {
    PresentMembers(rs);
    assert rs[0].content == Some(latest);
    MaxByIsMember(Present(rs));
  }

  /** Every responder holds `v`, a read picks it, and the read sends no repair. */
  ghost predicate Settled(rs: seq<Response>, v: Version) {
    && AllHold(rs, v)
    && Present(rs) != [] && MaxBy(Present(rs)) == v
    && forall i :: 0 <= i < |rs| ==> !NeedsRepair(rs[i].content, v)
  }

  /** The full round of reading, delivering every repair and reading again settles the responders
      exactly when some version is strictly later than all others and dominated by none. */
  lemma {:induction false} RoundSettlesIffLatest(rs: seq<Response>)
    requires Present(rs) != []
    ensures var picked := MaxBy(Present(rs));
      Settled(RepairAll(rs, picked), picked) <==> exists m :: LatestOf(m, Members(Present(rs)))
  {
    var picked := MaxBy(Present(rs));
    RepairsConvergeIffLatest(rs);
    if AllHold(RepairAll(rs, picked), picked) {
      SecondReadIsQuiet(RepairAll(rs, picked), picked);
    }
  }

  // ---------- any number of reads ----------

  /** The responders answer in some order. */
  ghost predicate AnswersOf(rs: seq<Response>, answers: seq<Response>) {
    multiset(answers) == multiset(rs)
  }

  /** One read, answered by all responders in some order, with every repair it sends delivered. */
  ghost predicate ReadOnce(rs: seq<Response>, rs': seq<Response>) {
    exists answers ::
      AnswersOf(rs, answers) && Present(answers) != [] && rs' == RepairAll(rs, MaxBy(Present(answers)))
  }

  /** What the responders hold before and after each of a number of reads. */
  ghost predicate History(rs: seq<Response>, states: seq<seq<Response>>) {
    && states != [] && states[0] == rs
    && forall i :: 0 < i < |states| ==> ReadOnce(states[i - 1], states[i])
  }

  ghost predicate Agreed(rs: seq<Response>) {
    exists v :: AllHold(rs, v)
  }

  /** After `n` reads all responders hold the same version, whatever the orders of the answers. */
  ghost predicate AgreeAfter(rs: seq<Response>, n: nat) {
    forall states :: History(rs, states) && |states| == n + 1 ==> Agreed(states[n])
  }

  /** Some number of reads is sure to make the responders agree exactly when one version is strictly
      later than all others and dominated by none; and then the first read does, for good. */
  lemma {:induction false} ReadsSettleIffLatest(rs: seq<Response>)
    requires Present(rs) != []
    ensures (exists n :: AgreeAfter(rs, n)) <==> exists m :: LatestOf(m, Members(Present(rs)))
    ensures forall m, states, i :: LatestOf(m, Members(Present(rs))) && History(rs, states) && 0 < i < |states| ==>
              AllHold(states[i], m)
  {
    forall m, states, i | LatestOf(m, Members(Present(rs))) && History(rs, states) && 0 < i < |states|
      ensures AllHold(states[i], m)
    {
      ReadsSpreadLatest(rs, m, states, i);
    }
    if m :| LatestOf(m, Members(Present(rs))) {
      forall states | History(rs, states) && |states| == 2
        ensures Agreed(states[1])
      {
        assert AllHold(states[1], m);
      }
      assert AgreeAfter(rs, 1);
    } else {
      var m, d := NoLatestIsStuck(rs);
      forall n: nat
        ensures !AgreeAfter(rs, n)
      {
        var states, d' := StuckForever(rs, m, d, n);
        StuckDisagree(states[n], m, d');
      }
    }
  }

  lemma {:induction false} SameAnswers(rs: seq<Response>, answers: seq<Response>)
    requires AnswersOf(rs, answers)
    ensures Members(Present(answers)) == Members(Present(rs))
  {
    forall r ensures r in answers <==> r in rs {
      assert r in answers <==> r in multiset(answers);
    }
    PresentMembers(rs);
    PresentMembers(answers);
    forall v
      ensures v in Present(answers) <==> v in Present(rs)
    {
      if i :| 0 <= i < |answers| && answers[i].content == Some(v) { assert answers[i] in rs; }
      if i :| 0 <= i < |rs| && rs[i].content == Some(v) { assert rs[i] in answers; }
    }
  }

  lemma {:induction false} ReadSpreadsLatest(rs: seq<Response>, m: Version, rs': seq<Response>)
    requires LatestOf(m, Members(Present(rs))) && ReadOnce(rs, rs')
    ensures AllHold(rs', m) && LatestOf(m, Members(Present(rs')))
  {
    var answers :|
      AnswersOf(rs, answers) && Present(answers) != [] && rs' == RepairAll(rs, MaxBy(Present(answers)));
    SameAnswers(rs, answers);
    LatestIsChampion(m, Members(Present(rs)));
    MaxByFindsChampion(Present(answers), m);
    RepairsReachAll(rs, m);
    PresentMembers(rs);
    PresentMembers(rs');
    assert m in Present(rs);
    var i :| 0 <= i < |rs| && rs[i].content == Some(m);
    assert rs'[i].content == Some(m);
  }

  lemma {:induction false} ReadsSpreadLatest(rs: seq<Response>, m: Version, states: seq<seq<Response>>, i: nat)
    requires LatestOf(m, Members(Present(rs))) && History(rs, states) && i < |states|
    ensures LatestOf(m, Members(Present(states[i]))) && (i > 0 ==> AllHold(states[i], m))
    decreases i
  {
    if i > 0 {
      ReadsSpreadLatest(rs, m, states, i - 1);
      ReadSpreadsLatest(states[i - 1], m, states[i]);
    }
  }

  /** No version is later than `m`, and `d` is as late as it or dominates it. */
  ghost predicate Stuck(rs: seq<Response>, m: Version, d: Version) {
    var s := Present(rs);
    && m in s && d in s && d != m
    && (forall v :: v in s ==> v.timestamp <= m.timestamp)
    && (d.timestamp == m.timestamp || Dominates(d, m))
  }

  lemma {:induction false} StuckDisagree(rs: seq<Response>, m: Version, d: Version)
    requires Stuck(rs, m, d)
    ensures !Agreed(rs)
  {
    PresentMembers(rs);
    var i :| 0 <= i < |rs| && rs[i].content == Some(m);
    var j :| 0 <= j < |rs| && rs[j].content == Some(d);
  }

  lemma {:induction false} LatestStamp(s: seq<Version>) returns (m: Version)
    requires s != []
    ensures m in s && forall v :: v in s ==> v.timestamp <= m.timestamp
  {
    m := s[0];
    if |s| > 1 {
      var rest := LatestStamp(s[1..]);
      if rest.timestamp > m.timestamp { m := rest; }
      assert s == [s[0]] + s[1..];
    }
  }

  lemma {:induction false} NoLatestIsStuck(rs: seq<Response>) returns (m: Version, d: Version)
    requires Present(rs) != [] && forall v :: !LatestOf(v, Members(Present(rs)))
    ensures Stuck(rs, m, d)
  {
    m := LatestStamp(Present(rs));
    assert !LatestOf(m, Members(Present(rs)));
    d :| d in Members(Present(rs)) && d != m && !(d.timestamp < m.timestamp && !Dominates(d, m));
  }

  /** Answers that end with `m` and then `d` make a read pick `d` or another version that dominates
      `m`, unless `d` is as late as `m`. */
  lemma {:induction false} PickAtEnd(s: seq<Version>, m: Version, d: Version)
    requires Dominates(d, m) && forall v :: v in s ==> v.timestamp <= m.timestamp
    ensures Dominates(MaxBy(s + [m] + [d]), m)
  {
    assert (s + [m] + [d])[..|s| + 1] == s + [m];
    DominanceIsStrictOrder(d, m, d);
    if s == [] {
      assert s + [m] == [m];
    } else {
      assert (s + [m])[..|s|] == s;
      MaxByIsMember(s);
    }
  }

  /** The responders can answer with any two of them last. */
  lemma {:induction false} TwoLast(rs: seq<Response>, i: nat, j: nat) returns (others: seq<Response>)
    requires i < |rs| && j < |rs| && i != j
    ensures AnswersOf(rs, others + [rs[i]] + [rs[j]])
  {
    var lo, hi := if i < j then i else j, if i < j then j else i;
    others := rs[..lo] + rs[lo + 1..hi] + rs[hi + 1..];
    assert rs == rs[..lo] + [rs[lo]] + rs[lo + 1..hi] + [rs[hi]] + rs[hi + 1..];
    SameAnswersRegrouped(rs[..lo], rs[lo], rs[lo + 1..hi], rs[hi], rs[hi + 1..]);
  }

  lemma {:induction false} SameAnswersRegrouped(
      a: seq<Response>, x: Response, b: seq<Response>, y: Response, c: seq<Response>)
    ensures AnswersOf(a + [x] + b + [y] + c, a + b + c + [x] + [y])
    ensures AnswersOf(a + [x] + b + [y] + c, a + b + c + [y] + [x])
  {
  }

  lemma {:induction false} SomeRead(rs: seq<Response>, m: Version, d: Version) returns (picked: Version)
    requires Stuck(rs, m, d)
    ensures picked in Present(rs) && ReadOnce(rs, RepairAll(rs, picked))
    ensures Dominates(d, m) ==> Dominates(picked, m)
  {
    var others, answers := SomeOrder(rs, m, d);
    SameAnswers(rs, answers);
    assert forall v :: v in Present(answers) <==> v in Members(Present(rs));
    picked := MaxBy(Present(answers));
    MaxByIsMember(Present(answers));
    if Dominates(d, m) {
      forall v | v in Present(others) ensures v.timestamp <= m.timestamp {
        assert v in Present(answers);
      }
      PickAtEnd(Present(others), m, d);
    }
  }

  lemma {:induction false} SomeOrder(rs: seq<Response>, m: Version, d: Version)
    returns (others: seq<Response>, answers: seq<Response>)
    requires m in Present(rs) && d in Present(rs) && m != d
    ensures AnswersOf(rs, answers) && Present(answers) == Present(others) + [m] + [d]
  {
    PresentMembers(rs);
    var i :| 0 <= i < |rs| && rs[i].content == Some(m);
    var j :| 0 <= j < |rs| && rs[j].content == Some(d);
    others := TwoLast(rs, i, j);
    answers := others + [rs[i]] + [rs[j]];
    EndsWith(others, rs[i], rs[j]);
  }

  lemma {:induction false} EndsWith(others: seq<Response>, a: Response, b: Response)
    requires a.content.Some? && b.content.Some?
    ensures Present(others + [a] + [b]) == Present(others) + [a.content.value] + [b.content.value]
  {
    PresentAppend(others, a);
    PresentAppend(others + [a], b);
  }

  /** From a stuck state some order of the answers leads to a stuck state. */
  lemma {:induction false} StuckStep(rs: seq<Response>, m: Version, d: Version)
    returns (rs': seq<Response>, d': Version)
    requires Stuck(rs, m, d)
    ensures ReadOnce(rs, rs') && Stuck(rs', m, d')
  {
    var picked := SomeRead(rs, m, d);
    rs' := RepairAll(rs, picked);
    if d.timestamp == m.timestamp {
      d' := d;
    } else {
      d' := picked;
      DominanceIsStrictOrder(m, m, m);
    }
    LateSurvive(rs, picked, m);
    LateSurvive(rs, picked, d');
    OnlyOldVersions(rs, picked);
  }

  /** A version that is not earlier than the repair stays where it is. */
  lemma {:induction false} LateSurvive(rs: seq<Response>, picked: Version, v: Version)
    requires v in Present(rs) && v.timestamp >= picked.timestamp
    ensures v in Present(RepairAll(rs, picked))
  {
    PresentMembers(rs);
    PresentMembers(RepairAll(rs, picked));
    var i :| 0 <= i < |rs| && rs[i].content == Some(v);
    assert RepairAll(rs, picked)[i].content == Some(v);
  }

  lemma {:induction false} OnlyOldVersions(rs: seq<Response>, picked: Version)
    requires picked in Present(rs)
    ensures forall v :: v in Present(RepairAll(rs, picked)) ==> v in Present(rs)
  {
    PresentMembers(rs);
    PresentMembers(RepairAll(rs, picked));
    forall v | v in Present(RepairAll(rs, picked))
      ensures v in Present(rs)
    {
      var i :| 0 <= i < |rs| && RepairAll(rs, picked)[i].content == Some(v);
      if NeedsRepair(rs[i].content, picked) { RepairTakesEffect(rs[i].content, picked); }
    }
  }

  lemma {:induction false} StuckForever(rs: seq<Response>, m: Version, d: Version, n: nat)
    returns (states: seq<seq<Response>>, d': Version)
    requires Stuck(rs, m, d)
    ensures History(rs, states) && |states| == n + 1 && Stuck(states[n], m, d')
    decreases n
  {
    if n == 0 {
      states, d' := [rs], d;
    } else {
      var before, e := StuckForever(rs, m, d, n - 1);
      var last, e' := StuckStep(before[n - 1], m, e);
      OneMoreRead(rs, before, last);
      states, d' := before + [last], e';
    }
  }

  lemma {:induction false} OneMoreRead(rs: seq<Response>, states: seq<seq<Response>>, last: seq<Response>)
    requires History(rs, states) && ReadOnce(states[|states| - 1], last)
    ensures History(rs, states + [last])
  {
    var longer := states + [last];
    forall i | 0 < i < |longer|
      ensures ReadOnce(longer[i - 1], longer[i])
    {
      if i < |states| { assert ReadOnce(states[i - 1], states[i]); }
    }
  }

  /** A stale replica that reads never repair: both versions carry the same millisecond. */
  lemma {:induction false} TieIsNeverRepaired()
    ensures var stale := Version(map[], map["A" := 1], 5, "u");
      var newer := Version(map[], map["A" := 1, "B" := 1], 5, "u");
      var rs := [Response("A", Some(stale)), Response("B", Some(newer))];
      && WellStamped(Members(Present(rs)))
      && MaxBy(Present(rs)) == newer && Dominates(newer, stale)
      && RepairAll(rs, newer) == rs
  {
    var stale := Version(map[], map["A" := 1], 5, "u");
    var newer := Version(map[], map["A" := 1, "B" := 1], 5, "u");
    var rs := [Response("A", Some(stale)), Response("B", Some(newer))];
    TwoResponses(stale, newer);
    assert newer.clock == Bump(stale.clock, "B");
    BumpDominates(stale, newer, "B");
    MaxByFindsChampion(Present(rs), newer);
    assert RepairAll(rs, newer)[0] == rs[0] && RepairAll(rs, newer)[1] == rs[1];
  }

  /** Skewed clocks hide a stale replica the same way: its version is dominated but carries a later
      time than the winner. */
  lemma {:induction false} SkewIsNeverRepaired()
    ensures var stale := Version(map[], map["A" := 1], 10, "u");
      var newer := Version(map[], map["A" := 1, "B" := 1], 5, "u");
      var rs := [Response("A", Some(stale)), Response("B", Some(newer))];
      && Champion(newer, Members(Present(rs)))
      && MaxBy(Present(rs)) == newer && Dominates(newer, stale)
      && RepairAll(rs, newer) == rs
  {
    var stale := Version(map[], map["A" := 1], 10, "u");
    var newer := Version(map[], map["A" := 1, "B" := 1], 5, "u");
    var rs := [Response("A", Some(stale)), Response("B", Some(newer))];
    TwoResponses(stale, newer);
    assert newer.clock == Bump(stale.clock, "B");
    BumpDominates(stale, newer, "B");
    MaxByFindsChampion(Present(rs), newer);
    assert RepairAll(rs, newer)[0] == rs[0] && RepairAll(rs, newer)[1] == rs[1];
  }

  lemma {:induction false} TwoResponses(x: Version, y: Version)
    ensures Present([Response("A", Some(x)), Response("B", Some(y))]) == [x, y]
  {
    var rs := [Response("A", Some(x)), Response("B", Some(y))];
    assert rs[1..] == [Response("B", Some(y))] && Present(rs[1..][1..]) == [];
    assert Present(rs[1..]) == [y];
  }
}
