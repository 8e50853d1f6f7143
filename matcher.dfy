/** The re-assignment phase shared by generate-assignments.js and run-draw.js:
    up to 100 attempts, each shuffling copies of both free pools and walking
    them left to right; a self-pair at index `i` is repaired by swapping
    `receivers[i]` and `receivers[i + 1]`, and a self-pair at the last index
    abandons the attempt. */
module Matcher {
  import opened Common
  import opened Shuffle

  /** The bound of the `while (!success && attempts < 100)` loop. */
  const MaxAttempts: nat := 100

  /** The random draws of one attempt: one sequence per shuffled pool. */
  datatype AttemptDraws = AttemptDraws(givers: seq<nat>, receivers: seq<nat>)

  /** Draws for every attempt the loop may make, for pools of sizes `n` and `m`. */
  predicate ValidOracle(oracle: seq<AttemptDraws>, n: nat, m: nat) {
    |oracle| == MaxAttempts
    && forall k :: 0 <= k < |oracle| ==> ValidDraws(oracle[k].givers, n) && ValidDraws(oracle[k].receivers, m)
  }

  /** The receivers array as the walk over `n` givers reads it: a read past the end of the
      array is `undefined`. */
  function Padded(receivers: seq<Name>, n: nat): (r: seq<Option<Name>>)
    ensures |r| == n
    ensures forall k :: 0 <= k < n ==> r[k] == if k < |receivers| then Some(receivers[k]) else None
  {
    seq(n, k requires 0 <= k < n => if k < |receivers| then Some(receivers[k]) else None)
  }

  /** The walk from index `i`, with the pairs pushed so far in `acc`; `None` when the
      attempt is abandoned. */
  function Walk(gs: seq<Name>, rs: seq<Option<Name>>, i: nat, acc: seq<Pair>): Option<seq<Pair>>
    requires |rs| == |gs| && i <= |gs|
    decreases |gs| - i
  {
    if i == |gs| then Some(acc)
    else if rs[i] == Some(gs[i]) then
      if i == |gs| - 1 then None
      else
        var rs' := Swap(rs, i, i + 1);
        Walk(gs, rs', i + 1, acc + [Pair(gs[i], rs'[i])])
    else Walk(gs, rs, i + 1, acc + [Pair(gs[i], rs[i])])
  }

  /** One attempt: the pairs it produces, or `None` when `possible` ends false. */
  function AttemptSpec(givers: seq<Name>, receivers: seq<Name>, d: AttemptDraws): Option<seq<Pair>>
    requires ValidDraws(d.givers, |givers|) && ValidDraws(d.receivers, |receivers|)
  {
    var gs := Shuffled(givers, d.givers);
    Walk(gs, Padded(Shuffled(receivers, d.receivers), |gs|), 0, [])
  }

  /** How the retry loop ends. */
  datatype MatchOutcome = MatchOutcome(success: bool, assignments: seq<Pair>, attempts: nat)

  /** The outcome of every attempt the loop may make, in order. */
  function Outcomes(givers: seq<Name>, receivers: seq<Name>, oracle: seq<AttemptDraws>): (r: seq<Option<seq<Pair>>>)
    requires ValidOracle(oracle, |givers|, |receivers|)
    ensures |r| == MaxAttempts
    ensures forall k :: 0 <= k < MaxAttempts ==> r[k] == AttemptSpec(givers, receivers, oracle[k])
  {
    seq(MaxAttempts, k requires 0 <= k < MaxAttempts => AttemptSpec(givers, receivers, oracle[k]))
  }

  /** The retry loop from attempt number `k + 1` on, given each attempt's outcome. */
  function Retry(outcomes: seq<Option<seq<Pair>>>, k: nat): MatchOutcome
    requires k <= |outcomes|
    decreases |outcomes| - k
  {
    if k == |outcomes| then MatchOutcome(false, [], k)
    else
      match outcomes[k]
      case Some(ps) => MatchOutcome(true, ps, k + 1)
      case None => Retry(outcomes, k + 1)
  }

  /** How the whole retry loop ends. */
  function MatchSpec(givers: seq<Name>, receivers: seq<Name>, oracle: seq<AttemptDraws>): MatchOutcome
    requires ValidOracle(oracle, |givers|, |receivers|)
  {
    Retry(Outcomes(givers, receivers, oracle), 0)
  }

  /** The body of the retry loop: shuffle copies of both pools and walk them. */
  method Attempt(availableGivers: seq<Name>, availableReceivers: seq<Name>, d: AttemptDraws)
    returns (possible: bool, assignments: seq<Pair>)
    requires ValidDraws(d.givers, |availableGivers|) && ValidDraws(d.receivers, |availableReceivers|)
    ensures AttemptSpec(availableGivers, availableReceivers, d) == if possible then Some(assignments) else None
  {
    var givers := new Name[|availableGivers|](k requires 0 <= k < |availableGivers| => availableGivers[k]);
    assert givers[..] == availableGivers;
    Shuffle.Shuffle(givers, d.givers);
    var shuffled := new Name[|availableReceivers|](k requires 0 <= k < |availableReceivers| => availableReceivers[k]);
    assert shuffled[..] == availableReceivers;
    Shuffle.Shuffle(shuffled, d.receivers);
    var n := givers.Length;
    var padded := Padded(shuffled[..], n);
    var receivers := new Option<Name>[n](k requires 0 <= k < n => padded[k]);
    assert receivers[..] == padded;
    ghost var gs := givers[..];
    possible := true;
    assignments := [];
    var i := 0;
    while i < n
      invariant 0 <= i <= n && givers[..] == gs
      invariant AttemptSpec(availableGivers, availableReceivers, d) == Walk(gs, receivers[..], i, assignments)
    {
      var giver := givers[i];
      var receiver := receivers[i];
      if receiver == Some(giver) {
        if i == n - 1 {
          possible := false;
          break;
        }
        ghost var before := receivers[..];
        receivers[i], receivers[i + 1] := receivers[i + 1], receivers[i];
        assert receivers[..] == Swap(before, i, i + 1);
        receiver := receivers[i];
      }
      assignments := assignments + [Pair(giver, receiver)];
      i := i + 1;
    }
  }

  /** The retry loop: at most `MaxAttempts` attempts, stopping at the first success. */
  method Match(availableGivers: seq<Name>, availableReceivers: seq<Name>, oracle: seq<AttemptDraws>)
    returns (success: bool, newAssignments: seq<Pair>, attempts: nat)
    requires ValidOracle(oracle, |availableGivers|, |availableReceivers|)
    ensures MatchSpec(availableGivers, availableReceivers, oracle) == MatchOutcome(success, newAssignments, attempts)
  {
    ghost var outcomes := Outcomes(availableGivers, availableReceivers, oracle);
    newAssignments := [];
    success := false;
    attempts := 0;
    while !success && attempts < MaxAttempts
      invariant 0 <= attempts <= MaxAttempts
      invariant !success ==> newAssignments == []
      invariant MatchSpec(availableGivers, availableReceivers, oracle)
                == if success then MatchOutcome(true, newAssignments, attempts) else Retry(outcomes, attempts)
      decreases MaxAttempts - attempts, !success
    {
      var possible, assignments := Attempt(availableGivers, availableReceivers, oracle[attempts]);
      attempts := attempts + 1;
      if possible {
        newAssignments := newAssignments + assignments;
        success := true;
      }
    }
  }

  // ---------------------------------------------------------------------
  // The walk

  /** No pair gives to its own giver. */
  predicate NoSelfPairs(ps: seq<Pair>) {
    forall k :: 0 <= k < |ps| ==> ps[k].receiver != Some(ps[k].giver)
  }

  /** No defined receiver occurs twice from index `i` on (`undefined` may repeat). */
  predicate NoRepeatedReceiver(rs: seq<Option<Name>>, i: nat) {
    forall a, b :: i <= a < b < |rs| && rs[a].Some? ==> rs[a] != rs[b]
  }

  /** The walk pushes one pair per giver, in the givers' order. */
  lemma {:induction false} WalkGivers(gs: seq<Name>, rs: seq<Option<Name>>, i: nat, acc: seq<Pair>)
    requires |rs| == |gs| && i <= |gs|
    requires Walk(gs, rs, i, acc).Some?
    ensures Givers(Walk(gs, rs, i, acc).value) == Givers(acc) + gs[i..]
    decreases |gs| - i
  {
    if i == |gs| {
      assert gs[i..] == [];
    } else {
      var rs' := if rs[i] == Some(gs[i]) then Swap(rs, i, i + 1) else rs;
      var acc' := acc + [Pair(gs[i], rs'[i])];
      WalkGivers(gs, rs', i + 1, acc');
      assert Givers(acc') == Givers(acc) + [gs[i]];
      assert gs[i..] == [gs[i]] + gs[i + 1..];
    }
  }

  /** The walk only rearranges the receivers array: the receivers it pushes are the
      array's entries from `i` on, in some order. */
  lemma {:induction false} WalkReceivers(gs: seq<Name>, rs: seq<Option<Name>>, i: nat, acc: seq<Pair>)
    requires |rs| == |gs| && i <= |gs|
    requires Walk(gs, rs, i, acc).Some?
    ensures multiset(Receivers(Walk(gs, rs, i, acc).value)) == multiset(Receivers(acc)) + multiset(rs[i..])
    decreases |gs| - i
  {
    if i == |gs| {
      assert rs[i..] == [];
    } else {
      var rs' := if rs[i] == Some(gs[i]) then Swap(rs, i, i + 1) else rs;
      var acc' := acc + [Pair(gs[i], rs'[i])];
      WalkReceivers(gs, rs', i + 1, acc');
      assert Receivers(acc') == Receivers(acc) + [rs'[i]];
      assert rs'[i..] == [rs'[i]] + rs'[i + 1..];
      if rs[i] == Some(gs[i]) {
        assert rs'[i..] == Swap(rs[i..], 0, 1);
        SwapPermutes(rs[i..], 0, 1);
      }
    }
  }

  /** With no defined receiver twice in the array, no pushed pair is a self-pair: either
      the pair was not one, or the swap brought in a different receiver. */
  lemma {:induction false} WalkNoSelfPairs(gs: seq<Name>, rs: seq<Option<Name>>, i: nat, acc: seq<Pair>)
    requires |rs| == |gs| && i <= |gs|
    requires Walk(gs, rs, i, acc).Some?
    requires NoSelfPairs(acc) && NoRepeatedReceiver(rs, i)
    ensures NoSelfPairs(Walk(gs, rs, i, acc).value)
    decreases |gs| - i
  {
    if i < |gs| {
      var rs' := if rs[i] == Some(gs[i]) then Swap(rs, i, i + 1) else rs;
      var acc' := acc + [Pair(gs[i], rs'[i])];
      if rs[i] == Some(gs[i]) {
        assert rs'[i] == rs[i + 1] && rs[i + 1] != rs[i];
        forall a, b | i + 1 <= a < b < |rs'| && rs'[a].Some? ensures rs'[a] != rs'[b] {
          if a == i + 1 {
            assert rs'[a] == rs[i] && rs'[b] == rs[b];
          } else {
            assert rs'[a] == rs[a] && rs'[b] == rs[b];
          }
        }
      }
      assert NoSelfPairs(acc') by {
        forall k | 0 <= k < |acc'| ensures acc'[k].receiver != Some(acc'[k].giver) {
          if k < |acc| {
            assert acc'[k] == acc[k];
          }
        }
      }
      WalkNoSelfPairs(gs, rs', i + 1, acc');
    }
  }

  /** With distinct givers the swap at `i` cannot create a self-pair at `i + 1`: after it,
      `receivers[i + 1]` is `givers[i]`, which is not `givers[i + 1]`. */
  lemma SwapCannotSelfPairNext(gs: seq<Name>, rs: seq<Option<Name>>, i: nat)
    requires |rs| == |gs| && i + 1 < |gs| && Distinct(gs)
    requires rs[i] == Some(gs[i])
    ensures Swap(rs, i, i + 1)[i + 1] != Some(gs[i + 1])
  {
  }

  // ---------------------------------------------------------------------
  // One attempt

  /** Counting in the defined-receivers view of a list of names. */
  lemma {:induction false} DefinedCount(s: seq<Name>, o: Option<Name>)
    ensures multiset(Defined(s))[o] == if o.Some? then multiset(s)[o.value] else 0
  {
    if |s| > 0 {
      var t := s[..|s| - 1];
      assert s == t + [s[|s| - 1]];
      assert Defined(s) == Defined(t) + [Some(s[|s| - 1])];
      DefinedCount(t, o);
    }
  }

  /** Permuting names permutes their defined-receiver view. */
  lemma DefinedPermutation(s: seq<Name>, t: seq<Name>)
    requires multiset(s) == multiset(t)
    ensures multiset(Defined(s)) == multiset(Defined(t))
  {
    forall o ensures multiset(Defined(s))[o] == multiset(Defined(t))[o] {
      DefinedCount(s, o);
      DefinedCount(t, o);
    }
  }

  /** A successful attempt pairs every free giver exactly once, in the shuffled order. */
  lemma AttemptGivers(givers: seq<Name>, receivers: seq<Name>, d: AttemptDraws)
    requires ValidDraws(d.givers, |givers|) && ValidDraws(d.receivers, |receivers|)
    requires AttemptSpec(givers, receivers, d).Some?
    ensures Givers(AttemptSpec(givers, receivers, d).value) == Shuffled(givers, d.givers)
    ensures multiset(Givers(AttemptSpec(givers, receivers, d).value)) == multiset(givers)
  {
    var gs := Shuffled(givers, d.givers);
    WalkGivers(gs, Padded(Shuffled(receivers, d.receivers), |gs|), 0, []);
    assert gs[0..] == gs;
  }

  /** When the receiver pool has no repeats, a successful attempt has nobody draw themselves. */
  lemma AttemptNoSelfPairs(givers: seq<Name>, receivers: seq<Name>, d: AttemptDraws)
    requires ValidDraws(d.givers, |givers|) && ValidDraws(d.receivers, |receivers|)
    requires AttemptSpec(givers, receivers, d).Some?
    requires Distinct(receivers)
    ensures NoSelfPairs(AttemptSpec(givers, receivers, d).value)
  {
    var gs := Shuffled(givers, d.givers);
    var shuffled := Shuffled(receivers, d.receivers);
    var rs := Padded(shuffled, |gs|);
    PermutationKeepsDistinct(receivers, shuffled);
    forall a, b | 0 <= a < b < |rs| && rs[a].Some? ensures rs[a] != rs[b] {
      if b < |shuffled| {
        assert shuffled[a] != shuffled[b];
      }
    }
    WalkNoSelfPairs(gs, rs, 0, []);
  }

  /** When both pools have the same size, the receivers of a successful attempt are the
      receiver pool rearranged. */
  lemma AttemptReceivers(givers: seq<Name>, receivers: seq<Name>, d: AttemptDraws)
    requires ValidDraws(d.givers, |givers|) && ValidDraws(d.receivers, |receivers|)
    requires AttemptSpec(givers, receivers, d).Some?
    requires |receivers| == |givers|
    ensures multiset(Receivers(AttemptSpec(givers, receivers, d).value)) == multiset(Defined(receivers))
  {
    var gs := Shuffled(givers, d.givers);
    var shuffled := Shuffled(receivers, d.receivers);
    var rs := Padded(shuffled, |gs|);
    WalkReceivers(gs, rs, 0, []);
    assert rs[0..] == rs;
    assert rs == Defined(shuffled);
    DefinedPermutation(shuffled, receivers);
  }

  /** When the receiver pool is shorter than the giver pool, a successful attempt leaves some
      giver with an `undefined` receiver. */
  lemma AttemptShortPool(givers: seq<Name>, receivers: seq<Name>, d: AttemptDraws)
    requires ValidDraws(d.givers, |givers|) && ValidDraws(d.receivers, |receivers|)
    requires AttemptSpec(givers, receivers, d).Some?
    requires |receivers| < |givers|
    ensures None in Receivers(AttemptSpec(givers, receivers, d).value)
  {
    var gs := Shuffled(givers, d.givers);
    var rs := Padded(Shuffled(receivers, d.receivers), |gs|);
    WalkReceivers(gs, rs, 0, []);
    assert rs[0..] == rs;
    assert rs[|gs| - 1] == None;
    assert None in multiset(rs);
    var ps := AttemptSpec(givers, receivers, d).value;
    assert None in multiset(Receivers(ps));
  }

  /** When the only free giver is also the only free receiver, every attempt is abandoned. */
  lemma SoleSelfPairAlwaysFails(x: Name, d: AttemptDraws)
    requires ValidDraws(d.givers, 1) && ValidDraws(d.receivers, 1)
    ensures AttemptSpec([x], [x], d) == None
  {
    assert Shuffled([x], d.givers) == [x] && Shuffled([x], d.receivers) == [x];
  }

  /** Empty pools need no shuffle: the first attempt succeeds with no pairs. */
  lemma EmptyPoolsSucceedAtOnce(receivers: seq<Name>, oracle: seq<AttemptDraws>)
    requires ValidOracle(oracle, 0, |receivers|)
    ensures MatchSpec([], receivers, oracle) == MatchOutcome(true, [], 1)
  {
    assert Outcomes([], receivers, oracle)[0] == Some([]);
  }

  // ---------------------------------------------------------------------
  // The retry loop

  /** The retry loop from attempt `k + 1`: it stops at the first attempt that succeeds and
      returns its pairs; when none does it stops after the last attempt with no pairs. */
  lemma {:induction false} RetryOutcome(outcomes: seq<Option<seq<Pair>>>, k: nat)
    requires k <= |outcomes|
    ensures var out := Retry(outcomes, k);
      && k <= out.attempts <= |outcomes|
      && (out.success ==>
            k < out.attempts
            && outcomes[out.attempts - 1] == Some(out.assignments)
            && forall j :: k <= j < out.attempts - 1 ==> outcomes[j].None?)
      && (!out.success ==>
            out.attempts == |outcomes| && out.assignments == []
            && forall j :: k <= j < |outcomes| ==> outcomes[j].None?)
    decreases |outcomes| - k
  {
    if k < |outcomes| && outcomes[k].None? {
      RetryOutcome(outcomes, k + 1);
    }
  }

  /** The whole retry loop: between 1 and 100 attempts; on success the pairs are those of
      the last attempt and all earlier attempts were abandoned; on failure all 100 were. */
  lemma MatchOutcomeBounds(givers: seq<Name>, receivers: seq<Name>, oracle: seq<AttemptDraws>)
    requires ValidOracle(oracle, |givers|, |receivers|)
    ensures var out := MatchSpec(givers, receivers, oracle);
      var outcomes := Outcomes(givers, receivers, oracle);
      && 1 <= out.attempts <= MaxAttempts
      && (out.success ==>
            outcomes[out.attempts - 1] == Some(out.assignments)
            && forall j :: 0 <= j < out.attempts - 1 ==> outcomes[j].None?)
      && (!out.success ==>
            out.assignments == []
            && forall j :: 0 <= j < MaxAttempts ==> outcomes[j].None?)
  {
    RetryOutcome(Outcomes(givers, receivers, oracle), 0);
  }

  /** A lone free giver who is also the lone free receiver makes the loop give up after
      all 100 attempts. */
  lemma SoleSelfPairExhaustsAttempts(x: Name, oracle: seq<AttemptDraws>)
    requires ValidOracle(oracle, 1, 1)
    ensures MatchSpec([x], [x], oracle) == MatchOutcome(false, [], MaxAttempts)
  {
    var outcomes := Outcomes([x], [x], oracle);
    forall j | 0 <= j < MaxAttempts ensures outcomes[j] == None {
      SoleSelfPairAlwaysFails(x, oracle[j]);
    }
    RetryOutcome(outcomes, 0);
  }
}
