/** The draw as generate-assignments.js and run-draw.js compose it: locked pairs,
    the two free pools, the bounded re-draw, and `[...lockedPairs, ...newAssignments]`.
    The theorems here say what the composition achieves when names are unique. */
module Draw {
  import opened Common
  import opened Locking
  import opened Shuffle
  import opened Matcher

  /** `availableGivers`: participants not in `lockedGivers`, in list order. */
  function FreeGivers(participants: seq<Name>, st: LockState): seq<Name> {
    Without(participants, st.givers)
  }

  /** `availableReceivers`: participants not in `lockedReceivers`, in list order. */
  function FreeReceivers(participants: seq<Name>, st: LockState): seq<Name> {
    Without(participants, st.receivers)
  }

  /** The re-assignment phase run on the free pools. The oracle gives draws for pools as
      long as the whole participant list, which covers both free pools. */
  function Redraw(participants: seq<Name>, st: LockState, oracle: seq<AttemptDraws>): MatchOutcome
    requires ValidOracle(oracle, |participants|, |participants|)
  {
    WithoutShorter(participants, st.givers);
    WithoutShorter(participants, st.receivers);
    MatchSpec(FreeGivers(participants, st), FreeReceivers(participants, st), oracle)
  }

  /** The lock state the locking loop ends in for the locked pairs `e`. */
  function StateOf(e: seq<Pair>): LockState {
    LockState(e, GiverSet(e), ReceiverSet(e))
  }

  /** Locked pairs as the locking phase produces them: both names on the list, the
      receiver defined. */
  predicate WellLocked(participants: seq<Name>, e: seq<Pair>) {
    forall k :: 0 <= k < |e| ==> e[k].giver in participants && e[k].receiver.Some? && e[k].receiver.value in participants
  }

  /** The receiver names of well-locked pairs. */
  function ReceiverNames(e: seq<Pair>): (r: seq<Name>)
    requires forall k :: 0 <= k < |e| ==> e[k].receiver.Some?
    ensures |r| == |e| && forall k :: 0 <= k < |e| ==> r[k] == e[k].receiver.value
  {
    seq(|e|, k requires 0 <= k < |e| => e[k].receiver.value)
  }

  /** The locked givers' set has one name per locked pair exactly when no giver is locked twice. */
  lemma GiverSetSize(e: seq<Pair>)
    ensures GiverSet(e) == set x | x in Givers(e)
    ensures Distinct(Givers(e)) <==> |GiverSet(e)| == |e|
  {
    var gs := Givers(e);
    forall x | x in GiverSet(e) ensures x in gs {
      var p :| p in e && p.giver == x;
      var k :| 0 <= k < |e| && e[k] == p;
      assert gs[k] == x;
    }
    forall x | x in gs ensures x in GiverSet(e) {
      var k :| 0 <= k < |gs| && gs[k] == x;
      assert e[k] in e;
    }
    if Distinct(gs) {
      DistinctCardinality(gs);
    } else {
      RepeatCardinality(gs);
    }
  }

  /** The locked receivers' set has one name per locked pair exactly when no receiver is
      locked twice. */
  lemma ReceiverSetSize(e: seq<Pair>)
    requires forall k :: 0 <= k < |e| ==> e[k].receiver.Some?
    ensures ReceiverSet(e) == set x | x in ReceiverNames(e)
    ensures Receivers(e) == Defined(ReceiverNames(e))
    ensures Distinct(Receivers(e)) <==> |ReceiverSet(e)| == |e|
  {
    var rs := ReceiverNames(e);
    forall x | x in ReceiverSet(e) ensures x in rs {
      var p :| p in e && p.receiver.Some? && p.receiver.value == x;
      var k :| 0 <= k < |e| && e[k] == p;
      assert rs[k] == x;
    }
    forall x | x in rs ensures x in ReceiverSet(e) {
      var k :| 0 <= k < |rs| && rs[k] == x;
      assert e[k] in e;
    }
    assert Distinct(Receivers(e)) <==> Distinct(rs) by {
      forall i, j | 0 <= i < j < |e| ensures Receivers(e)[i] == Receivers(e)[j] <==> rs[i] == rs[j] {
      }
    }
    if Distinct(rs) {
      DistinctCardinality(rs);
    } else {
      RepeatCardinality(rs);
    }
  }

  /** A list without repeats, all of whose names are on the participant list, and the
      participants filtered by it make up the participant list between them. */
  lemma SplitByExclusion(participants: seq<Name>, s: seq<Name>)
    requires Distinct(participants) && Distinct(s)
    requires forall k :: 0 <= k < |s| ==> s[k] in participants
    ensures multiset(s) + multiset(Without(participants, set x | x in s)) == multiset(participants)
  {
    var excluded := set x | x in s;
    DistinctMultiplicity(participants);
    DistinctMultiplicity(s);
    forall y ensures (multiset(s) + multiset(Without(participants, excluded)))[y] == multiset(participants)[y] {
      WithoutCount(participants, excluded, y);
      if y in s {
        assert y in participants;
      }
    }
  }

  /** `Defined` distributes over concatenation. */
  lemma DefinedAppend(a: seq<Name>, b: seq<Name>)
    ensures Defined(a + b) == Defined(a) + Defined(b)
  {
  }

  /** Both free pools have as many names as the participant list minus the locked pairs
      when no name is locked twice on either side. */
  lemma PoolSizes(participants: seq<Name>, e: seq<Pair>)
    requires Distinct(participants) && WellLocked(participants, e)
    ensures |FreeGivers(participants, StateOf(e))| == |participants| - |GiverSet(e)|
    ensures |FreeReceivers(participants, StateOf(e))| == |participants| - |ReceiverSet(e)|
  {
    WithoutLength(participants, GiverSet(e));
    WithoutLength(participants, ReceiverSet(e));
  }

  /** The pairs of the successful attempt of a successful re-draw. */
  lemma RedrawAttempt(participants: seq<Name>, st: LockState, oracle: seq<AttemptDraws>) returns (d: AttemptDraws)
    requires ValidOracle(oracle, |participants|, |participants|)
    requires Redraw(participants, st, oracle).success
    ensures ValidDraws(d.givers, |FreeGivers(participants, st)|) && ValidDraws(d.receivers, |FreeReceivers(participants, st)|)
    ensures AttemptSpec(FreeGivers(participants, st), FreeReceivers(participants, st), d)
            == Some(Redraw(participants, st, oracle).assignments)
  {
    var gs := FreeGivers(participants, st);
    var rs := FreeReceivers(participants, st);
    WithoutShorter(participants, st.givers);
    WithoutShorter(participants, st.receivers);
    MatchOutcomeBounds(gs, rs, oracle);
    d := oracle[MatchSpec(gs, rs, oracle).attempts - 1];
  }

  /** Locked givers followed by a rearrangement of the free givers: every participant once. */
  lemma AllGiveOnce(participants: seq<Name>, e: seq<Pair>, drawn: seq<Pair>)
    requires Distinct(participants) && WellLocked(participants, e) && Distinct(Givers(e))
    requires multiset(Givers(drawn)) == multiset(FreeGivers(participants, StateOf(e)))
    ensures multiset(Givers(e + drawn)) == multiset(participants)
  {
    GiverSetSize(e);
    assert Givers(e + drawn) == Givers(e) + Givers(drawn);
    SplitByExclusion(participants, Givers(e));
  }

  /** Locked receivers followed by a rearrangement of the free receivers: every participant
      once. */
  lemma AllReceiveOnce(participants: seq<Name>, e: seq<Pair>, drawn: seq<Pair>)
    requires Distinct(participants) && WellLocked(participants, e) && Distinct(Receivers(e))
    requires multiset(Receivers(drawn)) == multiset(Defined(FreeReceivers(participants, StateOf(e))))
    ensures multiset(Receivers(e + drawn)) == multiset(Defined(participants))
  {
    var names := ReceiverNames(e);
    var rs := FreeReceivers(participants, StateOf(e));
    ReceiverSetSize(e);
    assert Distinct(names) by {
      forall i, j | 0 <= i < j < |names| ensures names[i] != names[j] {
        assert Receivers(e)[i] != Receivers(e)[j];
      }
    }
    assert Receivers(e + drawn) == Receivers(e) + Receivers(drawn);
    SplitByExclusion(participants, names);
    DefinedAppend(names, rs);
    DefinedPermutation(names + rs, participants);
  }

  /** The central promise of the draw: with unique participant names and no name locked
      twice on either side, a successful draw has every participant give exactly once and
      receive exactly once, locked pairs first, and no newly drawn pair is a self-pair. */
  lemma PerfectAssignment(participants: seq<Name>, e: seq<Pair>, oracle: seq<AttemptDraws>)
    requires Distinct(participants) && WellLocked(participants, e)
    requires Distinct(Givers(e)) && Distinct(Receivers(e))
    requires ValidOracle(oracle, |participants|, |participants|)
    requires Redraw(participants, StateOf(e), oracle).success
    ensures var drawn := Redraw(participants, StateOf(e), oracle).assignments;
      && multiset(Givers(e + drawn)) == multiset(participants)
      && multiset(Receivers(e + drawn)) == multiset(Defined(participants))
      && NoSelfPairs(drawn)
  {
    var st := StateOf(e);
    var gs := FreeGivers(participants, st);
    var rs := FreeReceivers(participants, st);
    var drawn := Redraw(participants, st, oracle).assignments;
    var d := RedrawAttempt(participants, st, oracle);
    GiverSetSize(e);
    ReceiverSetSize(e);
    PoolSizes(participants, e);
    WithoutDistinct(participants, st.receivers);
    AttemptGivers(gs, rs, d);
    AttemptNoSelfPairs(gs, rs, d);
    AttemptReceivers(gs, rs, d);
    AllGiveOnce(participants, e, drawn);
    AllReceiveOnce(participants, e, drawn);
  }

  /** A giver locked to two receivers (the conflict check does not look at givers) leaves
      the receiver pool one name short, so a successful re-draw hands some free giver an
      `undefined` receiver. */
  lemma DoubleLockedGiverLeavesReceiverUndefined(participants: seq<Name>, e: seq<Pair>, oracle: seq<AttemptDraws>)
    requires Distinct(participants) && WellLocked(participants, e)
    requires !Distinct(Givers(e)) && Distinct(Receivers(e))
    requires ValidOracle(oracle, |participants|, |participants|)
    requires Redraw(participants, StateOf(e), oracle).success
    ensures None in Receivers(Redraw(participants, StateOf(e), oracle).assignments)
    ensures None in Receivers(e + Redraw(participants, StateOf(e), oracle).assignments)
  {
    var st := StateOf(e);
    var d := RedrawAttempt(participants, st, oracle);
    GiverSetSize(e);
    ReceiverSetSize(e);
    PoolSizes(participants, e);
    CardinalityBound(Givers(e));
    AttemptShortPool(FreeGivers(participants, st), FreeReceivers(participants, st), d);
    UndefinedKept(e, Redraw(participants, st, oracle).assignments);
  }

  /** An `undefined` receiver among the drawn pairs stays in the final list. */
  lemma UndefinedKept(e: seq<Pair>, drawn: seq<Pair>)
    requires None in Receivers(drawn)
    ensures None in Receivers(e + drawn)
  {
    var k :| 0 <= k < |drawn| && Receivers(drawn)[k] == None;
    assert Receivers(e + drawn)[|e| + k] == None;
  }
}
