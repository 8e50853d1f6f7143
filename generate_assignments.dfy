/** The generate-assignments.js handler after its file reads: parse the submissions
    CSV, lock purchased pairs with the conflict check, re-draw the free pools and
    return `[...lockedPairs, ...newAssignments]`. */
module GenerateAssignments {
  import opened Common
  import opened Csv
  import opened Locking
  import opened Matcher
  import opened Draw

  /** The assignments the handler returns, or the error its 500 response reports. */
  function Run(participants: seq<Name>, csv: string, oracle: seq<AttemptDraws>): Result<seq<Pair>, Error>
    requires ValidOracle(oracle, |participants|, |participants|)
  {
    match ParseCsvSpec(csv)
    case Err(e) => Err(e)
    case Ok(subs) =>
      match LockAll(participants, Declarations(subs), true)
      case Err(e) => Err(e)
      case Ok(st) =>
        var out := Redraw(participants, st, oracle);
        if !out.success && |out.assignments| != |FreeGivers(participants, st)| then Err(NoValidAssignment)
        else Ok(st.pairs + out.assignments)
  }

  /** The body of the handler's `try` block, given the parsed participant list, the CSV
      text and the random draws. */
  method Handle(allParticipants: seq<Name>, csvData: string, oracle: seq<AttemptDraws>)
    returns (r: Result<seq<Pair>, Error>)
    requires ValidOracle(oracle, |allParticipants|, |allParticipants|)
    ensures r == Run(allParticipants, csvData, oracle)
  {
    var submissions := ParseCsv(csvData);
    if submissions.Err? {
      return Err(submissions.error);
    }
    var locked := Lock(allParticipants, submissions.value, true);
    if locked.Err? {
      return Err(locked.error);
    }
    var st := locked.value;
    var availableGivers := Without(allParticipants, st.givers);
    var availableReceivers := Without(allParticipants, st.receivers);
    WithoutShorter(allParticipants, st.givers);
    WithoutShorter(allParticipants, st.receivers);
    var success, newAssignments, attempts := Match(availableGivers, availableReceivers, oracle);
    assert Redraw(allParticipants, st, oracle) == MatchOutcome(success, newAssignments, attempts);
    if !success && |newAssignments| != |availableGivers| {
      return Err(NoValidAssignment);
    }
    r := Ok(st.pairs + newAssignments);
  }

  /** The second half of `!success && newAssignments.length !== availableGivers.length`
      adds nothing: a failed re-draw has no pairs, and an empty giver pool never fails. */
  lemma ExtraClauseRedundant(participants: seq<Name>, st: LockState, oracle: seq<AttemptDraws>)
    requires ValidOracle(oracle, |participants|, |participants|)
    ensures var out := Redraw(participants, st, oracle);
      !out.success ==> |out.assignments| != |FreeGivers(participants, st)|
  {
    var gs := FreeGivers(participants, st);
    var rs := FreeReceivers(participants, st);
    WithoutShorter(participants, st.givers);
    WithoutShorter(participants, st.receivers);
    MatchOutcomeBounds(gs, rs, oracle);
    if gs == [] {
      EmptyPoolsSucceedAtOnce(rs, oracle);
    }
  }

  /** The handler without its loops: a parse error, then a conflict when two eligible
      declarations name the same receiver, then the re-draw's failure; otherwise the
      eligible declarations' pairs followed by the drawn pairs. */
  lemma RunOutcome(participants: seq<Name>, csv: string, oracle: seq<AttemptDraws>)
    requires ValidOracle(oracle, |participants|, |participants|)
    ensures var parsed := ParseCsvSpec(csv);
      Run(participants, csv, oracle)
      == if parsed.Err? then Err(parsed.error)
         else
           var e := Eligible(participants, Declarations(parsed.value));
           if !Distinct(Receivers(e)) then Err(Conflict)
           else
             var out := Redraw(participants, StateOf(e), oracle);
             if !out.success then Err(NoValidAssignment) else Ok(e + out.assignments)
  {
    var parsed := ParseCsvSpec(csv);
    if parsed.Ok? {
      var e := Eligible(participants, Declarations(parsed.value));
      LockAllCharacterized(participants, Declarations(parsed.value), true);
      ExtraClauseRedundant(participants, StateOf(e), oracle);
    }
  }

  /** The locked pairs of a run, read off the parsed CSV. */
  function LockedPairs(participants: seq<Name>, csv: string): seq<Pair>
    requires ParseCsvSpec(csv).Ok?
  {
    Eligible(participants, Declarations(ParseCsvSpec(csv).value))
  }

  /** Eligible declarations are well locked. */
  lemma EligibleWellLocked(participants: seq<Name>, ds: seq<Declaration>)
    ensures WellLocked(participants, Eligible(participants, ds))
  {
    var e := Eligible(participants, ds);
    forall k | 0 <= k < |e|
      ensures e[k].giver in participants && e[k].receiver.Some? && e[k].receiver.value in participants
    {
      assert e[k] in e;
    }
  }

  /** A successful run returns the locked pairs followed by the pairs of a successful re-draw. */
  lemma RunValue(participants: seq<Name>, csv: string, oracle: seq<AttemptDraws>)
    requires ValidOracle(oracle, |participants|, |participants|)
    requires Run(participants, csv, oracle).Ok? && ParseCsvSpec(csv).Ok?
    ensures var e := LockedPairs(participants, csv);
      && WellLocked(participants, e) && Distinct(Receivers(e))
      && Redraw(participants, StateOf(e), oracle).success
      && Run(participants, csv, oracle).value == e + Redraw(participants, StateOf(e), oracle).assignments
  {
    RunOutcome(participants, csv, oracle);
    EligibleWellLocked(participants, Declarations(ParseCsvSpec(csv).value));
  }

  /** A successful run with unique participant names and no giver who bought for two
      receivers is a perfect Secret Santa: the locked pairs come first, every participant
      gives exactly once and receives exactly once, and no drawn pair is a self-pair. */
  lemma RunIsPerfect(participants: seq<Name>, csv: string, oracle: seq<AttemptDraws>)
    requires ValidOracle(oracle, |participants|, |participants|)
    requires Distinct(participants)
    requires Run(participants, csv, oracle).Ok?
    requires ParseCsvSpec(csv).Ok? && Distinct(Givers(LockedPairs(participants, csv)))
    ensures var final := Run(participants, csv, oracle).value;
      var e := LockedPairs(participants, csv);
      && |e| <= |final| && final[..|e|] == e
      && multiset(Givers(final)) == multiset(participants)
      && multiset(Receivers(final)) == multiset(Defined(participants))
      && NoSelfPairs(final[|e|..])
  {
    var e := LockedPairs(participants, csv);
    RunValue(participants, csv, oracle);
    PerfectAssignment(participants, e, oracle);
    var drawn := Redraw(participants, StateOf(e), oracle).assignments;
    assert (e + drawn)[..|e|] == e && (e + drawn)[|e|..] == drawn;
  }

  /** A giver who bought gifts for both of their receivers is locked twice; the receiver
      pool is then one short and some drawn pair has an `undefined` receiver. */
  lemma DoubleLockedGiverLeavesUndefined(participants: seq<Name>, csv: string, oracle: seq<AttemptDraws>)
    requires ValidOracle(oracle, |participants|, |participants|)
    requires Distinct(participants)
    requires Run(participants, csv, oracle).Ok?
    requires ParseCsvSpec(csv).Ok? && !Distinct(Givers(LockedPairs(participants, csv)))
    ensures None in Receivers(Run(participants, csv, oracle).value)
  {
    var e := LockedPairs(participants, csv);
    RunValue(participants, csv, oracle);
    DoubleLockedGiverLeavesReceiverUndefined(participants, e, oracle);
  }
}
