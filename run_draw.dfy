/** The run-draw.js handler after its file reads and environment checks: build the
    email map, lock purchased pairs without a conflict check, re-draw the free pools,
    and queue one email per final assignment whose giver has an address. */
module RunDraw {
  import opened Common
  import opened Csv
  import opened Locking
  import opened Matcher
  import opened Draw
  import opened Emails

  /** The final assignments and the emails queued for them; the reported count of sent
      emails is `|emails|`. */
  datatype DrawReport = DrawReport(assignments: seq<Pair>, emails: seq<Email>)

  /** The assignments as the email loop destructures them. */
  function ItemsOf(ps: seq<Pair>): (r: seq<Item>)
    ensures |r| == |ps| && forall k :: 0 <= k < |ps| ==> r[k] == Item(Some(ps[k].giver), ps[k].receiver)
  {
    seq(|ps|, k requires 0 <= k < |ps| => Item(Some(ps[k].giver), ps[k].receiver))
  }

  /** What the handler reports, or the error its 500 response carries. */
  function Run(participants: seq<Name>, subs: seq<Record>, oracle: seq<AttemptDraws>): Result<DrawReport, Error>
    requires ValidOracle(oracle, |participants|, |participants|)
  {
    match LockAll(participants, Declarations(subs), false)
    case Err(e) => Err(e)
    case Ok(st) =>
      var out := Redraw(participants, st, oracle);
      if !out.success then Err(NoValidAssignment)
      else
        var final := st.pairs + out.assignments;
        var emailMap := EmailMapOf(subs);
        Ok(DrawReport(final, Queue(ItemsOf(final), g => DrawEmail(emailMap, subs, g))))
  }

  /** The body of the handler's `try` block, given the parsed participant list and
      submissions and the random draws. */
  method Handle(allParticipants: seq<Name>, submissions: seq<Record>, oracle: seq<AttemptDraws>)
    returns (r: Result<DrawReport, Error>)
    requires ValidOracle(oracle, |allParticipants|, |allParticipants|)
    ensures r == Run(allParticipants, submissions, oracle)
  {
    var emailMap := BuildEmailMap(submissions);
    var locked := Lock(allParticipants, submissions, false);
    if locked.Err? {
      return Err(locked.error);
    }
    var st := locked.value;
    var availableGivers := Without(allParticipants, st.givers);
    var availableReceivers := Without(allParticipants, st.receivers);
    WithoutShorter(allParticipants, st.givers);
    WithoutShorter(allParticipants, st.receivers);
    var success, newAssignments, attempts := Match(availableGivers, availableReceivers, oracle);
    if !success {
      return Err(NoValidAssignment);
    }
    var finalAssignments := st.pairs + newAssignments;
    var emails := QueueEmails(ItemsOf(finalAssignments), g => DrawEmail(emailMap, submissions, g));
    r := Ok(DrawReport(finalAssignments, emails));
  }

  /** The handler without its loops: it fails only when the re-draw fails; otherwise the
      assignments are the eligible declarations' pairs followed by the drawn pairs, and
      the number of emails never exceeds the number of assignments. */
  lemma RunOutcome(participants: seq<Name>, subs: seq<Record>, oracle: seq<AttemptDraws>)
    requires ValidOracle(oracle, |participants|, |participants|)
    ensures var e := Eligible(participants, Declarations(subs));
      var out := Redraw(participants, StateOf(e), oracle);
      && (Run(participants, subs, oracle).Ok? <==> out.success)
      && (!out.success ==> Run(participants, subs, oracle) == Err(NoValidAssignment))
      && (out.success ==>
            Run(participants, subs, oracle).value.assignments == e + out.assignments
            && |Run(participants, subs, oracle).value.emails| <= |e + out.assignments|)
  {
    var e := Eligible(participants, Declarations(subs));
    LockingWithoutCheckNeverFails(participants, Declarations(subs));
    var out := Redraw(participants, StateOf(e), oracle);
    if out.success {
      var emailMap := EmailMapOf(subs);
      QueueCount(ItemsOf(e + out.assignments), g => DrawEmail(emailMap, subs, g));
    }
  }

  /** Two givers who both bought for the same receiver are both locked, so that receiver
      appears twice in the final assignments. */
  lemma DoubleReceiverKept(participants: seq<Name>, subs: seq<Record>, oracle: seq<AttemptDraws>)
    requires ValidOracle(oracle, |participants|, |participants|)
    requires !Distinct(Receivers(Eligible(participants, Declarations(subs))))
    requires Run(participants, subs, oracle).Ok?
    ensures !Distinct(Receivers(Run(participants, subs, oracle).value.assignments))
  {
    var e := Eligible(participants, Declarations(subs));
    RunOutcome(participants, subs, oracle);
    var drawn := Redraw(participants, StateOf(e), oracle).assignments;
    var i, j :| 0 <= i < j < |e| && Receivers(e)[i] == Receivers(e)[j];
    assert Receivers(e + drawn)[i] == Receivers(e + drawn)[j];
  }

  /** Each queued email goes to a final assignment's giver at the address run-draw.js
      finds for them: the last submission's email, or the first submission's when that
      one is empty. */
  lemma EmailsMatchAssignments(participants: seq<Name>, subs: seq<Record>, oracle: seq<AttemptDraws>, m: Email)
    requires ValidOracle(oracle, |participants|, |participants|)
    requires Run(participants, subs, oracle).Ok?
    ensures var rep := Run(participants, subs, oracle).value;
      m in rep.emails
      <==> exists k :: 0 <= k < |rep.assignments|
             && Truthy(DrawEmail(EmailMapOf(subs), subs, Some(rep.assignments[k].giver)))
             && m == Email(DrawEmail(EmailMapOf(subs), subs, Some(rep.assignments[k].giver)).value,
                           Some(rep.assignments[k].giver), rep.assignments[k].receiver)
  {
    var rep := Run(participants, subs, oracle).value;
    var emailMap := EmailMapOf(subs);
    var items := ItemsOf(rep.assignments);
    LockingWithoutCheckNeverFails(participants, Declarations(subs));
    QueueMembers(items, g => DrawEmail(emailMap, subs, g), m);
  }
}
