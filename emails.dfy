/** The giver-to-email dictionary (`emailMap` in run-draw.js and send-emails.js)
    and the choice of which assignments get an email. */
module Emails {
  import opened Common
  import opened Csv

  /** The property key JavaScript uses when a value indexes an object:
      `undefined` becomes the key "undefined". */
  function JsKey(o: Option<string>): string {
    match o
    case Some(s) => s
    case None => "undefined"
  }

  /** `emailMap`: property key to the stored value, which may itself be `undefined`. */
  type EmailMap = map<string, Option<string>>

  /** The key a submission writes: its `submitter-name`. */
  function NameKey(sub: Record): string {
    JsKey(Field(sub, "submitter-name"))
  }

  /** `emailMap` after `emailMap[sub['submitter-name']] = sub['submitter-email']` for each
      submission in order. */
  function EmailMapOf(subs: seq<Record>): EmailMap {
    if |subs| == 0 then map[]
    else
      var sub := subs[|subs| - 1];
      EmailMapOf(subs[..|subs| - 1])[NameKey(sub) := Field(sub, "submitter-email")]
  }

  /** `emailMap[key]`: `undefined` for a key never written. */
  function Lookup(m: EmailMap, key: string): (r: Option<string>)
    ensures key !in m ==> r == None
  {
    if key in m then m[key] else None
  }

  /** The `forEach` that fills `emailMap`. */
  method BuildEmailMap(submissions: seq<Record>) returns (emailMap: EmailMap)
    ensures emailMap == EmailMapOf(submissions)
  {
    emailMap := map[];
    for k := 0 to |submissions|
      invariant emailMap == EmailMapOf(submissions[..k])
    {
      var sub := submissions[k];
      assert submissions[..k + 1][..k] == submissions[..k];
      emailMap := emailMap[NameKey(sub) := Field(sub, "submitter-email")];
    }
    assert submissions[..|submissions|] == submissions;
  }

  /** Every submission writes its name's key, even a name that is not a participant, and
      nothing else is written. */
  lemma {:induction false} EmailMapKeys(subs: seq<Record>)
    ensures EmailMapOf(subs).Keys == set k | 0 <= k < |subs| :: NameKey(subs[k])
  {
    if |subs| > 0 {
      var init := subs[..|subs| - 1];
      EmailMapKeys(init);
      var keys := set k | 0 <= k < |subs| :: NameKey(subs[k]);
      var initKeys := set k | 0 <= k < |init| :: NameKey(init[k]);
      assert keys == initKeys + {NameKey(subs[|subs| - 1])} by {
        forall x | x in keys ensures x in initKeys + {NameKey(subs[|subs| - 1])} {
          var k :| 0 <= k < |subs| && NameKey(subs[k]) == x;
          if k < |init| {
            assert NameKey(init[k]) == x;
          }
        }
        forall x | x in initKeys ensures x in keys {
          var k :| 0 <= k < |init| && NameKey(init[k]) == x;
          assert NameKey(subs[k]) == x;
        }
      }
    }
  }

  /** Last write wins: a key holds the email of the last submission carrying that name. */
  lemma {:induction false} EmailMapLastWins(subs: seq<Record>, i: nat)
    requires i < |subs|
    requires forall j :: i < j < |subs| ==> NameKey(subs[j]) != NameKey(subs[i])
    ensures NameKey(subs[i]) in EmailMapOf(subs)
    ensures EmailMapOf(subs)[NameKey(subs[i])] == Field(subs[i], "submitter-email")
  {
    var init := subs[..|subs| - 1];
    if i < |subs| - 1 {
      assert forall j :: i < j < |init| ==> init[j] == subs[j];
      EmailMapLastWins(init, i);
      assert init[i] == subs[i];
    }
  }

  /** One entry of an assignments list, as the email loop destructures it:
      `const { giver, receiver } = pair`. */
  datatype Item = Item(giver: Option<string>, receiver: Option<string>)

  /** A queued email: its recipient and the giver/receiver names it announces. */
  datatype Email = Email(to: string, giver: Option<string>, receiver: Option<string>)

  /** The emails queued for `items`, in order: one for each item whose giver's email,
      as `emailOf` finds it, is truthy; the other givers are skipped. */
  function Queue(items: seq<Item>, emailOf: Option<string> -> Option<string>): seq<Email> {
    if |items| == 0 then []
    else
      var item := items[|items| - 1];
      var address := emailOf(item.giver);
      Queue(items[..|items| - 1], emailOf)
        + (if Truthy(address) then [Email(address.value, item.giver, item.receiver)] else [])
  }

  /** The email loop over the assignments (`for … of` in send-emails.js, `forEach` in
      run-draw.js), pushing one email per giver with a truthy address. */
  method QueueEmails(items: seq<Item>, emailOf: Option<string> -> Option<string>) returns (emails: seq<Email>)
    ensures emails == Queue(items, emailOf)
  {
    emails := [];
    for k := 0 to |items|
      invariant emails == Queue(items[..k], emailOf)
    {
      var giverEmail := emailOf(items[k].giver);
      assert items[..k + 1][..k] == items[..k];
      if Truthy(giverEmail) {
        emails := emails + [Email(giverEmail.value, items[k].giver, items[k].receiver)];
      }
    }
    assert items[..|items|] == items;
  }

  /** The queue of a concatenation is the concatenation of the queues: emails follow the
      order of the assignments. */
  lemma {:induction false} QueueAppend(a: seq<Item>, b: seq<Item>, emailOf: Option<string> -> Option<string>)
    ensures Queue(a + b, emailOf) == Queue(a, emailOf) + Queue(b, emailOf)
    decreases |b|
  {
    if |b| == 0 {
      assert a + b == a;
    } else {
      var init := b[..|b| - 1];
      assert (a + b)[..|a + b| - 1] == a + init;
      assert (a + b)[|a + b| - 1] == b[|b| - 1];
      QueueAppend(a, init, emailOf);
    }
  }

  /** An email is queued exactly for the items whose giver has a truthy address, and it
      goes to that address. */
  lemma {:induction false} QueueMembers(items: seq<Item>, emailOf: Option<string> -> Option<string>, e: Email)
    ensures e in Queue(items, emailOf)
            <==> exists k :: 0 <= k < |items| && Truthy(emailOf(items[k].giver))
                             && e == Email(emailOf(items[k].giver).value, items[k].giver, items[k].receiver)
  {
    if |items| > 0 {
      var init := items[..|items| - 1];
      QueueMembers(init, emailOf, e);
      assert forall k :: 0 <= k < |init| ==> init[k] == items[k];
    }
  }

  /** The count of queued emails never exceeds the number of assignments, and equals it
      exactly when every giver has a truthy address. */
  lemma {:induction false} QueueCount(items: seq<Item>, emailOf: Option<string> -> Option<string>)
    ensures |Queue(items, emailOf)| <= |items|
    ensures |Queue(items, emailOf)| == |items| <==> forall k :: 0 <= k < |items| ==> Truthy(emailOf(items[k].giver))
  {
    if |items| > 0 {
      var init := items[..|items| - 1];
      QueueCount(init, emailOf);
      assert forall k :: 0 <= k < |init| ==> init[k] == items[k];
    }
  }

  /** `Object.values(submissions).find(s => s['submitter-name'] === giver)?.['submitter-email']`:
      the email of the first submission with that name, `undefined` when there is none. */
  function FirstEmail(subs: seq<Record>, giver: Option<string>): Option<string> {
    if |subs| == 0 then None
    else if Field(subs[0], "submitter-name") == giver then Field(subs[0], "submitter-email")
    else FirstEmail(subs[1..], giver)
  }

  /** The search returns the email of the first submission carrying the name. */
  lemma {:induction false} FirstEmailFinds(subs: seq<Record>, giver: Option<string>, i: nat)
    requires i < |subs| && Field(subs[i], "submitter-name") == giver
    requires forall j :: 0 <= j < i ==> Field(subs[j], "submitter-name") != giver
    ensures FirstEmail(subs, giver) == Field(subs[i], "submitter-email")
  {
    if i > 0 {
      assert Field(subs[0], "submitter-name") != giver;
      assert forall j :: 0 <= j < i - 1 ==> subs[1..][j] == subs[j + 1];
      FirstEmailFinds(subs[1..], giver, i - 1);
    }
  }

  /** The search finds nothing when no submission carries the name. */
  lemma {:induction false} FirstEmailAbsent(subs: seq<Record>, giver: Option<string>)
    requires forall j :: 0 <= j < |subs| ==> Field(subs[j], "submitter-name") != giver
    ensures FirstEmail(subs, giver) == None
  {
    if |subs| > 0 {
      assert forall j :: 0 <= j < |subs| - 1 ==> subs[1..][j] == subs[j + 1];
      FirstEmailAbsent(subs[1..], giver);
    }
  }

  /** run-draw.js: `emailMap[giver] || <first submission's email>`. */
  function DrawEmail(m: EmailMap, subs: seq<Record>, giver: Option<string>): (r: Option<string>)
    ensures Truthy(Lookup(m, JsKey(giver))) ==> r == Lookup(m, JsKey(giver))
    ensures !Truthy(Lookup(m, JsKey(giver))) ==> r == FirstEmail(subs, giver)
  {
    var e := Lookup(m, JsKey(giver));
    if Truthy(e) then e else FirstEmail(subs, giver)
  }

  /** For a giver whose last submission has an empty or missing email, run-draw.js falls
      back to the email of the giver's first submission. */
  lemma DrawEmailFallsBackToFirst(subs: seq<Record>, giver: string, first: nat, last: nat)
    requires first <= last < |subs|
    requires Field(subs[first], "submitter-name") == Some(giver) && Field(subs[last], "submitter-name") == Some(giver)
    requires forall j :: 0 <= j < first ==> Field(subs[j], "submitter-name") != Some(giver)
    requires forall j :: last < j < |subs| ==> NameKey(subs[j]) != giver
    requires !Truthy(Field(subs[last], "submitter-email"))
    ensures DrawEmail(EmailMapOf(subs), subs, Some(giver)) == Field(subs[first], "submitter-email")
  {
    EmailMapLastWins(subs, last);
    FirstEmailFinds(subs, Some(giver), first);
  }
}
