/** The send-emails.js handler after its environment checks: validate the request's
    `assignments`, parse the submissions CSV into the email map, and queue one email
    per assignment whose giver has an address. */
module SendEmails {
  import opened Common
  import opened Csv
  import opened Emails

  /** The `assignments` property of the request body, as far as the handler looks at it. */
  datatype AssignmentsField = Missing | NotArray | ArrayOf(items: seq<Item>)

  /** `if (!assignments || !Array.isArray(assignments)) throw …`. */
  function Validate(f: AssignmentsField): (r: Result<seq<Item>, Error>)
    ensures r.Ok? <==> f.ArrayOf?
    ensures r.Ok? ==> r.value == f.items
    ensures r.Err? ==> r.error == InvalidPayload
  {
    match f
    case ArrayOf(items) => Ok(items)
    case _ => Err(InvalidPayload)
  }

  /** `emailMap[giver]` for the giver of an assignment. */
  function SendEmail(m: EmailMap, giver: Option<string>): Option<string> {
    Lookup(m, JsKey(giver))
  }

  /** The emails queued (their number is the reported count), or the error the 500
      response carries. */
  function Run(f: AssignmentsField, csv: string): Result<seq<Email>, Error> {
    match Validate(f)
    case Err(e) => Err(e)
    case Ok(items) =>
      match ParseCsvSpec(csv)
      case Err(e) => Err(e)
      case Ok(subs) =>
        var emailMap := EmailMapOf(subs);
        Ok(Queue(items, g => SendEmail(emailMap, g)))
  }

  /** The body of the handler's `try` block, given the request's `assignments` and the CSV text. */
  method Handle(assignments: AssignmentsField, csvData: string) returns (r: Result<seq<Email>, Error>)
    ensures r == Run(assignments, csvData)
  {
    if !assignments.ArrayOf? {
      return Err(InvalidPayload);
    }
    var submissions := ParseCsv(csvData);
    if submissions.Err? {
      return Err(submissions.error);
    }
    var emailMap := BuildEmailMap(submissions.value);
    var emails := QueueEmails(assignments.items, g => SendEmail(emailMap, g));
    r := Ok(emails);
  }

  /** A request without an `assignments` array fails before the CSV is read, whatever it holds. */
  lemma InvalidPayloadFirst(f: AssignmentsField, csv: string)
    ensures Run(f, csv) == Err(InvalidPayload) <==> !f.ArrayOf?
  {
    if f.ArrayOf? {
      if ParseCsvSpec(csv).Err? {
        var lines := Lines(csv);
        ParseRowsFirstError(HeadersOf(lines[0]), lines, |lines|);
      }
    }
  }

  /** With a valid payload and a well-formed CSV, an email is queued exactly for the
      assignments whose giver has a truthy email in the map, at most one per assignment. */
  lemma QueuedExactly(items: seq<Item>, csv: string, m: Email)
    requires ParseCsvSpec(csv).Ok?
    ensures var emails := Run(ArrayOf(items), csv).value;
      var emailMap := EmailMapOf(ParseCsvSpec(csv).value);
      && |emails| <= |items|
      && (m in emails
          <==> exists k :: 0 <= k < |items| && Truthy(SendEmail(emailMap, items[k].giver))
                           && m == Email(SendEmail(emailMap, items[k].giver).value, items[k].giver, items[k].receiver))
  {
    var emailMap := EmailMapOf(ParseCsvSpec(csv).value);
    QueueCount(items, g => SendEmail(emailMap, g));
    QueueMembers(items, g => SendEmail(emailMap, g), m);
  }

  /** A giver's email is taken from the last CSV row carrying their name. */
  lemma LastRowAddress(subs: seq<Record>, i: nat)
    requires i < |subs|
    requires forall j :: i < j < |subs| ==> NameKey(subs[j]) != NameKey(subs[i])
    ensures SendEmail(EmailMapOf(subs), Field(subs[i], "submitter-name")) == Field(subs[i], "submitter-email")
  {
    EmailMapLastWins(subs, i);
  }

  /** A giver no CSV row names gets no email. */
  lemma UnknownGiverSkipped(subs: seq<Record>, giver: Option<string>)
    requires forall j :: 0 <= j < |subs| ==> NameKey(subs[j]) != JsKey(giver)
    ensures SendEmail(EmailMapOf(subs), giver) == None
  {
    EmailMapKeys(subs);
  }
}
