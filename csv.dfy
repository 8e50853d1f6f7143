/** `parseCSV` (generate-assignments.js and send-emails.js carry the same
    copy): the trimmed text is cut into lines, the first line gives the
    headers, and every further line becomes one record mapping each header
    to the field in the same column, with double quotes removed. */
module Csv {
  import opened Common
  import opened Text

  /** A parsed row: a JavaScript object from header to field text. */
  type Record = map<string, string>

  /** `rec[key]`, which is `undefined` for a missing key. */
  function Field(rec: Record, key: string): (r: Option<string>)
    ensures r.Some? <==> key in rec
    ensures r.Some? ==> r.value == rec[key]
  {
    if key in rec then Some(rec[key]) else None
  }

  /** `csvData.trim().split('\n')`. */
  function Lines(csv: string): seq<string> {
    Split(Trim(csv), '\n')
  }

  /** Each piece with its quotes removed (`.map(h => h.replace(/"/g, ''))`). */
  function StripAll(xs: seq<string>): (r: seq<string>)
    ensures |r| == |xs| && forall k :: 0 <= k < |xs| ==> r[k] == StripQuotes(xs[k])
  {
    seq(|xs|, k requires 0 <= k < |xs| => StripQuotes(xs[k]))
  }

  /** The header names taken from the first line. */
  function HeadersOf(line: string): seq<string> {
    StripAll(Split(line, ','))
  }

  /** The object the inner loop builds after `|headers|` iterations:
      `obj[headers[j]] = fields[j]` without quotes, later columns overwriting earlier ones. */
  function BuildRecord(headers: seq<string>, fields: seq<string>): (r: Record)
    requires |headers| <= |fields|
    ensures r.Keys == set h | h in headers
    ensures forall h :: h in r ==> '"' !in r[h]
    decreases |headers|
  {
    if |headers| == 0 then map[]
    else
      var last := |headers| - 1;
      assert (set h | h in headers) == (set h | h in headers[..last]) + {headers[last]} by {
        assert headers == headers[..last] + [headers[last]];
      }
      BuildRecord(headers[..last], fields)[headers[last] := StripQuotes(fields[last])]
  }

  /** One data line: too few fields makes `currentline[j]` undefined at
      column `j == |fields|`, and `.replace` on it throws. */
  function ParseRow(headers: seq<string>, line: string, lineNo: nat): Result<Record, Error> {
    var fields := Split(line, ',');
    if |fields| < |headers| then Err(MissingField(lineNo, |fields|))
    else Ok(BuildRecord(headers, fields))
  }

  /** The records of `lines[1..upto]`, or the error of the first line that is short of fields. */
  function ParseRows(headers: seq<string>, lines: seq<string>, upto: nat): Result<seq<Record>, Error>
    requires 1 <= upto <= |lines|
    decreases upto
  {
    if upto == 1 then Ok([])
    else
      match ParseRows(headers, lines, upto - 1)
      case Err(e) => Err(e)
      case Ok(rs) =>
        match ParseRow(headers, lines[upto - 1], upto - 1)
        case Err(e) => Err(e)
        case Ok(rec) => Ok(rs + [rec])
  }

  /** What `parseCSV(csvData)` returns or throws. */
  function ParseCsvSpec(csv: string): Result<seq<Record>, Error> {
    var lines := Lines(csv);
    ParseRows(HeadersOf(lines[0]), lines, |lines|)
  }

  /** Line `i` has fewer comma-separated fields than there are headers. */
  predicate ShortRow(headers: seq<string>, lines: seq<string>, i: nat)
    requires i < |lines|
  {
    |Split(lines[i], ',')| < |headers|
  }

  /** `parseCSV`, loop for loop. */
  method ParseCsv(csvData: string) returns (r: Result<seq<Record>, Error>)
    ensures r == ParseCsvSpec(csvData)
  {
    var lines := Split(Trim(csvData), '\n');
    var headers := StripAll(Split(lines[0], ','));
    var result: seq<Record> := [];
    for i := 1 to |lines|
      invariant ParseRows(headers, lines, i) == Ok(result)
    {
      var obj := ParseLine(headers, lines[i], i);
      if obj.Err? {
        r := Err(obj.error);
        ErrorPersists(headers, lines, i + 1, |lines|);
        return;
      }
      result := result + [obj.value];
    }
    r := Ok(result);
  }

  /** The inner loop of `parseCSV` over the headers, for the line numbered `lineNo`. */
  method ParseLine(headers: seq<string>, line: string, lineNo: nat) returns (r: Result<Record, Error>)
    ensures r == ParseRow(headers, line, lineNo)
  {
    var obj: Record := map[];
    var currentline := Split(line, ',');
    for j := 0 to |headers|
      invariant j <= |currentline|
      invariant obj == BuildRecord(headers[..j], currentline)
    {
      if j >= |currentline| {
        return Err(MissingField(lineNo, j));
      }
      assert headers[..j + 1][..j] == headers[..j];
      obj := obj[headers[j] := StripQuotes(currentline[j])];
    }
    assert headers[..|headers|] == headers;
    r := Ok(obj);
  }

  /** A row yields the same record however many extra fields follow the last header's column. */
  lemma {:induction false} ExtraFieldsIgnored(headers: seq<string>, fields: seq<string>, extra: seq<string>)
    requires |headers| <= |fields|
    ensures BuildRecord(headers, fields + extra) == BuildRecord(headers, fields)
    decreases |headers|
  {
    if |headers| > 0 {
      var last := |headers| - 1;
      ExtraFieldsIgnored(headers[..last], fields, extra);
      assert (fields + extra)[last] == fields[last];
    }
  }

  /** A header's value is the quote-free field of the last column carrying that header. */
  lemma {:induction false} RecordLookup(headers: seq<string>, fields: seq<string>, j: nat)
    requires |headers| <= |fields| && j < |headers|
    requires forall k :: j < k < |headers| ==> headers[k] != headers[j]
    ensures BuildRecord(headers, fields)[headers[j]] == StripQuotes(fields[j])
    decreases |headers|
  {
    var last := |headers| - 1;
    if j < last {
      RecordLookup(headers[..last], fields, j);
    }
  }

  /** The rows parse exactly when no line is short of fields. */
  lemma {:induction false} ParseRowsSucceedIff(headers: seq<string>, lines: seq<string>, upto: nat)
    requires 1 <= upto <= |lines|
    ensures ParseRows(headers, lines, upto).Ok? <==> forall i :: 1 <= i < upto ==> !ShortRow(headers, lines, i)
    decreases upto
  {
    if upto > 1 {
      ParseRowsSucceedIff(headers, lines, upto - 1);
      var prev := ParseRows(headers, lines, upto - 1);
      if prev.Err? {
        assert ParseRows(headers, lines, upto) == Err(prev.error);
        var i :| 1 <= i < upto - 1 && ShortRow(headers, lines, i);
      } else {
        var row := ParseRow(headers, lines[upto - 1], upto - 1);
        assert row.Err? <==> ShortRow(headers, lines, upto - 1);
        assert ParseRows(headers, lines, upto).Ok? <==> row.Ok?;
      }
    }
  }

  /** When the rows parse there is one record per line, built from that line's fields. */
  lemma {:induction false} ParseRowsRecords(headers: seq<string>, lines: seq<string>, upto: nat)
    requires 1 <= upto <= |lines|
    requires ParseRows(headers, lines, upto).Ok?
    ensures var rs := ParseRows(headers, lines, upto).value;
      |rs| == upto - 1 &&
      forall i :: 1 <= i < upto ==>
        !ShortRow(headers, lines, i) && rs[i - 1] == BuildRecord(headers, Split(lines[i], ','))
    decreases upto
  {
    if upto > 1 {
      var prev := ParseRows(headers, lines, upto - 1);
      assert prev.Ok?;
      ParseRowsRecords(headers, lines, upto - 1);
      var row := ParseRow(headers, lines[upto - 1], upto - 1);
      assert row.Ok?;
      var rs := ParseRows(headers, lines, upto).value;
      assert rs == prev.value + [row.value];
      forall i | 1 <= i < upto
        ensures !ShortRow(headers, lines, i) && rs[i - 1] == BuildRecord(headers, Split(lines[i], ','))
      {
        if i < upto - 1 {
          assert rs[i - 1] == prev.value[i - 1];
        }
      }
    }
  }

  /** When the rows do not parse, the error names the first line short of fields and the
      number of fields it has. */
  lemma {:induction false} ParseRowsFirstError(headers: seq<string>, lines: seq<string>, upto: nat)
    requires 1 <= upto <= |lines|
    requires ParseRows(headers, lines, upto).Err?
    ensures exists i :: 1 <= i < upto && ShortRow(headers, lines, i)
                     && (forall i' :: 1 <= i' < i ==> !ShortRow(headers, lines, i'))
                     && ParseRows(headers, lines, upto).error == MissingField(i, |Split(lines[i], ',')|)
    decreases upto
  {
    if ParseRows(headers, lines, upto - 1).Err? {
      ParseRowsFirstError(headers, lines, upto - 1);
    } else {
      ParseRowsSucceedIff(headers, lines, upto - 1);
      assert ShortRow(headers, lines, upto - 1);
    }
  }

  /** Once a line has failed, the rows up to any later line fail with the same error. */
  lemma {:induction false} ErrorPersists(headers: seq<string>, lines: seq<string>, upto: nat, later: nat)
    requires 1 <= upto <= later <= |lines|
    requires ParseRows(headers, lines, upto).Err?
    ensures ParseRows(headers, lines, later) == ParseRows(headers, lines, upto)
    decreases later
  {
    if later > upto {
      ErrorPersists(headers, lines, upto, later - 1);
    }
  }

  /** A parse that succeeds returns one record per newline of the trimmed text, that is one
      per line after the header line; every record has exactly the header keys and no quotes. */
  lemma ParseCsvShape(csv: string)
    requires ParseCsvSpec(csv).Ok?
    ensures var rs := ParseCsvSpec(csv).value;
      |rs| == Count(Trim(csv), '\n')
      && forall r :: r in rs ==>
           r.Keys == (set h | h in HeadersOf(Lines(csv)[0]))
           && forall h :: h in r ==> '"' !in r[h]
  {
    var lines := Lines(csv);
    SplitCount(Trim(csv), '\n');
    var headers := HeadersOf(lines[0]);
    ParseRowsRecords(headers, lines, |lines|);
    var rs := ParseCsvSpec(csv).value;
    forall r | r in rs
      ensures r.Keys == (set h | h in headers) && forall h :: h in r ==> '"' !in r[h]
    {
      var k :| 0 <= k < |rs| && rs[k] == r;
      assert rs[(k + 1) - 1] == BuildRecord(headers, Split(lines[k + 1], ','));
    }
  }

  /** A newline (or any whitespace) at the end of the file adds no record and changes nothing. */
  lemma TrailingNewlineAddsNoRecord(csv: string)
    ensures ParseCsvSpec(csv + "\n") == ParseCsvSpec(csv)
  {
    TrimIgnoresTrailingWhitespace(csv, '\n');
  }
}
