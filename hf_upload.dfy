/** huggingface-integration.py, `save_csv_data`: naming the file, turning a
    list of records into CSV, and reporting whether the upload succeeded.
    The current time and the HTTP request are parameters: `timestamp` is the
    formatted `datetime.now()`, `send` the response the upload service gives
    to a payload. */
module HfUpload {
  import opened Seqs

  /** A record (a Python dict): its fields in key order. */
  type Record = seq<(string, string)>

  /** The `filename` argument. */
  datatype NameArg = NoName | GivenName(name: string)

  /** What `requests.post` gives back: a response, or an exception. */
  datatype Response = Status(code: int) | Raised

  /** The CSV text before quoting: the header, then one line per record. */
  datatype Table = Table(header: seq<string>, rows: seq<seq<string>>)

  datatype Payload = Payload(filename: string, content: Table)

  /** The `ValueError`s that escape: no records, or (from `csv.DictWriter`)
      a record with a field the header does not have. */
  datatype Problem = NoData | ExtraField(field: string)

  datatype SaveOutcome = Sent(payload: Payload, success: bool) | Error(problem: Problem)

  // ---------------------------------------------------------------------------
  // The file name
  // ---------------------------------------------------------------------------

  const DefaultPrefix := "huggingface_generated_"

  function NormalizeFilename(filename: NameArg, timestamp: string): (r: string)
    ensures EndsWith(r, ".csv")
  {
    var name := if filename.NoName? then DefaultPrefix + timestamp + ".csv" else filename.name;
    if EndsWith(name, ".csv") then name else name + ".csv"
  }

  /** Without a name the file is named after the time; a name ending in
      `.csv` is kept, any other gets exactly one `.csv` appended; so
      normalising twice changes nothing. */
  lemma NormalizeFilenameFacts(name: string, timestamp: string)
    ensures NormalizeFilename(NoName, timestamp) == DefaultPrefix + timestamp + ".csv"
    ensures EndsWith(name, ".csv") ==> NormalizeFilename(GivenName(name), timestamp) == name
    ensures !EndsWith(name, ".csv") ==> NormalizeFilename(GivenName(name), timestamp) == name + ".csv"
    ensures NormalizeFilename(GivenName(NormalizeFilename(GivenName(name), timestamp)), timestamp) ==
            NormalizeFilename(GivenName(name), timestamp)
  {
    var d := DefaultPrefix + timestamp + ".csv";
    assert d[|d| - 4..] == ".csv";
    var n := name + ".csv";
    assert n[|n| - 4..] == ".csv";
  }

  // ---------------------------------------------------------------------------
  // The CSV content
  // ---------------------------------------------------------------------------

  function Keys(record: Record): (r: seq<string>)
    ensures |r| == |record| && forall i :: 0 <= i < |record| ==> r[i] == record[i].0
  {
    if record == [] then [] else Keys(record[..|record| - 1]) + [record[|record| - 1].0]
  }

  /** The value of `key` in the record, or `DictWriter`'s `restval` "". */
  function Field(record: Record, key: string): string
  {
    if record == [] then ""
    else if record[0].0 == key then record[0].1
    else Field(record[1..], key)
  }

  /** The first field of the record that is not in the header, if any. */
  function ExtraKey(record: Record, header: seq<string>): (r: string)
  {
    if record == [] then ""
    else if record[0].0 !in header then record[0].0
    else ExtraKey(record[1..], header)
  }

  predicate Fits(record: Record, header: seq<string>)
  {
    forall i :: 0 <= i < |record| ==> record[i].0 in header
  }

  lemma {:induction false} ExtraKeyFound(record: Record, header: seq<string>)
    requires !Fits(record, header)
    ensures ExtraKey(record, header) !in header
    ensures exists i :: 0 <= i < |record| && record[i].0 == ExtraKey(record, header)
  {
    if record[0].0 in header {
      assert !Fits(record[1..], header) by {
        var i :| 0 <= i < |record| && record[i].0 !in header;
        assert record[1..][i - 1] == record[i];
      }
      ExtraKeyFound(record[1..], header);
      var i :| 0 <= i < |record[1..]| && record[1..][i].0 == ExtraKey(record, header);
      assert record[i + 1] == record[1..][i];
    }
  }

  /** One CSV line: the record's values in header order. */
  function Line(record: Record, header: seq<string>): (r: seq<string>)
    ensures |r| == |header| && forall j :: 0 <= j < |header| ==> r[j] == Field(record, header[j])
  {
    seq(|header|, j requires 0 <= j < |header| => Field(record, header[j]))
  }

  function Lines(records: seq<Record>, header: seq<string>): (r: seq<seq<string>>)
    ensures |r| == |records| && forall i :: 0 <= i < |records| ==> r[i] == Line(records[i], header)
  {
    if records == [] then [] else Lines(records[..|records| - 1], header) + [Line(records[|records| - 1], header)]
  }

  /** The first record, if any, with a field missing from the header. */
  function FirstMisfit(records: seq<Record>, header: seq<string>): (r: int)
    ensures -1 <= r < |records|
    ensures r >= 0 ==> !Fits(records[r], header) && forall i :: 0 <= i < r ==> Fits(records[i], header)
    ensures r < 0 ==> forall i :: 0 <= i < |records| ==> Fits(records[i], header)
  {
    if records == [] then -1
    else
      var k := FirstMisfit(records[..|records| - 1], header);
      if k >= 0 then k else if !Fits(records[|records| - 1], header) then |records| - 1 else -1
  }

  /** What `save_csv_data` does with a list of records. */
  function SaveCsv(data: seq<Record>, filename: NameArg, timestamp: string, send: Payload -> Response): SaveOutcome
  {
    if data == [] then Error(NoData)
    else
      var header := Keys(data[0]);
      var k := FirstMisfit(data, header);
      if k >= 0 then Error(ExtraField(ExtraKey(data[k], header)))
      else
        var payload := Payload(NormalizeFilename(filename, timestamp), Table(header, Lines(data, header)));
        Sent(payload, send(payload) == Status(200))
  }

  /** The error cases come first: no records, or a record with a field
      that is not in the first record's keys. Otherwise the payload carries
      the normalised name, the first record's keys as header and one line
      per record in order, and the result is true exactly for a 200
      response; a failed request is reported as false. */
  lemma SaveCsvFacts(data: seq<Record>, filename: NameArg, timestamp: string, send: Payload -> Response)
    ensures data == [] ==> SaveCsv(data, filename, timestamp, send) == Error(NoData)
    ensures data != [] && (exists i :: 0 <= i < |data| && !Fits(data[i], Keys(data[0]))) ==>
      SaveCsv(data, filename, timestamp, send).Error? &&
      SaveCsv(data, filename, timestamp, send).problem.ExtraField? &&
      SaveCsv(data, filename, timestamp, send).problem.field !in Keys(data[0])
    ensures SaveCsv(data, filename, timestamp, send).Sent? ==>
      var p := SaveCsv(data, filename, timestamp, send).payload;
      && EndsWith(p.filename, ".csv")
      && p.content.header == Keys(data[0])
      && |p.content.rows| == |data|
      && (forall i, j :: 0 <= i < |data| && 0 <= j < |p.content.header| ==>
            p.content.rows[i][j] == Field(data[i], p.content.header[j]))
      && (SaveCsv(data, filename, timestamp, send).success <==> send(p) == Status(200))
    ensures SaveCsv(data, filename, timestamp, send).Sent? && send(SaveCsv(data, filename, timestamp, send).payload) == Raised ==>
      !SaveCsv(data, filename, timestamp, send).success
  {
    if data != [] {
      var header := Keys(data[0]);
      var k := FirstMisfit(data, header);
      if k >= 0 {
        ExtraKeyFound(data[k], header);
      }
    }
  }

  // ---------------------------------------------------------------------------
  // The method
  // ---------------------------------------------------------------------------

  /** `writer.writerows(data)`: the lines, or the first extra field met. */
  method WriteRows(data: seq<Record>, header: seq<string>) returns (rows: seq<seq<string>>, misfit: int)
    ensures misfit == FirstMisfit(data, header)
    ensures misfit < 0 ==> rows == Lines(data, header)
  {
    rows := [];
    misfit := -1;
    assert data[..0] == [];
    for i := 0 to |data|
      invariant FirstMisfit(data[..i], header) == -1
      invariant rows == Lines(data[..i], header)
    {
      assert data[..i + 1][..i] == data[..i];
      if !Fits(data[i], header) {
        misfit := i;
        PrefixMisfit(data, header, i + 1);
        return;
      }
      rows := rows + [Line(data[i], header)];
    }
    assert data[..|data|] == data;
  }

  /** The first misfit of a prefix that has one is the first misfit. */
  lemma {:induction false} PrefixMisfit(records: seq<Record>, header: seq<string>, n: nat)
    requires n <= |records| && FirstMisfit(records[..n], header) >= 0
    ensures FirstMisfit(records, header) == FirstMisfit(records[..n], header)
    decreases |records| - n
  {
    if n < |records| {
      assert records[..n + 1][..n] == records[..n];
      PrefixMisfit(records, header, n + 1);
    } else {
      assert records[..n] == records;
    }
  }

  method SaveCsvData(data: seq<Record>, filename: NameArg, timestamp: string, send: Payload -> Response)
    returns (r: SaveOutcome)
    ensures r == SaveCsv(data, filename, timestamp, send)
  {
    var name: string;
    if filename.NoName? {
      name := DefaultPrefix + timestamp + ".csv";
    } else {
      name := filename.name;
    }
    if !EndsWith(name, ".csv") {
      name := name + ".csv";
    }
    if |data| == 0 {
      return Error(NoData);
    }
    var header := Keys(data[0]);
    var rows, misfit := WriteRows(data, header);
    if misfit >= 0 {
      return Error(ExtraField(ExtraKey(data[misfit], header)));
    }
    var payload := Payload(name, Table(header, rows));
    var response := send(payload);
    if response.Status? && response.code == 200 {
      r := Sent(payload, true);
    } else {
      r := Sent(payload, false);
    }
  }
}
