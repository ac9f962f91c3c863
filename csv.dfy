/** The tabular sink (src/exporter/csv.rs): a header record, then one
    record per entry in file-then-line order, absent fields rendered as
    empty strings. */
module Csv {
  import opened Prelude
  import opened Parser
  import opened Flatten

  /** The header record the exporter writes: two names. */
  const WrittenHeader: seq<string> := ["file_sha", "published_timestamp"]

  /** A header naming the ten fields each data record carries. */
  const Header: seq<string> := [
    "entry_sha", "fingerprint", "distribution_method", "transport", "ip",
    "blocklist", "distributed", "state", "bandwidth", "ratio"
  ]

  /** `as_deref().unwrap_or("")`. */
  function OrEmpty(v: Option<string>): string {
    match v case Some(s) => s case None => ""
  }

  /** `bool::to_string`. */
  function BoolText(b: bool): string {
    if b then "true" else "false"
  }

  /** One data record: the entry's ten fields in order; `ratioText` is
      `f32::to_string`. The file digest and time are not part of it. */
  function RowOf(e: LineEntry, ratioText: F32 -> string): (row: seq<string>)
    ensures |row| == |Header|
  {
    [ e.sha, e.fingerprint, e.distributionMethod,
      OrEmpty(e.transport), OrEmpty(e.ip), OrEmpty(e.blocklist),
      match e.distributed case Some(b) => BoolText(b) case None => "",
      OrEmpty(e.state), OrEmpty(e.bandwidth),
      match e.ratio case Some(r) => ratioText(r) case None => "" ]
  }

  function RowsText(rows: seq<Row>, ratioText: F32 -> string): (rs: seq<seq<string>>)
    ensures |rs| == |rows|
  {
    seq(|rows|, k requires 0 <= k < |rows| => RowOf(rows[k].entry, ratioText))
  }

  /** The records `CsvExporter::export` writes, header first. */
  function RecordsAsWritten(data: seq<Assignment>, ratioText: F32 -> string): seq<seq<string>> {
    [WrittenHeader] + RowsText(Rows(data), ratioText)
  }

  /** The same records under the ten-name header. */
  function Records(data: seq<Assignment>, ratioText: F32 -> string): seq<seq<string>> {
    [Header] + RowsText(Rows(data), ratioText)
  }

  /** As written, the header is narrower than every data record: as soon as
      there is one entry, the first two records differ in length. */
  lemma WrittenHeaderNarrowerThanRows(data: seq<Assignment>, ratioText: F32 -> string)
    requires TotalEntries(data) > 0
    ensures var recs := RecordsAsWritten(data, ratioText);
      |recs| >= 2 && |recs[0]| == 2 && |recs[1]| == 10
  {
    RowsCount(data);
  }

  /** With the ten-name header every record has the header's width. */
  lemma RecordsAreUniform(data: seq<Assignment>, ratioText: F32 -> string)
    ensures forall rec | rec in Records(data, ratioText) :: |rec| == |Header| == 10
  {
  }

  /** Only the header differs between the two. */
  lemma RecordsDifferInHeaderOnly(data: seq<Assignment>, ratioText: F32 -> string)
    ensures RecordsAsWritten(data, ratioText)[1..] == Records(data, ratioText)[1..]
  {
  }

  /** One data record per entry: with no entries, only the header. */
  lemma RecordsCount(data: seq<Assignment>, ratioText: F32 -> string)
    ensures |RecordsAsWritten(data, ratioText)| == 1 + TotalEntries(data)
    ensures TotalEntries(data) == 0 ==> RecordsAsWritten(data, ratioText) == [WrittenHeader]
  {
    RowsCount(data);
    if TotalEntries(data) == 0 {
      assert RowsText(Rows(data), ratioText) == [];
    }
  }

  /** The record after the header at position `TotalEntries(data[..i]) + j`
      is line `j` of file `i`. */
  lemma RecordsLayout(data: seq<Assignment>, ratioText: F32 -> string, i: nat, j: nat)
    requires i < |data| && j < |data[i].lines|
    ensures 1 + TotalEntries(data[..i]) + j < |RecordsAsWritten(data, ratioText)|
    ensures RecordsAsWritten(data, ratioText)[1 + TotalEntries(data[..i]) + j] == RowOf(data[i].lines[j], ratioText)
  {
    RowsCount(data);
    RowsLocate(data, i, j);
    var k := TotalEntries(data[..i]) + j;
    assert RecordsAsWritten(data, ratioText)[1 + k] == RowsText(Rows(data), ratioText)[k];
  }

  /** An empty field read back as absent. */
  function ReadField(s: string): Option<string> {
    if s == "" then None else Some(s)
  }

  /** Reading a data record back into an entry, with `ratioRead` the float
      parser. */
  function ReadRow(row: seq<string>, ratioRead: string -> Option<F32>): LineEntry
    requires |row| == 10
  {
    LineEntry(row[0], row[1], row[2], ReadField(row[3]), ReadField(row[4]), ReadField(row[5]),
              if row[6] == "" then None else Some(row[6] == "true"),
              ReadField(row[7]), ReadField(row[8]),
              if row[9] == "" then None else ratioRead(row[9]))
  }

  /** A present but empty text field. */
  predicate HasEmptyField(e: LineEntry) {
    e.transport == Some("") || e.ip == Some("") || e.blocklist == Some("")
    || e.state == Some("") || e.bandwidth == Some("")
  }

  /** A record gives its entry back, unless a text field was present but
      empty, or the ratio's text does not read back. */
  lemma ReadRowOfRow(e: LineEntry, ratioText: F32 -> string, ratioRead: string -> Option<F32>)
    requires !HasEmptyField(e)
    requires e.ratio.Some? ==> ratioText(e.ratio.value) != "" && ratioRead(ratioText(e.ratio.value)) == e.ratio
    ensures ReadRow(RowOf(e, ratioText), ratioRead) == e
  {
  }

  /** An absent field and a present empty one give the same record. */
  lemma EmptyAndAbsentAlike(e: LineEntry, ratioText: F32 -> string)
    ensures RowOf(e.(transport := Some("")), ratioText) == RowOf(e.(transport := None), ratioText)
    ensures RowOf(e.(state := Some("")), ratioText) == RowOf(e.(state := None), ratioText)
  {
  }

  /** The `csv::Writer` as a list of records written so far. */
  class CsvWriter {
    var records: seq<seq<string>>

    constructor ()
      ensures records == []
    {
      records := [];
    }

    method WriteRecord(rec: seq<string>)
      modifies this
      ensures records == old(records) + [rec]
    {
      records := records + [rec];
    }
  }

  /** `CsvExporter::export`: the two-name header as written, then one
      record per line of each assignment; the result is what the new file
      holds. */
  method Export(data: seq<Assignment>, ratioText: F32 -> string) returns (written: seq<seq<string>>)
    ensures written == RecordsAsWritten(data, ratioText)
  {
    var writer := new CsvWriter();
    writer.WriteRecord(WrittenHeader);
    for i := 0 to |data|
      invariant writer.records == [WrittenHeader] + RowsText(Rows(data[..i]), ratioText)
    {
      var assignment := data[i];
      ghost var before := Rows(data[..i]);
      assert before + RowsOf(assignment)[..0] == before;
      for j := 0 to |assignment.lines|
        invariant writer.records == [WrittenHeader] + RowsText(before + RowsOf(assignment)[..j], ratioText)
      {
        var line := assignment.lines[j];
        ghost var done := before + RowsOf(assignment)[..j];
        RowsOfStep(before, assignment, j);
        assert RowsText(done + [Row(assignment.fileSha, assignment.published, line)], ratioText)
            == RowsText(done, ratioText) + [RowOf(line, ratioText)];
        writer.WriteRecord(RowOf(line, ratioText));
      }
      assert RowsOf(assignment)[..|assignment.lines|] == RowsOf(assignment);
      RowsStep(data, i);
    }
    assert data[..|data|] == data;
    written := writer.records;
  }
}
