/** The columnar sink (src/exporter/parquet.rs): every entry of every
    assignment denormalised into one batch of twelve parallel columns. */
module Parquet {
  import opened Prelude
  import opened Errors
  import opened Parser
  import opened Flatten

  datatype ColumnType = Utf8 | Int64 | Boolean | Float64

  datatype SchemaField = SchemaField(name: string, columnType: ColumnType, nullable: bool)

  /** The batch schema, in column order. */
  const BatchSchema: seq<SchemaField> := [
    SchemaField("file_sha", Utf8, false),
    SchemaField("published_timestamp", Int64, false),
    SchemaField("entry_sha", Utf8, false),
    SchemaField("fingerprint", Utf8, false),
    SchemaField("distribution_method", Utf8, false),
    SchemaField("transport", Utf8, true),
    SchemaField("ip", Utf8, true),
    SchemaField("blocklist", Utf8, true),
    SchemaField("distributed", Boolean, true),
    SchemaField("state", Utf8, true),
    SchemaField("bandwidth", Utf8, true),
    SchemaField("ratio", Float64, true)
  ]

  /** Twelve fields; the five identifying columns may not hold nulls, the
      seven optional ones may. */
  lemma SchemaShape()
    ensures |BatchSchema| == 12
    ensures forall i :: 0 <= i < 5 ==> !BatchSchema[i].nullable
    ensures forall i :: 5 <= i < 12 ==> BatchSchema[i].nullable
  {
  }

  /** The twelve column vectors; a `None` is a null. The ratio column keeps
      the `f32` value that the exporter widens to `f64`. */
  datatype Columns = Columns(
    fileShas: seq<string>,
    timestamps: seq<Option<int>>,
    entryShas: seq<string>,
    fingerprints: seq<string>,
    methods: seq<string>,
    transports: seq<Option<string>>,
    ips: seq<Option<string>>,
    blocklists: seq<Option<string>>,
    distributed: seq<Option<bool>>,
    states: seq<Option<string>>,
    bandwidths: seq<Option<string>>,
    ratios: seq<Option<F32>>)
  {
    /** Every column holds `n` values. */
    predicate HasRows(n: nat) {
      && |fileShas| == n && |timestamps| == n && |entryShas| == n
      && |fingerprints| == n && |methods| == n && |transports| == n
      && |ips| == n && |blocklists| == n && |distributed| == n
      && |states| == n && |bandwidths| == n && |ratios| == n
    }
  }

  const NoColumns := Columns([], [], [], [], [], [], [], [], [], [], [], [])

  /** The columns holding the given rows, one row appended after another. */
  function ColumnsOf(rows: seq<Row>): Columns {
    if rows == [] then NoColumns
    else
      var c := ColumnsOf(rows[..|rows| - 1]);
      var r := rows[|rows| - 1];
      var e := r.entry;
      Columns(
        c.fileShas + [r.fileSha], c.timestamps + [Some(r.published)], c.entryShas + [e.sha],
        c.fingerprints + [e.fingerprint], c.methods + [e.distributionMethod],
        c.transports + [e.transport], c.ips + [e.ip], c.blocklists + [e.blocklist],
        c.distributed + [e.distributed], c.states + [e.state], c.bandwidths + [e.bandwidth],
        c.ratios + [e.ratio])
  }

  /** Row `k` of the batch is row `k` of the input: the file's digest and
      time repeated, the entry's fields copied, an absent field a null; the
      non-nullable timestamp column never holds a null. */
  lemma {:induction false} ColumnsAreRows(rows: seq<Row>)
    ensures ColumnsOf(rows).HasRows(|rows|)
    ensures forall k :: 0 <= k < |rows| ==>
      var c, r := ColumnsOf(rows), rows[k];
      && c.fileShas[k] == r.fileSha && c.timestamps[k] == Some(r.published)
      && c.entryShas[k] == r.entry.sha && c.fingerprints[k] == r.entry.fingerprint
      && c.methods[k] == r.entry.distributionMethod && c.transports[k] == r.entry.transport
      && c.ips[k] == r.entry.ip && c.blocklists[k] == r.entry.blocklist
      && c.distributed[k] == r.entry.distributed && c.states[k] == r.entry.state
      && c.bandwidths[k] == r.entry.bandwidth && c.ratios[k] == r.entry.ratio
  {
    if rows != [] {
      var n := |rows| - 1;
      ColumnsAreRows(rows[..n]);
      assert rows == rows[..n] + [rows[n]];
      ColumnsStep(rows[..n], rows[n]);
      forall k | 0 <= k < n
        ensures rows[..n][k] == rows[k]
      {
      }
    }
  }

  /** Every column has one value per entry of every assignment, and the
      value at position `TotalEntries(data[..i]) + j` belongs to line `j` of
      file `i`. */
  lemma BatchLayout(data: seq<Assignment>, i: nat, j: nat)
    requires i < |data| && j < |data[i].lines|
    ensures ColumnsOf(Rows(data)).HasRows(TotalEntries(data))
    ensures var c, k, e := ColumnsOf(Rows(data)), TotalEntries(data[..i]) + j, data[i].lines[j];
      && k < TotalEntries(data)
      && c.fileShas[k] == data[i].fileSha && c.timestamps[k] == Some(data[i].published)
      && c.entryShas[k] == e.sha && c.ratios[k] == e.ratio
  {
    RowsCount(data);
    ColumnsAreRows(Rows(data));
    RowsLocate(data, i, j);
  }

  /** One more row adds one value at the end of every column. */
  lemma ColumnsStep(rows: seq<Row>, r: Row)
    ensures var c, c' := ColumnsOf(rows), ColumnsOf(rows + [r]);
      c' == Columns(
        c.fileShas + [r.fileSha], c.timestamps + [Some(r.published)], c.entryShas + [r.entry.sha],
        c.fingerprints + [r.entry.fingerprint], c.methods + [r.entry.distributionMethod],
        c.transports + [r.entry.transport], c.ips + [r.entry.ip], c.blocklists + [r.entry.blocklist],
        c.distributed + [r.entry.distributed], c.states + [r.entry.state], c.bandwidths + [r.entry.bandwidth],
        c.ratios + [r.entry.ratio])
  {
    assert (rows + [r])[..|rows|] == rows;
  }

  /** The nested loop of `ParquetExporter::export`: one value pushed onto
      each of the twelve vectors per entry, files in order, lines in
      order. */
  method BuildColumns(data: seq<Assignment>) returns (c: Columns)
    ensures c == ColumnsOf(Rows(data))
  {
    var fileShas, timestamps, entryShas, fingerprints, methods := [], [], [], [], [];
    var transports, ips, blocklists, distributed, states, bandwidths, ratios := [], [], [], [], [], [], [];
    for i := 0 to |data|
      invariant Columns(fileShas, timestamps, entryShas, fingerprints, methods, transports, ips,
                        blocklists, distributed, states, bandwidths, ratios)
             == ColumnsOf(Rows(data[..i]))
    {
      var assignment := data[i];
      ghost var before := Rows(data[..i]);
      assert before + RowsOf(assignment)[..0] == before;
      for j := 0 to |assignment.lines|
        invariant Columns(fileShas, timestamps, entryShas, fingerprints, methods, transports, ips,
                          blocklists, distributed, states, bandwidths, ratios)
               == ColumnsOf(before + RowsOf(assignment)[..j])
      {
        var line := assignment.lines[j];
        RowsOfStep(before, assignment, j);
        ColumnsStep(before + RowsOf(assignment)[..j], Row(assignment.fileSha, assignment.published, line));
        fileShas := fileShas + [assignment.fileSha];
        timestamps := timestamps + [Some(assignment.published)];
        entryShas := entryShas + [line.sha];
        fingerprints := fingerprints + [line.fingerprint];
        methods := methods + [line.distributionMethod];
        transports := transports + [line.transport];
        ips := ips + [line.ip];
        blocklists := blocklists + [line.blocklist];
        distributed := distributed + [line.distributed];
        states := states + [line.state];
        bandwidths := bandwidths + [line.bandwidth];
        ratios := ratios + [line.ratio];
      }
      assert RowsOf(assignment)[..|assignment.lines|] == RowsOf(assignment);
      RowsStep(data, i);
    }
    assert data[..|data|] == data;
    c := Columns(fileShas, timestamps, entryShas, fingerprints, methods, transports, ips,
                 blocklists, distributed, states, bandwidths, ratios);
  }

  /** The batch handed to the file writer. */
  datatype Batch = Batch(schema: seq<SchemaField>, columns: Columns)

  /** `ParquetExporter::export` up to the writer: no assignments means
      nothing to write; otherwise the batch of all entries, which has no
      rows when the assignments have no lines. */
  method Export(data: seq<Assignment>) returns (r: Result<Option<Batch>>)
    ensures data == [] ==> r == Ok(None)
    ensures data != [] ==>
      && r.Ok? && r.value.Some?
      && r.value.value.schema == BatchSchema
      && r.value.value.columns == ColumnsOf(Rows(data))
  {
    if data == [] {
      return Ok(None);
    }
    var columns := BuildColumns(data);
    return Ok(Some(Batch(BatchSchema, columns)));
  }

  /** Assignments without lines still produce a batch, with zero rows. */
  lemma NoLinesGivesEmptyBatch(data: seq<Assignment>)
    requires data != [] && TotalEntries(data) == 0
    ensures ColumnsOf(Rows(data)) == NoColumns
  {
    RowsCount(data);
  }

  const DisabledMessage: string := "Parquet export support not enabled. Compile with --features parquet_export"

  /** The exporter built without the `parquet_export` feature: always an
      `Export` error, whatever the data. */
  function ExportDisabled(data: seq<Assignment>): (r: Result<()>)
    ensures r == Err(BridgeError.Export(DisabledMessage))
  {
    Err(BridgeError.Export(DisabledMessage))
  }
}
