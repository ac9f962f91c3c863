/** The `Exporter` capability (src/exporter/mod.rs) as a closed set of
    sinks, chosen once and handed the parsed assignments unchanged. */
module Exporter {
  import opened Prelude
  import opened Errors
  import opened Parser
  import Pg
  import Csv
  import Parquet
  import Flatten

  /** The sinks; `compiledIn` says whether the `parquet_export` feature was
      enabled, which decides which `ParquetExporter` exists. */
  datatype Exporter =
    | PostgresExporter(connStr: string, truncate: bool)
    | CsvExporter(outputPath: string)
    | ParquetExporter(outputPath: string, compiledIn: bool)

  /** What a successful export leaves behind. */
  datatype Output =
    | Committed
    | CsvFile(path: string, records: seq<seq<string>>)
    | ParquetFile(path: string, batch: Option<Parquet.Batch>)

  /** `Exporter::export`, dispatched on the sink. The database stands for
      the one `connStr` reaches; only the Postgres sink touches it. */
  method Export(x: Exporter, data: seq<Assignment>, db: Pg.Database, ratioText: F32 -> string)
    returns (r: Result<Output>)
    modifies db
    ensures !x.PostgresExporter? ==> db.Snapshot() == old(db.Snapshot())
    ensures x.PostgresExporter? ==>
      var w := Pg.Write(old(db.Snapshot()), data, x.truncate);
      && (w.Ok? ==> r == Ok(Committed) && db.Snapshot() == w.value)
      && (w.Err? ==> r == Err(w.error) && db.Snapshot() == old(db.Snapshot()))
    ensures x.CsvExporter? ==> r == Ok(CsvFile(x.outputPath, Csv.RecordsAsWritten(data, ratioText)))
    ensures x.ParquetExporter? && !x.compiledIn ==> r == Err(Parquet.ExportDisabled(data).error)
    ensures x.ParquetExporter? && x.compiledIn && data == [] ==> r == Ok(ParquetFile(x.outputPath, None))
    ensures x.ParquetExporter? && x.compiledIn && data != [] ==>
      r == Ok(ParquetFile(x.outputPath, Some(Parquet.Batch(Parquet.BatchSchema, Parquet.ColumnsOf(Flatten.Rows(data))))))
  {
    match x {
      case PostgresExporter(_, truncate) =>
        var res := db.WriteToPostgres(data, truncate);
        if res.Err? {
          return Err(res.error);
        }
        return Ok(Committed);
      case CsvExporter(path) =>
        var records := Csv.Export(data, ratioText);
        return Ok(CsvFile(path, records));
      case ParquetExporter(path, compiledIn) =>
        if !compiledIn {
          var disabled := Parquet.ExportDisabled(data);
          return Err(disabled.error);
        }
        var batch := Parquet.Export(data);
        return Ok(ParquetFile(path, batch.value));
    }
  }
}
