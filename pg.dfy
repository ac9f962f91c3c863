/** The PostgreSQL sink (src/exporter/pg.rs): the two tables `bridge_file`
    and `bridge_entry` as maps keyed by their `sha` primary key, filled by
    insert-if-absent statements inside one transaction. */
module Pg {
  import opened Prelude
  import opened Errors
  import opened Parser
  import opened Chrono

  // ---- to_naive_utc ----

  /** Rust's `/` on `i64`: the quotient truncated toward zero. */
  function TruncDiv(a: int, b: int): (q: int)
    requires b > 0
    ensures a >= 0 ==> 0 <= a - b * q < b
    ensures a < 0 ==> -b < a - b * q <= 0
  {
    if a >= 0 then a / b else -((-a) / b)
  }

  /** Rust's `%` on `i64`: the remainder takes the sign of the dividend. */
  function TruncMod(a: int, b: int): (r: int)
    requires b > 0
    ensures a == b * TruncDiv(a, b) + r
    ensures a >= 0 ==> 0 <= r < b
    ensures a < 0 ==> -b < r <= 0
  {
    a - b * TruncDiv(a, b)
  }

  /** `as u32` on an `i64`: the low 32 bits. */
  function AsU32(v: int): (u: nat)
    ensures u < 0x1_0000_0000
    ensures (v - u) % 0x1_0000_0000 == 0
    ensures 0 <= v < 0x1_0000_0000 ==> u == v
  {
    v % 0x1_0000_0000
  }

  const InvalidConversion: string := "Invalid timestamp conversion"

  /** `to_naive_utc`: milliseconds split into whole seconds and nanoseconds
      by truncating division, then `DateTime::<Utc>::from_timestamp`. */
  function ToNaiveUtc(ms: int): (r: Result<NaiveDateTime>)
    ensures r.Err? ==> r.error == Export(InvalidConversion)
  {
    var secs := TruncDiv(ms, 1000);
    var nsecs := AsU32(TruncMod(ms, 1000) * 1_000_000);
    match FromTimestamp(secs, nsecs)
    case None => Err(Export(InvalidConversion))
    case Some(dt) => Ok(dt)
  }

  /** For a non-negative count the split is exact: the conversion succeeds
      exactly when the day is representable, and the date-time it gives
      counts back to the same milliseconds with a fraction under a second. */
  lemma ToNaiveUtcNonNegative(ms: int)
    requires ms >= 0
    ensures ToNaiveUtc(ms).Ok? <==> ms / 1000 / 86400 <= MaxDays
    ensures ToNaiveUtc(ms).Ok? ==>
      TimestampMillis(ToNaiveUtc(ms).value) == ms && 0 <= ToNaiveUtc(ms).value.frac < 1_000_000_000
  {
    ValidDateInRange(1970, 1, 1);
    EpochIsDayZero();
    var secs, nsecs := ms / 1000, (ms % 1000) * 1_000_000;
    assert TruncMod(ms, 1000) == ms % 1000;
    assert AsU32(TruncMod(ms, 1000) * 1_000_000) == nsecs;
    if FromTimestamp(secs, nsecs).Some? {
      FromTimestampMillis(secs, nsecs);
      assert nsecs / 1_000_000 == ms % 1000;
    }
  }

  /** The other way round: a whole-second date-time with a representable
      day converts back from its own milliseconds, whatever their sign. */
  lemma ToNaiveUtcOfDateTime(dt: NaiveDateTime)
    requires MinDays <= dt.days <= MaxDays && 0 <= dt.secs < 86400 && dt.frac == 0
    ensures ToNaiveUtc(TimestampMillis(dt)) == Ok(dt)
  {
    var t := dt.days * 86400 + dt.secs;
    assert TimestampMillis(dt) == t * 1000;
    assert TruncDiv(t * 1000, 1000) == t;
    assert TruncMod(t * 1000, 1000) == 0;
    FromTimestampOfDateTime(dt);
  }

  /** Before the epoch, a count that is not a whole number of seconds leaves
      a negative remainder; its `as u32` image is above two seconds of
      nanoseconds, which `from_timestamp` refuses. */
  lemma NegativeFractionRejected(ms: int)
    requires ms < 0 && ms % 1000 != 0
    ensures ToNaiveUtc(ms) == Err(Export(InvalidConversion))
  {
    var rem := TruncMod(ms, 1000);
    assert rem != 0;
    assert AsU32(rem * 1_000_000) == rem * 1_000_000 + 0x1_0000_0000;
  }

  // ---- the tables ----

  /** A `bridge_file` row, keyed by the file digest. */
  datatype FileRow = FileRow(header: string, published: NaiveDateTime)

  /** A `bridge_entry` row, keyed by the entry digest. */
  datatype EntryRow = EntryRow(
    fingerprint: string,
    distributionMethod: string,
    fileSha: string,
    transport: Option<string>,
    ip: Option<string>,
    block: Option<string>,
    distributed: Option<bool>,
    state: Option<string>,
    bandwidth: Option<string>,
    ratio: Option<F32>,
    published: NaiveDateTime)

  datatype Tables = Tables(files: map<string, FileRow>, entries: map<string, EntryRow>)

  const NoRows := Tables(map[], map[])

  /** The foreign key `bridge_entry.file_sha REFERENCES bridge_file(sha)`. */
  predicate Referenced(t: Tables) {
    forall k | k in t.entries :: t.entries[k].fileSha in t.files
  }

  /** `INSERT ... ON CONFLICT DO NOTHING`: a row whose key is taken is
      dropped. */
  function InsertAbsent<V>(m: map<string, V>, k: string, v: V): (m': map<string, V>)
    ensures k in m'
    ensures k in m ==> m' == m
    ensures k !in m ==> m'[k] == v
    ensures forall j | j in m :: j in m' && m'[j] == m[j]
    ensures forall j | j in m' :: j in m || j == k
  {
    if k in m then m else m[k := v]
  }

  function EntryRowOf(e: LineEntry, fileSha: string, published: NaiveDateTime): EntryRow {
    EntryRow(e.fingerprint, e.distributionMethod, fileSha, e.transport, e.ip,
             e.blocklist, e.distributed, e.state, e.bandwidth, e.ratio, published)
  }

  const EntryInsertFailed: string := "Insert into bridge_entry failed"

  /** The statements `insert_lines` runs once the time has converted: one
      insert per entry, each refused when the file row it references is
      missing. */
  function LoadLines(t: Tables, fileSha: string, lines: seq<LineEntry>, published: NaiveDateTime): Result<Tables>
    decreases |lines|
  {
    if lines == [] then Ok(t)
    else if fileSha !in t.files then Err(Database(EntryInsertFailed))
    else
      var e := lines[0];
      LoadLines(t.(entries := InsertAbsent(t.entries, e.sha, EntryRowOf(e, fileSha, published))),
                fileSha, lines[1..], published)
  }

  /** `insert_file` and then `insert_lines` for one assignment; both convert
      the same `published` value. */
  function LoadFile(t: Tables, a: Assignment): Result<Tables> {
    match ToNaiveUtc(a.published)
    case Err(e) => Err(e)
    case Ok(p) =>
      LoadLines(t.(files := InsertAbsent(t.files, a.fileSha, FileRow(a.header, p))), a.fileSha, a.lines, p)
  }

  /** The loop of `write_to_postgres` over the assignments, in order. */
  function Load(t: Tables, items: seq<Assignment>): Result<Tables>
    decreases |items|
  {
    if items == [] then Ok(t)
    else
      match LoadFile(t, items[0])
      case Err(e) => Err(e)
      case Ok(t1) => Load(t1, items[1..])
  }

  /** `write_to_postgres` on the tables: the optional truncation, then the
      inserts; the transaction commits only the complete result. */
  function Write(t: Tables, items: seq<Assignment>, truncate: bool): Result<Tables> {
    Load(if truncate then NoRows else t, items)
  }

  // ---- properties of the load ----

  lemma {:induction false} LoadLinesFacts(t: Tables, fileSha: string, lines: seq<LineEntry>, p: NaiveDateTime)
    requires fileSha in t.files
    ensures LoadLines(t, fileSha, lines, p).Ok?
    ensures var t' := LoadLines(t, fileSha, lines, p).value;
      && t'.files == t.files
      && (forall k | k in t.entries :: k in t'.entries && t'.entries[k] == t.entries[k])
      && (forall e | e in lines :: e.sha in t'.entries)
      && (forall k | k in t'.entries && k !in t.entries ::
            exists e | e in lines :: e.sha == k && t'.entries[k] == EntryRowOf(e, fileSha, p))
    decreases |lines|
  {
    if lines != [] {
      var e := lines[0];
      var t1 := t.(entries := InsertAbsent(t.entries, e.sha, EntryRowOf(e, fileSha, p)));
      LoadLinesFacts(t1, fileSha, lines[1..], p);
      assert forall x | x in lines :: x == e || x in lines[1..];
    }
  }

  /** The load fails exactly when some assignment's `published` does not
      convert, and then with the conversion's `Export` error: the foreign
      key never refuses an entry, because its file row goes in first. */
  lemma {:induction false} LoadFailsOnlyOnConversion(t: Tables, items: seq<Assignment>)
    ensures Load(t, items).Ok? <==> forall i :: 0 <= i < |items| ==> ToNaiveUtc(items[i].published).Ok?
    ensures Load(t, items).Err? ==> Load(t, items).error == Export(InvalidConversion)
    decreases |items|
  {
    if items != [] {
      var a := items[0];
      if ToNaiveUtc(a.published).Ok? {
        var p := ToNaiveUtc(a.published).value;
        var t0 := t.(files := InsertAbsent(t.files, a.fileSha, FileRow(a.header, p)));
        LoadLinesFacts(t0, a.fileSha, a.lines, p);
        LoadFailsOnlyOnConversion(LoadFile(t, a).value, items[1..]);
        assert forall i :: 1 <= i < |items| ==> items[i] == items[1..][i - 1];
      }
    }
  }

  /** What a successful load leaves: every row that was there is kept
      unchanged (inserts never overwrite), every file and entry digest of
      the input has a row, every new row comes from the input, and the
      foreign key still holds. */
  lemma {:induction false} LoadContents(t: Tables, items: seq<Assignment>)
    requires Load(t, items).Ok?
    ensures var t' := Load(t, items).value;
      && (forall k | k in t.files :: k in t'.files && t'.files[k] == t.files[k])
      && (forall k | k in t.entries :: k in t'.entries && t'.entries[k] == t.entries[k])
      && (forall a | a in items :: a.fileSha in t'.files)
      && (forall a, e | a in items && e in a.lines :: e.sha in t'.entries)
      && (forall k | k in t'.files && k !in t.files ::
            exists a | a in items :: a.fileSha == k && t'.files[k].header == a.header)
      && (Referenced(t) ==> Referenced(t'))
    decreases |items|
  {
    if items != [] {
      var a := items[0];
      var p := ToNaiveUtc(a.published).value;
      var t0 := t.(files := InsertAbsent(t.files, a.fileSha, FileRow(a.header, p)));
      LoadLinesFacts(t0, a.fileSha, a.lines, p);
      var t1 := LoadFile(t, a).value;
      LoadContents(t1, items[1..]);
      assert forall x | x in items :: x == a || x in items[1..];
    }
  }

  /** Rows already present for every digest of the input make the load a
      no-op. */
  lemma {:induction false} LoadPresent(t: Tables, items: seq<Assignment>)
    requires forall i :: 0 <= i < |items| ==> ToNaiveUtc(items[i].published).Ok?
    requires forall a | a in items :: a.fileSha in t.files
    requires forall a, e | a in items && e in a.lines :: e.sha in t.entries
    ensures Load(t, items) == Ok(t)
    decreases |items|
  {
    if items != [] {
      var a := items[0];
      var p := ToNaiveUtc(a.published).value;
      assert a in items;
      assert t.(files := InsertAbsent(t.files, a.fileSha, FileRow(a.header, p))) == t;
      LoadLinesPresent(t, a.fileSha, a.lines, p);
      assert forall i :: 0 <= i < |items[1..]| ==> items[1..][i] == items[i + 1];
      LoadPresent(t, items[1..]);
    }
  }

  lemma {:induction false} LoadLinesPresent(t: Tables, fileSha: string, lines: seq<LineEntry>, p: NaiveDateTime)
    requires fileSha in t.files
    requires forall e | e in lines :: e.sha in t.entries
    ensures LoadLines(t, fileSha, lines, p) == Ok(t)
    decreases |lines|
  {
    if lines != [] {
      assert lines[0] in lines;
      assert t.(entries := InsertAbsent(t.entries, lines[0].sha, EntryRowOf(lines[0], fileSha, p))) == t;
      LoadLinesPresent(t, fileSha, lines[1..], p);
    }
  }

  /** Exporting the same assignments again without truncation changes
      nothing. */
  lemma WriteIsIdempotent(t: Tables, items: seq<Assignment>, truncate: bool)
    requires Write(t, items, truncate).Ok?
    ensures Write(Write(t, items, truncate).value, items, false) == Write(t, items, truncate)
  {
    var start := if truncate then NoRows else t;
    LoadContents(start, items);
    LoadFailsOnlyOnConversion(start, items);
    LoadPresent(Write(t, items, truncate).value, items);
  }

  /** A committed export keeps the foreign key: every entry row points at a
      file row, given that the tables did before (or were truncated). */
  lemma WriteKeepsReferences(t: Tables, items: seq<Assignment>, truncate: bool)
    requires Referenced(t) || truncate
    requires Write(t, items, truncate).Ok?
    ensures Referenced(Write(t, items, truncate).value)
  {
    LoadContents(if truncate then NoRows else t, items);
  }

  /** With no assignments only the truncation has an effect. */
  lemma WriteNothing(t: Tables, truncate: bool)
    ensures Write(t, [], truncate) == Ok(if truncate then NoRows else t)
  {
  }

  // ---- the tables in a transaction ----

  /** The two tables as the transaction sees them. */
  class Database {
    var files: map<string, FileRow>
    var entries: map<string, EntryRow>

    function Snapshot(): Tables
      reads this
    {
      Tables(files, entries)
    }

    constructor ()
      ensures Snapshot() == NoRows
    {
      files := map[];
      entries := map[];
    }

    /** `TRUNCATE TABLE bridge_entry, bridge_file`. */
    method Truncate()
      modifies this
      ensures Snapshot() == NoRows
    {
      files := map[];
      entries := map[];
    }

    /** `insert_file`: convert the time, then insert the file row unless its
        digest is taken. */
    method InsertFile(a: Assignment) returns (r: Result<()>)
      modifies this
      ensures ToNaiveUtc(a.published).Err? ==>
        r == Err(ToNaiveUtc(a.published).error) && Snapshot() == old(Snapshot())
      ensures ToNaiveUtc(a.published).Ok? ==>
        && r.Ok?
        && files == InsertAbsent(old(files), a.fileSha, FileRow(a.header, ToNaiveUtc(a.published).value))
        && entries == old(entries)
    {
      var published := ToNaiveUtc(a.published);
      if published.Err? {
        return Err(published.error);
      }
      if a.fileSha !in files {
        files := files[a.fileSha := FileRow(a.header, published.value)];
      }
      return Ok(());
    }

    /** `insert_lines`: convert the time, then one insert per entry in
        order, each refused when the file row it references is missing. */
    method InsertLines(fileSha: string, lines: seq<LineEntry>, millis: int) returns (r: Result<()>)
      modifies this
      ensures ToNaiveUtc(millis).Err? ==>
        r == Err(ToNaiveUtc(millis).error) && Snapshot() == old(Snapshot())
      ensures ToNaiveUtc(millis).Ok? ==>
        var w := LoadLines(old(Snapshot()), fileSha, lines, ToNaiveUtc(millis).value);
        && (r.Ok? <==> w.Ok?)
        && (w.Ok? ==> Snapshot() == w.value)
        && (w.Err? ==> r.error == w.error)
    {
      var published := ToNaiveUtc(millis);
      if published.Err? {
        return Err(published.error);
      }
      var p := published.value;
      for i := 0 to |lines|
        invariant LoadLines(old(Snapshot()), fileSha, lines, p) == LoadLines(Snapshot(), fileSha, lines[i..], p)
      {
        var entry := lines[i];
        if fileSha !in files {
          return Err(Database(EntryInsertFailed));
        }
        assert lines[i..][1..] == lines[i + 1..];
        if entry.sha !in entries {
          entries := entries[entry.sha := EntryRowOf(entry, fileSha, p)];
        }
      }
      assert lines[|lines|..] == [];
      return Ok(());
    }

    /** `write_to_postgres`: inside one transaction, the optional truncation
        and then each assignment's file row and entry rows; any error
        abandons the transaction and leaves the tables as they were, and
        only a complete run is committed. */
    method WriteToPostgres(items: seq<Assignment>, truncate: bool) returns (r: Result<()>)
      modifies this
      ensures var w := Write(old(Snapshot()), items, truncate);
        && (r.Ok? <==> w.Ok?)
        && (w.Ok? ==> Snapshot() == w.value)
        && (w.Err? ==> r.error == w.error && Snapshot() == old(Snapshot()))
    {
      var savedFiles, savedEntries := files, entries;
      if truncate {
        Truncate();
      }
      for i := 0 to |items|
        invariant Write(old(Snapshot()), items, truncate) == Load(Snapshot(), items[i..])
        invariant savedFiles == old(files) && savedEntries == old(entries)
      {
        var file := items[i];
        assert items[i..][1..] == items[i + 1..];
        ghost var before := Snapshot();
        var res := InsertFile(file);
        if res.Err? {
          files, entries := savedFiles, savedEntries;
          return Err(res.error);
        }
        res := InsertLines(file.fileSha, file.lines, file.published);
        if res.Err? {
          files, entries := savedFiles, savedEntries;
          return Err(res.error);
        }
        assert LoadFile(before, file) == Ok(Snapshot());
      }
      assert items[|items|..] == [];
      return Ok(());
    }
  }
}
