# Bridge pool assignment parser: a verified model of the ingest pipeline

The tool reads Tor's `bridge-pool-assignment` reports and stores their entries. This project models its deterministic core in Dafny:

- **Collector** (`src/collector/fetch.rs`): finds the newest report files in the CollecTor `index.json` tree and builds the URLs they are downloaded from.
- **Parser** (`src/transformer/parser.rs`): turns each report into a `BridgeParsedAssignment`. It takes the header time in UTC milliseconds, a SHA-256 digest of the file, and one `BridgeLineEntry` per accepted bridge line. Each entry's digest is chained to the file digest.
- **Exporters** (`src/exporter/`):
  - PostgreSQL: two tables keyed by digest, filled with insert-if-absent inside one transaction.
  - Parquet: twelve parallel columns.
  - CSV: a header and one record per entry.
  - The `Exporter` trait becomes a closed datatype of these three sinks.

Modules, one per source file:

| Module | Models |
|---|---|
| `Prelude` | UTF-8 byte encoding, `Option`, an abstract `f32` |
| `Errors` | `BridgeError` and `?` propagation over a loop |
| `Text` | the `str` methods in use |
| `Digest` | `Digest` trait |
| `Chrono` | the slice of chrono in use: calendar, `parse_from_str`, `timestamp_millis`, `from_timestamp` |
| `Parser` | `parse_line`, `extract_time`, `parse_files` |
| `Fetch` | `extract_latest_entries`, URLs |
| `Flatten` | file-then-line order shared by the Parquet and CSV sinks |
| `Pg` | `pg.rs` |
| `Parquet` | `parquet.rs` |
| `Csv` | `csv.rs` |
| `Exporter` | `mod.rs` |

How the source's code is modelled:

- **Loops become methods.** Each is proved equal to a declarative function, and the properties are proved about that function:
  - `ParseLine`, `ParseFiles`/`ParseFile`
  - `ExtractLatestEntries`/`ResolveDirectory`/`ListFiles`
  - `BuildColumns`
  - `Csv.Export`
  - `Database.InsertLines`/`WriteToPostgres`
- **In-place state becomes a class.** The database is a `class` whose two maps the methods update. The CSV writer is a class that appends records.
- **Functions with no Dafny counterpart become parameters:**
  - SHA-256 and its hex encoding are an uninterpreted function inside `Digest.Hasher`.
  - `f32` is an abstract type, with its parse and `to_string` passed in.

## Model

| member | source | states |
|---|---|---|
| Prelude.Utf8Length | src/transformer/parser.rs:102 | `len()` counts UTF-8 bytes; it equals the character count exactly when the text is ASCII |
| Text.Tokens | src/transformer/parser.rs:95 | `split_whitespace` yields only non-empty tokens without whitespace |
| Text.TokensOfUnwords | src/transformer/parser.rs:95 | splitting words joined by single spaces gives the same words back |
| Text.Split | src/transformer/parser.rs:123 | `split('=')` gives one more part than there are separators; no part holds the separator |
| Text.JoinSplit | src/collector/fetch.rs:68 | joining the parts of a split with the separator restores the text |
| Text.TrimEndMatches | src/collector/fetch.rs:23 | the result is a prefix, only the removed characters equal the trimmed one, and it no longer ends with it |
| Text.TrimStartMatches | src/collector/fetch.rs:68 | the result is a suffix, only the removed characters equal the trimmed one, and it no longer starts with it |
| Text.Lines | src/transformer/parser.rs:44 | no line returned by `lines()` contains a newline |
| Text.LinesOfTerminated | src/transformer/parser.rs:44 | text written line by line (each line followed by "\n", none ending in "\r") splits back into the same lines |
| Digest.EntryDigestChainsFileDigest | src/helper/digest.rs:17-21 | an entry digest is the digest of the line's bytes followed by the file digest's bytes |
| Chrono.EpochIsDayZero | src/collector/fetch.rs:94 | 1970-01-01 is epoch day 0 |
| Chrono.NextDayIsOneDayLater | src/transformer/parser.rs:87-90 | the next calendar day (Gregorian, leap years included) is exactly one epoch day later |
| Chrono.MarchYearLength | src/transformer/parser.rs:87-90 | consecutive March-based years differ by 365 days, or 366 when the later one is a leap year |
| Chrono.ValidDateInRange | src/transformer/parser.rs:87 | every valid date in chrono's year range has a representable day count |
| Chrono.ToNaiveDateTime | src/transformer/parser.rs:87 | a built date-time has an in-range day, a second of the day below 86400, and whole seconds only |
| Chrono.ParsedMillisAreWholeSeconds | src/transformer/parser.rs:87-90 | whatever `parse_from_str` accepts has a millisecond count divisible by 1000 |
| Chrono.DigitsValueOfDigits | src/transformer/parser.rs:87 | a zero-padded numeral of width w reads back as its value |
| Chrono.ParseFormattedSeconds | src/transformer/parser.rs:87 | "%Y-%m-%d %H:%M:%S" parses a printed valid date and time back to that date and time |
| Chrono.ParseFormattedMinutes | src/collector/fetch.rs:93 | "%Y-%m-%d %H:%M" parses a printed valid date and time back, with second 0 |
| Chrono.FromTimestamp | src/exporter/pg.rs:153 | `from_timestamp` succeeds exactly when the day is representable and the nanoseconds are below one second, or below two on a leap second |
| Chrono.FromTimestampMillis | src/exporter/pg.rs:151-153 | the date-time built counts back to `secs*1000 + nsecs/1e6` milliseconds |
| Chrono.FromTimestampOfDateTime | src/exporter/pg.rs:151-156 | a whole-second date-time is rebuilt unchanged from its own second count |
| Parser.FingerprintIsFortyBytes | src/transformer/parser.rs:10 | every string the fingerprint regex accepts passes the 40-byte length check |
| Parser.KeyValue | src/transformer/parser.rs:123-124 | a token yields a key and a value exactly when it holds exactly one '=', and neither part holds '=' |
| Parser.KeyValueJoins | src/transformer/parser.rs:123-124 | a token that yields a key and a value is key, '=', value |
| Parser.KeyValueOf | src/transformer/parser.rs:123-124 | key "=" value, with no '=' in either, yields exactly that key and value |
| Parser.LastValueIsLastWrite | src/transformer/parser.rs:122-136 | for a repeated key the last write wins |
| Parser.LastValueAbsent | src/transformer/parser.rs:122-136 | an optional field is absent exactly when no token writes its key |
| Parser.Distributed | src/transformer/parser.rs:130 | `distributed` is present exactly when written, and true exactly for the text "true" |
| Parser.ParseLine | src/transformer/parser.rs:94-139 | the loop's result is the declarative outcome: "Insufficient parts" under two tokens, "Invalid fingerprint length" for a first token that is not 40 bytes, otherwise the empty digest with tokens 1 and 2 |
| Parser.LineOutcomeCases | src/transformer/parser.rs:95-136 | a line is refused exactly for too few tokens or a wrong-length first token; an accepted one carries its first two tokens and, for each of the seven options, the last value written (`distributed` and `ratio` after conversion) |
| Parser.TwoTokensNoOptions | src/transformer/parser.rs:106-119 | a line of exactly two tokens has every optional field absent |
| Parser.EntryOfAppend | src/transformer/parser.rs:122-135 | one more option token sets the field its known key names (`distributed` to "is the text true", `ratio` to the float parse) and leaves the entry unchanged for any other token |
| Parser.LastValueAppend | src/transformer/parser.rs:122-136 | over two runs of tokens, the last write is the one in the second run if there is one, else the one in the first |
| Parser.IgnoredTokenChangesNothing | src/transformer/parser.rs:122-135 | a token that is not a single key=value of a known key changes nothing, wherever it appears |
| Parser.ExtractTime | src/transformer/parser.rs:81-91 | a header without exactly three tokens is a `Parse` error; every error is `Parse`; every time is a whole number of seconds |
| Parser.ExtractTimeOfHeader | src/transformer/parser.rs:81-90 | tag, printed date and printed time give that instant's UTC milliseconds |
| Parser.ExampleStamp | src/transformer/parser.rs:81-85 | the header "bridge-pool-assignment 2024-01-15 03:00:00" is the tag, "2024-01-15" and "03:00:00" joined by spaces |
| Parser.ExampleHeaderTime | src/transformer/parser.rs:81-90 | that header gives 1705287600000 |
| Parser.FindHeader | src/transformer/parser.rs:46-49 | the header is the first line that starts with the tag, and there is none exactly when no line does |
| Parser.ParseFiles | src/transformer/parser.rs:40-78 | the loop's result is the declarative outcome over all files |
| Parser.ParseFile | src/transformer/parser.rs:43-74 | the loop over one file's lines gives the declarative outcome for that file |
| Parser.FilesOutcomeOk | src/transformer/parser.rs:40-78 | the batch succeeds exactly when every file does, with one assignment per file in input order |
| Parser.FilesOutcomeFirstError | src/transformer/parser.rs:49-51 | a failed batch returns the error of its first failing file, with no partial output |
| Parser.MissingHeader | src/transformer/parser.rs:46-49 | "missing header line" exactly when no line starts with the tag |
| Parser.ParsedFileHeader | src/transformer/parser.rs:46-54 | the header is the first tagged line, verbatim; `published` is its time, a multiple of 1000; the file digest is over the raw bytes |
| Parser.ParsedFileEntries | src/transformer/parser.rs:56-67 | entries are exactly the lines after line 0 that parse and pass the regex, each with its chained digest |
| Parser.EntriesFollowLineOrder | src/transformer/parser.rs:57-63 | the entries of two runs of lines are the entries of the first run, then those of the second |
| Parser.HeaderLineNeverEntry | src/transformer/parser.rs:57-63 | a line starting with the header tag never becomes an entry |
| Parser.RegexDropsLine | src/transformer/parser.rs:60 | a line whose first token is forty ASCII characters, the first not a hex digit, parses but gives no entry |
| Parser.RefusedByLength | src/transformer/parser.rs:101-104 | a first token of ASCII characters but not forty of them is refused with "Invalid fingerprint length" |
| Parser.FingerprintAndMethodOnly | src/transformer/parser.rs:94-139 | a regex-valid fingerprint and a method alone are accepted, with those two tokens and no option |
| Parser.ExampleNonHexFingerprint | src/transformer/parser.rs:101-104 | forty non-hex characters pass `parse_line`'s length check but are dropped by the regex |
| Parser.ExampleShortFingerprint | tests/parser_test.rs:33-39 | "INVALID12345 vanilla transport=obfs4" is refused with `InvalidLine` |
| Parser.ExampleInvalidFingerprint | tests/parser_test.rs:55-60 | "invalid_fingerprint email" is refused with `InvalidLine` |
| Parser.ExampleBareLine | tests/parser_test.rs:42-52 | a fingerprint and "vanilla" alone are accepted, with method "vanilla" and no transport |
| Fetch.RawFileOf | src/collector/fetch.rs:49-58 | a fetched file's bytes are the UTF-8 encoding of its decoded text |
| Fetch.TrailingSlashesIgnored | src/collector/fetch.rs:23 | trailing slashes on the base change neither the index URL nor any file URL |
| Fetch.UrlsJoinWithOneSlash | src/collector/fetch.rs:41 | both URLs are the trimmed base (never ending in '/'), one slash, then the rest |
| Fetch.Segments | src/collector/fetch.rs:68 | there is always at least one segment, and none contains '/' |
| Fetch.SegmentsJoin | src/collector/fetch.rs:68 | the segments joined with '/' are the target without leading and trailing slashes |
| Fetch.FindDir | src/collector/fetch.rs:75-76 | finds the first element whose `path` is the segment (every earlier one has another path), and none exactly when no element has it |
| Fetch.ResolveNamesDirectory | src/collector/fetch.rs:69-84 | the directory reached is named by the last segment; the only errors are "Expected array…" and "Directory '<segment>' not found" |
| Fetch.MissingModifiedIsEpoch | src/collector/fetch.rs:92-96 | a missing, non-string or unreadable `last_modified` gives timestamp 0, not an error |
| Fetch.DefaultIsEpoch | src/collector/fetch.rs:92-94 | the default text "1970-01-01 00:00" parses to the epoch |
| Fetch.ListingsOk | src/collector/fetch.rs:89-100 | the listing succeeds exactly when every file has a string `path`; it then lists every file in index order, as target/path with its timestamp |
| Fetch.ListingMissingPath | src/collector/fetch.rs:90 | the first file without a string `path` fails the call with "file missing 'path'" |
| Fetch.InsertKeepsOrder | src/collector/fetch.rs:102 | inserting into a newest-first list keeps it newest-first and adds exactly that element |
| Fetch.SortIsNewestFirstPermutation | src/collector/fetch.rs:102 | the sort is newest first and a permutation of its input |
| Fetch.SortIsStable | src/collector/fetch.rs:102 | files with equal timestamps keep their index order |
| Fetch.Take | src/collector/fetch.rs:103 | `take(limit)` gives the first min(limit, n) elements |
| Fetch.LatestEntriesAreNewest | src/collector/fetch.rs:102-103 | the result holds min(limit, n) files, newest first, drawn from the listing; no file left out is newer than a kept one; it is a prefix of the stable sort |
| Fetch.LatestEntriesFail | src/collector/fetch.rs:72-90 | any error of the descent or the listing is the error of the call |
| Fetch.DownloadUrls | src/collector/fetch.rs:37-41 | the download list fails exactly when the listing does, and never holds more than 10 URLs |
| Fetch.ListedUnderFolder | src/collector/fetch.rs:97 | every listed path is the folder without trailing slashes, one slash, then the file's path |
| Fetch.DownloadUrlsAreListedPaths | src/collector/fetch.rs:37-41 | each URL is the file URL of the matching newest entry, and that entry lies under the folder |
| Fetch.ExtractLatestEntries | src/collector/fetch.rs:65-104 | the method's result is the declarative descent, listing, stable sort and take |
| Fetch.ResolveDirectory | src/collector/fetch.rs:69-84 | the descent loop, with its early break and error returns, gives the declarative resolution |
| Fetch.ListFiles | src/collector/fetch.rs:89-100 | the per-file loop gives the listing, or the first error |
| Pg.TruncDiv | src/exporter/pg.rs:151 | Rust's `/` rounds toward zero: the remainder `a - b*q` has the dividend's sign and is smaller than `b` in magnitude |
| Pg.TruncMod | src/exporter/pg.rs:152 | Rust's `%` takes the dividend's sign, with a == b*q + r |
| Pg.AsU32 | src/exporter/pg.rs:152 | `as u32` gives the value below 2^32 congruent to the input modulo 2^32, so values that already fit are kept |
| Pg.ToNaiveUtc | src/exporter/pg.rs:148-157 | a rejected conversion is the `Export` error "Invalid timestamp conversion" |
| Pg.ToNaiveUtcNonNegative | src/exporter/pg.rs:148-156 | for ms >= 0: accepted exactly when the day is representable; the date-time counts back to ms with a fraction below one second |
| Pg.ToNaiveUtcOfDateTime | src/exporter/pg.rs:148-156 | the milliseconds of a whole-second date-time convert back to it |
| Pg.NegativeFractionRejected | src/exporter/pg.rs:151-154 | a negative ms that is not a whole second wraps in `as u32` and is rejected |
| Pg.InsertAbsent | src/exporter/pg.rs:88-89 | `ON CONFLICT DO NOTHING`: a taken key leaves the table as it was; a free key gets the new row; existing rows are unchanged and nothing else is added |
| Pg.LoadLinesFacts | src/exporter/pg.rs:105-142 | with the file row present, every entry insert succeeds; old rows stay; every entry digest has a row; each new row comes from a line with the file's digest and time |
| Pg.LoadFailsOnlyOnConversion | src/exporter/pg.rs:36-39 | the load fails exactly when some `published` does not convert, and then with the `Export` error; the foreign key never refuses a row |
| Pg.LoadContents | src/exporter/pg.rs:36-39 | after a load, old rows are kept unchanged, every digest of the input has a row, new file rows come from the input, and the foreign key still holds |
| Pg.LoadPresent | src/exporter/pg.rs:88-89 | when every digest already has a row, the load changes nothing |
| Pg.LoadLinesPresent | src/exporter/pg.rs:118-124 | entry inserts whose digests all exist change nothing |
| Pg.WriteIsIdempotent | src/exporter/pg.rs:30-39 | exporting the same data again without truncation leaves the tables as they were |
| Pg.WriteKeepsReferences | src/exporter/pg.rs:30-39 | every entry's `file_sha` stays a key of `bridge_file` |
| Pg.WriteNothing | src/exporter/pg.rs:30-39 | with no items, the tables are unchanged apart from the optional truncation |
| Pg.Database.Truncate | src/exporter/pg.rs:30-34 | both tables are empty afterwards |
| Pg.Database.InsertFile | src/exporter/pg.rs:85-96 | converts the time, then inserts the file row if absent; a failed conversion changes nothing |
| Pg.Database.InsertLines | src/exporter/pg.rs:99-145 | the insert loop leaves the tables the declarative load gives, or returns its error |
| Pg.Database.WriteToPostgres | src/exporter/pg.rs:8-46 | on success the tables are the declarative write; on any error both tables are as they were before the call |
| Flatten.RowsOf | src/exporter/parquet.rs:67-72 | one row per line of an assignment, carrying the file's digest and time |
| Flatten.RowsCount | src/exporter/parquet.rs:63 | the number of rows is the total number of entries |
| Flatten.RowsLocate | src/exporter/parquet.rs:66-72 | row `TotalEntries(data[..i]) + j` is line j of file i |
| Flatten.RowsComeFromLines | src/exporter/parquet.rs:66-72 | every row is some line of some file |
| Parquet.SchemaShape | src/exporter/parquet.rs:35-48 | twelve fields; the first five are not nullable, the last seven are |
| Parquet.ColumnsStep | src/exporter/parquet.rs:66-81 | one more row appends exactly its values, one to the end of each of the twelve columns |
| Parquet.ColumnsAreRows | src/exporter/parquet.rs:66-81 | every column has one value per row, and position k holds row k's fields, with an absent field as null |
| Parquet.BatchLayout | src/exporter/parquet.rs:63-81 | all twelve columns hold the total entry count; line j of file i sits at `TotalEntries(data[..i]) + j` |
| Parquet.BuildColumns | src/exporter/parquet.rs:50-81 | the nested push loop builds exactly the declarative columns |
| Parquet.Export | src/exporter/parquet.rs:27-100 | no assignments: nothing to write; otherwise the batch of the schema and all entries' columns |
| Parquet.NoLinesGivesEmptyBatch | src/exporter/parquet.rs:30-33 | assignments without lines still give a batch, with zero rows |
| Parquet.ExportDisabled | src/exporter/parquet.rs:120-127 | without the feature, the call always fails with the `Export` error naming the feature |
| Csv.RowOf | src/exporter/csv.rs:26-37 | each data record has the ten fields of an entry |
| Csv.WrittenHeaderNarrowerThanRows | src/exporter/csv.rs:18-37 | as written, the header has two names and the first data record has ten fields |
| Csv.RecordsAreUniform | src/exporter/csv.rs:26-37 | under the ten-name header every record has ten fields |
| Csv.RecordsDifferInHeaderOnly | src/exporter/csv.rs:18-39 | the written and the corrected records differ only in the header |
| Csv.RecordsCount | src/exporter/csv.rs:18-39 | the written file has one data record per entry, and only the two-name header when there is none |
| Csv.RecordsLayout | src/exporter/csv.rs:24-37 | in the written file, the data record for line j of file i is that entry's record |
| Csv.ReadRowOfRow | src/exporter/csv.rs:26-37 | a record reads back to its entry unless a text field was present but empty, or the ratio's text does not read back |
| Csv.EmptyAndAbsentAlike | src/exporter/csv.rs:30-35 | an absent field and a present empty one give the same record |
| Csv.CsvWriter.WriteRecord | src/exporter/csv.rs:26 | appends the record to what the writer holds |
| Csv.Export | src/exporter/csv.rs:13-43 | the nested loop writes the two-name header and then the records, in file-then-line order: the records as written |
| Exporter.Export | src/exporter/mod.rs:14-16 | each sink's outcome: PostgreSQL commits the write or leaves the tables unchanged; CSV writes its records as written, with the two-name header; Parquet writes its batch, or fails when not compiled in; only PostgreSQL touches the database |

## Left out

- HTTP and retries are not modelled: the reqwest client, timeout, status check, JSON decoding of the index response and the `tokio_retry` backoff. This is network I/O. The index is a parameter (`Fetch.Json`), and so is each file's decoded text (`Fetch.RawFileOf`).
- Per-file HTTP responses are never status-checked by the source; a model of the network would be needed to say more.
- JSON numbers are kept as integers. The index's numbers are never read.
- SHA-256 and hex encoding are an uninterpreted function (`Digest.Hasher`). Only how each input is built is modelled, and collision-freedom is not assumed.
- Floating point is not modelled:
  - `ratio`'s `f32` parse is an abstract partial function;
  - `f32::to_string` is an abstract function;
  - the `f32` to `f64` widening in the Parquet sink keeps the `f32` value.
- Parser.ExtractTime: its contract says only that every error is `Parse`. chrono's error text after "Invalid timestamp: " is not reproduced, so the model's message is "Invalid timestamp".
- The full sample line of tests/parser_test.rs:12 has no example lemma. The shorter test lines do.
- Chrono implements only what the two formats in use need. Other chrono errors are not modelled, and neither are other format items.
- chrono decides whether to accept the `as u32` wrap of a negative remainder. For negative ms, only `Pg.NegativeFractionRejected` is stated: a negative millisecond count that is not a whole second is rejected.
- PostgreSQL I/O is not modelled: the connection, the detached error monitor, the runtime, `CREATE TABLE` and the failure of any statement other than the conversion. The database's own error texts are not modelled either. The tables are two maps.
- The entry insert's foreign-key failure is modelled as `Database("Insert into bridge_entry failed")`, without the server's detail. `Pg.LoadFailsOnlyOnConversion` proves that it cannot occur.
- File writers are not modelled: `File::create`, the Arrow `RecordBatch`/`ArrowWriter` calls, `flush`, CSV quoting, and the csv crate's refusal of records whose length differs from the first. The sinks' results are the records or the batch that would be written.
- `Fetch.SortNewestFirst` is a function on a sequence, not an in-place sort. It is an insertion sort with the same stability as `sort_by`.
- Wiring is not modelled: the CLI, `--limit`, configuration, local directory listing (`src/collector/local.rs`), the identity `convert_to_assignments` and the module files.

## Findings

| source | as written | input that shows it | evidently intended | confidence | as-written member | corrected member |
|---|---|---|---|---|---|---|
| src/exporter/csv.rs:18-22 | the header record names two columns, `file_sha` and `published_timestamp`, while every data record has the ten entry fields | one assignment with one entry: the header has 2 fields and the next record has 10, which the default (non-flexible) csv writer refuses | a header naming the ten fields each record carries | medium, not executed | Csv.RecordsAsWritten, Csv.WrittenHeaderNarrowerThanRows | Csv.Records, Csv.RecordsAreUniform |
