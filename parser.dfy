/** The report parser (src/transformer/parser.rs): a bridge-pool-assignment
    report is a header line "bridge-pool-assignment <date> <time>" followed by
    one line per bridge, "<fingerprint> <method> [key=value]*". */
module Parser {
  import opened Prelude
  import opened Errors
  import opened Text
  import opened Digest
  import Chrono
  import opened Fetch

  /** The token a header line starts with. */
  const HeaderTag: string := "bridge-pool-assignment"

  /** `BridgeLineEntry`: one bridge of a report. */
  datatype LineEntry = LineEntry(
    sha: string,
    fingerprint: string,
    distributionMethod: string,
    transport: Option<string>,
    ip: Option<string>,
    blocklist: Option<string>,
    distributed: Option<bool>,
    state: Option<string>,
    bandwidth: Option<string>,
    ratio: Option<F32>)

  /** `BridgeParsedAssignment`: one parsed report file. */
  datatype Assignment = Assignment(
    fileSha: string,
    published: int,
    header: string,
    lines: seq<LineEntry>)

  // ---- fingerprints ----

  predicate IsHexDigit(c: char) {
    '0' <= c <= '9' || 'a' <= c <= 'f' || 'A' <= c <= 'F'
  }

  /** FINGERPRINT_REGEX, `^[a-fA-F0-9]{40}$`: exactly forty hex digits. */
  predicate IsFingerprint(s: string) {
    |s| == 40 && forall i :: 0 <= i < |s| ==> IsHexDigit(s[i])
  }

  /** The regex is stricter than the length check in `parse_line`: a string it
      accepts is forty bytes long. */
  lemma FingerprintIsFortyBytes(s: string)
    requires IsFingerprint(s)
    ensures |Utf8(s)| == 40
  {
    assert IsAscii(s) by {
      forall i | 0 <= i < |s| ensures s[i] as int < 0x80 {
        assert IsHexDigit(s[i]);
      }
    }
    Utf8Length(s);
  }

  // ---- key=value tokens ----

  /** A token splits into a key and a value when it holds exactly one '='. */
  function KeyValue(token: string): (kv: Option<(string, string)>)
    ensures kv.Some? <==> multiset(token)['='] == 1
    ensures kv.Some? ==> '=' !in kv.value.0 && '=' !in kv.value.1
  {
    var parts := Split(token, '=');
    if |parts| == 2 then
      assert parts[0] in parts && parts[1] in parts;
      Some((parts[0], parts[1]))
    else None
  }

  /** Key and value are exactly the text on either side of the '='. */
  lemma KeyValueJoins(token: string)
    requires KeyValue(token).Some?
    ensures token == KeyValue(token).value.0 + "=" + KeyValue(token).value.1
  {
    var parts := Split(token, '=');
    JoinSplit(token, '=');
    assert parts[1..] == [parts[1]];
  }

  /** Conversely a key and a value without '=' come back from their
      `key=value` token. */
  lemma KeyValueOf(key: string, value: string)
    requires '=' !in key && '=' !in value
    ensures KeyValue(key + "=" + value) == Some((key, value))
  {
    var token := key + "=" + value;
    assert token[|key|] == '=';
    IndexOfJoin(key, "=" + value, '=');
    assert token[..|key|] == key;
    assert token[|key| + 1..] == value;
    assert Split(value, '=') == [value];
    assert Split(token, '=') == [key, value];
  }

  predicate Writes(token: string, key: string) {
    KeyValue(token).Some? && KeyValue(token).value.0 == key
  }

  /** The value of the last token that writes `key`, if any does. */
  function LastValue(tokens: seq<string>, key: string): Option<string> {
    if tokens == [] then None
    else
      var last := tokens[|tokens| - 1];
      if Writes(last, key) then Some(KeyValue(last).value.1)
      else LastValue(tokens[..|tokens| - 1], key)
  }

  /** Last write wins: `LastValue` is the value of the write that no later
      token overrides, and absent exactly when no token writes the key. */
  lemma {:induction false} LastValueIsLastWrite(tokens: seq<string>, key: string, i: nat)
    requires i < |tokens| && Writes(tokens[i], key)
    requires forall j :: i < j < |tokens| ==> !Writes(tokens[j], key)
    ensures LastValue(tokens, key) == Some(KeyValue(tokens[i]).value.1)
    decreases |tokens|
  {
    var n := |tokens| - 1;
    var prefix := tokens[..n];
    assert tokens == prefix + [tokens[n]];
    LastValueAppendOne(prefix, tokens[n], key);
    if i < n {
      assert prefix[i] == tokens[i];
      forall j | i < j < |prefix|
        ensures !Writes(prefix[j], key)
      {
        assert prefix[j] == tokens[j];
      }
      LastValueIsLastWrite(prefix, key, i);
    }
  }

  lemma {:induction false} LastValueAbsent(tokens: seq<string>, key: string)
    ensures LastValue(tokens, key).None? <==> forall j :: 0 <= j < |tokens| ==> !Writes(tokens[j], key)
    decreases |tokens|
  {
    if tokens != [] {
      var n := |tokens| - 1;
      var prefix := tokens[..n];
      LastValueAbsent(prefix, key);
      assert forall j :: 0 <= j < n ==> prefix[j] == tokens[j];
    }
  }

  // ---- parse_line ----

  /** `distributed` is true only for the exact text "true". */
  function Distributed(v: Option<string>): (r: Option<bool>)
    ensures r.Some? <==> v.Some?
    ensures r == Some(true) <==> v == Some("true")
  {
    match v
    case None => None
    case Some(s) => Some(s == "true")
  }

  /** `ratio` keeps what the float parse of the last value yields, so an
      unparsable last value leaves no ratio. */
  function Ratio(v: Option<string>, parseF32: F32Parse): Option<F32> {
    match v
    case None => None
    case Some(s) => parseF32(s)
  }

  /** The entry with the given fingerprint and method whose optional fields
      hold the last value written for each key among `options`. */
  function EntryOf(fingerprint: string, distributionMethod: string, options: seq<string>, parseF32: F32Parse): LineEntry {
    LineEntry("", fingerprint, distributionMethod,
      LastValue(options, "transport"),
      LastValue(options, "ip"),
      LastValue(options, "blocklist"),
      Distributed(LastValue(options, "distributed")),
      LastValue(options, "state"),
      LastValue(options, "bandwidth"),
      Ratio(LastValue(options, "ratio"), parseF32))
  }

  /** What `parse_line` returns, stated declaratively: too few tokens or a
      first token that is not forty bytes long is an `InvalidLine`; otherwise
      the entry of the first two tokens and the options after them. */
  function LineOutcome(line: string, parseF32: F32Parse): Result<LineEntry> {
    var parts := Tokens(line);
    if |parts| < 2 then Err(InvalidLine("Insufficient parts"))
    else if |Utf8(parts[0])| != 40 then Err(InvalidLine("Invalid fingerprint length"))
    else Ok(EntryOf(parts[0], parts[1], parts[2..], parseF32))
  }

  /** `parse_line`: the entry is built field by field while walking the
      options from left to right. */
  method ParseLine(line: string, parseF32: F32Parse) returns (r: Result<LineEntry>)
    ensures r == LineOutcome(line, parseF32)
    ensures |Tokens(line)| < 2 ==> r == Err(InvalidLine("Insufficient parts"))
    ensures |Tokens(line)| >= 2 && |Utf8(Tokens(line)[0])| != 40 ==> r == Err(InvalidLine("Invalid fingerprint length"))
    ensures r.Ok? ==> r.value.sha == "" && r.value.fingerprint == Tokens(line)[0]
                      && r.value.distributionMethod == Tokens(line)[1]
  {
    var parts := Tokens(line);
    if |parts| < 2 {
      return Err(InvalidLine("Insufficient parts"));
    }
    var fingerprint := parts[0];
    if |Utf8(fingerprint)| != 40 {
      return Err(InvalidLine("Invalid fingerprint length"));
    }
    var distributionMethod := parts[1];
    var entry := LineEntry("", fingerprint, distributionMethod, None, None, None, None, None, None, None);
    var options := parts[2..];
    for i := 0 to |options|
      invariant entry == EntryOf(fingerprint, distributionMethod, options[..i], parseF32)
    {
      assert options[..i + 1] == options[..i] + [options[i]];
      EntryOfAppend(fingerprint, distributionMethod, options[..i], options[i], parseF32);
      var kv := Split(options[i], '=');
      if |kv| != 2 {
        continue;
      }
      var key, value := kv[0], kv[1];
      if key == "transport" {
        entry := entry.(transport := Some(value));
      } else if key == "ip" {
        entry := entry.(ip := Some(value));
      } else if key == "blocklist" {
        entry := entry.(blocklist := Some(value));
      } else if key == "distributed" {
        entry := entry.(distributed := Some(value == "true"));
      } else if key == "state" {
        entry := entry.(state := Some(value));
      } else if key == "bandwidth" {
        entry := entry.(bandwidth := Some(value));
      } else if key == "ratio" {
        entry := entry.(ratio := parseF32(value));
      } else {
        continue;
      }
    }
    assert options[..|options|] == options;
    return Ok(entry);
  }

  /** One more option token: if it is a `key=value` pair with a known key,
      that field takes its value; otherwise the entry stays as it was. */
  lemma EntryOfAppend(fingerprint: string, distributionMethod: string, options: seq<string>,
                      token: string, parseF32: F32Parse)
    ensures var e, e', kv := EntryOf(fingerprint, distributionMethod, options, parseF32),
                             EntryOf(fingerprint, distributionMethod, options + [token], parseF32),
                             Split(token, '=');
      && (|kv| != 2 ==> e' == e)
      && (|kv| == 2 ==>
            var key, value := kv[0], kv[1];
            if key == "transport" then e' == e.(transport := Some(value))
            else if key == "ip" then e' == e.(ip := Some(value))
            else if key == "blocklist" then e' == e.(blocklist := Some(value))
            else if key == "distributed" then e' == e.(distributed := Some(value == "true"))
            else if key == "state" then e' == e.(state := Some(value))
            else if key == "bandwidth" then e' == e.(bandwidth := Some(value))
            else if key == "ratio" then e' == e.(ratio := parseF32(value))
            else e' == e)
  {
    var kv := Split(token, '=');
    assert KeyValue(token) == if |kv| == 2 then Some((kv[0], kv[1])) else None;
    LastValueAppendOne(options, token, "transport");
    LastValueAppendOne(options, token, "ip");
    LastValueAppendOne(options, token, "blocklist");
    LastValueAppendOne(options, token, "distributed");
    LastValueAppendOne(options, token, "state");
    LastValueAppendOne(options, token, "bandwidth");
    LastValueAppendOne(options, token, "ratio");
  }

  lemma LastValueAppendOne(options: seq<string>, token: string, key: string)
    ensures LastValue(options + [token], key)
         == if Writes(token, key) then Some(KeyValue(token).value.1) else LastValue(options, key)
  {
    var all := options + [token];
    assert all[..|all| - 1] == options;
  }

  /** The line-level rules in one place: a line is refused for too few
      tokens or a first token of the wrong byte length, and nothing else; an
      accepted line carries its first two tokens, no digest yet, and for
      every option the last value written. */
  lemma LineOutcomeCases(line: string, parseF32: F32Parse)
    ensures var parts := Tokens(line);
      && (LineOutcome(line, parseF32).Err? <==> |parts| < 2 || |Utf8(parts[0])| != 40)
      && (LineOutcome(line, parseF32).Ok? ==>
            var e := LineOutcome(line, parseF32).value;
            && e.sha == "" && e.fingerprint == parts[0] && e.distributionMethod == parts[1]
            && e.transport == LastValue(parts[2..], "transport")
            && e.ip == LastValue(parts[2..], "ip")
            && e.blocklist == LastValue(parts[2..], "blocklist")
            && e.state == LastValue(parts[2..], "state")
            && e.bandwidth == LastValue(parts[2..], "bandwidth")
            && e.distributed == Distributed(LastValue(parts[2..], "distributed"))
            && e.ratio == Ratio(LastValue(parts[2..], "ratio"), parseF32))
  {
  }

  /** A line of exactly two tokens carries no optional field at all. */
  lemma TwoTokensNoOptions(line: string, parseF32: F32Parse)
    requires |Tokens(line)| == 2 && |Utf8(Tokens(line)[0])| == 40
    ensures LineOutcome(line, parseF32).Ok?
    ensures var e := LineOutcome(line, parseF32).value;
      e.transport.None? && e.ip.None? && e.blocklist.None? && e.distributed.None?
      && e.state.None? && e.bandwidth.None? && e.ratio.None?
  {
    assert Tokens(line)[2..] == [];
  }

  /** A token that is not a single `key=value` pair, or whose key is not one
      of the seven known ones, changes nothing wherever it appears. */
  lemma IgnoredTokenChangesNothing(fingerprint: string, distributionMethod: string,
                                   before: seq<string>, token: string, after: seq<string>, parseF32: F32Parse)
    requires forall key | key in ["transport", "ip", "blocklist", "distributed", "state", "bandwidth", "ratio"] :: !Writes(token, key)
    ensures EntryOf(fingerprint, distributionMethod, before + [token] + after, parseF32)
         == EntryOf(fingerprint, distributionMethod, before + after, parseF32)
  {
    LastValueSkips(before, token, after, "transport");
    LastValueSkips(before, token, after, "ip");
    LastValueSkips(before, token, after, "blocklist");
    LastValueSkips(before, token, after, "distributed");
    LastValueSkips(before, token, after, "state");
    LastValueSkips(before, token, after, "bandwidth");
    LastValueSkips(before, token, after, "ratio");
  }

  lemma LastValueSkips(before: seq<string>, token: string, after: seq<string>, key: string)
    requires !Writes(token, key)
    ensures LastValue(before + [token] + after, key) == LastValue(before + after, key)
  {
    LastValueAppend(before + [token], after, key);
    LastValueAppend(before, [token], key);
    LastValueAppend(before, after, key);
    assert [token][..0] == [];
  }

  /** The last write in `a + b` is the last in `b`, or else the last in `a`. */
  lemma {:induction false} LastValueAppend(a: seq<string>, b: seq<string>, key: string)
    ensures LastValue(a + b, key) == if LastValue(b, key).Some? then LastValue(b, key) else LastValue(a, key)
    decreases |b|
  {
    if b == [] {
      assert a + b == a;
    } else {
      var n := |b| - 1;
      assert (a + b)[..|a| + n] == a + b[..n];
      assert (a + b)[|a| + n] == b[n];
      LastValueAppend(a, b[..n], key);
    }
  }

  // ---- extract_time ----

  /** `extract_time`: the header must be exactly three tokens; the second and
      third, joined by a space, are read as "%Y-%m-%d %H:%M:%S" and the
      instant is returned as milliseconds since the epoch in UTC. */
  function ExtractTime(line: string): (r: Result<int>)
    ensures |Tokens(line)| != 3 ==> r == Err(Parse("invalid header timestamp format"))
    ensures r.Err? ==> r.error.Parse?
    ensures r.Ok? ==> r.value % 1000 == 0
  {
    var parts := Tokens(line);
    if |parts| != 3 then Err(Parse("invalid header timestamp format"))
    else
      var stamp := parts[1] + " " + parts[2];
      match Chrono.ParseFromStr(stamp, Chrono.HeaderFormat)
      case None => Err(Parse("Invalid timestamp"))
      case Some(dt) =>
        Chrono.ParsedMillisAreWholeSeconds(stamp, Chrono.HeaderFormat);
        Ok(Chrono.TimestampMillis(dt))
  }

  lemma DigitsAreWord(v: nat, w: nat)
    requires w > 0
    ensures IsWord(Chrono.Digits(v, w))
  {
    var ds := Chrono.Digits(v, w);
    forall i | 0 <= i < |ds| ensures !IsWhitespace(ds[i]) {
      assert Chrono.IsDigit(ds[i]);
    }
  }

  lemma StampIsWord(a: string, sep: char, b: string)
    requires IsWord(a) && IsWord(b) && !IsWhitespace(sep)
    ensures IsWord(a + [sep] + b)
  {
    var s := a + [sep] + b;
    forall i | 0 <= i < |s| ensures !IsWhitespace(s[i]) {
      if i < |a| { assert s[i] == a[i]; }
      else if i > |a| { assert s[i] == b[i - |a| - 1]; }
    }
  }

  /** A header written as "<tag> YYYY-MM-DD HH:MM:SS" for a valid date with a
      four-digit year reads back as that instant. */
  lemma ExtractTimeOfHeader(tag: string, y: nat, m: nat, d: nat, h: nat, mi: nat, s: nat)
    requires IsWord(tag)
    requires Chrono.ValidDate(y, m, d) && y < 10000 && h < 24 && mi < 60 && s < 60
    ensures ExtractTime(tag + " " + Chrono.FormatDate(y, m, d) + " " + Chrono.FormatSeconds(h, mi, s))
         == Ok(Chrono.TimestampMillis(Chrono.NaiveDateTime(Chrono.EpochDays(y, m, d), h * 3600 + mi * 60 + s, 0)))
  {
    var date, time := Chrono.FormatDate(y, m, d), Chrono.FormatSeconds(h, mi, s);
    DigitsAreWord(y, 4);
    DigitsAreWord(m, 2);
    DigitsAreWord(d, 2);
    DigitsAreWord(h, 2);
    DigitsAreWord(mi, 2);
    DigitsAreWord(s, 2);
    StampIsWord(Chrono.Digits(y, 4), '-', Chrono.Digits(m, 2));
    StampIsWord(Chrono.Digits(y, 4) + "-" + Chrono.Digits(m, 2), '-', Chrono.Digits(d, 2));
    StampIsWord(Chrono.Digits(h, 2), ':', Chrono.Digits(mi, 2));
    StampIsWord(Chrono.FormatMinutes(h, mi), ':', Chrono.Digits(s, 2));
    var ts := [tag, date, time];
    assert Unwords(ts) == tag + " " + date + " " + time by {
      assert ts[1..][1..] == [time];
      assert Unwords(ts[1..]) == date + " " + time;
    }
    TokensOfUnwords(ts);
    Chrono.ParseFormattedSeconds(y, m, d, h, mi, s);
  }

  /** The header "bridge-pool-assignment 2024-01-15 03:00:00" (the tag, the
      date and the clock joined by spaces, see ExampleStamp) is published at
      2024-01-15T03:00:00Z, 1705287600000 ms after the epoch. */
  lemma ExampleHeaderTime()
    ensures ExtractTime(HeaderTag + " " + Chrono.FormatDate(2024, 1, 15) + " " + Chrono.FormatSeconds(3, 0, 0))
         == Ok(1705287600000)
  {
    ExampleHeaderReads();
    ExampleMillis();
  }

  /** The same header read as the UTC date-time it writes. */
  lemma ExampleHeaderReads()
    ensures ExtractTime(HeaderTag + " " + Chrono.FormatDate(2024, 1, 15) + " " + Chrono.FormatSeconds(3, 0, 0))
         == Ok(Chrono.TimestampMillis(Chrono.NaiveDateTime(Chrono.EpochDays(2024, 1, 15), 3 * 3600 + 0 * 60 + 0, 0)))
  {
    HeaderTagIsWord();
    ExtractTimeOfHeader(HeaderTag, 2024, 1, 15, 3, 0, 0);
  }

  lemma HeaderTagIsWord()
    ensures IsWord(HeaderTag)
  {
  }

  lemma ExampleMillis()
    ensures Chrono.TimestampMillis(Chrono.NaiveDateTime(Chrono.EpochDays(2024, 1, 15), 3 * 3600 + 0 * 60 + 0, 0))
         == 1705287600000
  {
    ExampleDays();
  }

  /** The example header line is the tag, the date and the clock joined by
      single spaces. */
  lemma ExampleStamp(line: string)
    requires line == "bridge-pool-assignment 2024-01-15 03:00:00"
    ensures line == HeaderTag + " " + Chrono.FormatDate(2024, 1, 15) + " " + Chrono.FormatSeconds(3, 0, 0)
  {
    ExampleDate();
    ExampleClock();
  }

  lemma ExampleDate()
    ensures Chrono.FormatDate(2024, 1, 15) == "2024-01-15"
  {
    assert Chrono.Digits(2024, 4) == "2024";
    assert Chrono.Digits(1, 2) == "01";
    assert Chrono.Digits(15, 2) == "15";
  }

  lemma ExampleClock()
    ensures Chrono.FormatSeconds(3, 0, 0) == "03:00:00"
  {
    assert Chrono.Digits(3, 2) == "03";
    assert Chrono.Digits(0, 2) == "00";
  }

  lemma ExampleDays()
    ensures Chrono.EpochDays(2024, 1, 15) == 19737
  {
    assert 2023 / 400 == 5 && 2023 % 400 == 23;
    assert Chrono.MarchDays(2023) == 19417;
    Chrono.MonthOffsets();
  }

  // ---- parse_files ----

  /** The position of the first line that starts with the header tag. */
  function FindHeader(lines: seq<string>): (k: Option<nat>)
    ensures k.Some? ==> k.value < |lines| && StartsWith(lines[k.value], HeaderTag)
                        && forall j :: 0 <= j < k.value ==> !StartsWith(lines[j], HeaderTag)
    ensures k.None? <==> forall j :: 0 <= j < |lines| ==> !StartsWith(lines[j], HeaderTag)
  {
    if lines == [] then None
    else if StartsWith(lines[0], HeaderTag) then Some(0)
    else match FindHeader(lines[1..])
      case None => None
      case Some(k) => Some(k + 1)
  }

  /** What one line contributes to its file: the parsed entry, if the line
      parses and its fingerprint passes the regex, stamped with the digest of
      the line's bytes chained to the file digest. */
  function KeptEntry(line: string, fileSha: string, h: Hasher, parseF32: F32Parse): Option<LineEntry> {
    match LineOutcome(line, parseF32)
    case Err(_) => None
    case Ok(e) =>
      if IsFingerprint(e.fingerprint) then Some(e.(sha := h.HashEntry(Utf8(line), fileSha))) else None
  }

  function Keep(fileSha: string, h: Hasher, parseF32: F32Parse): string -> Option<LineEntry> {
    line => KeptEntry(line, fileSha, h, parseF32)
  }

  /** What `parse_files` makes of one file: the header is the first line with
      the tag, its time is the publication time, the file digest is over the
      raw bytes, and the entries come from every line but the first. */
  function FileOutcome(file: RawFile, h: Hasher, parseF32: F32Parse): Result<Assignment> {
    var lines := Lines(file.content);
    match FindHeader(lines)
    case None => Err(Parse("missing header line"))
    case Some(k) =>
      match ExtractTime(lines[k])
      case Err(e) => Err(e)
      case Ok(time) =>
        var fileSha := h.HashBytes(file.raw);
        Ok(Assignment(fileSha, time, lines[k], FilterMap(Keep(fileSha, h, parseF32), lines[1..])))
  }

  function FileOutcomes(files: seq<RawFile>, h: Hasher, parseF32: F32Parse): (rs: seq<Result<Assignment>>)
    ensures |rs| == |files|
  {
    seq(|files|, i requires 0 <= i < |files| => FileOutcome(files[i], h, parseF32))
  }

  /** `parse_files` over a batch: the first failing file fails the batch. */
  function FilesOutcome(files: seq<RawFile>, h: Hasher, parseF32: F32Parse): Result<seq<Assignment>> {
    Collect(FileOutcomes(files, h, parseF32))
  }

  /** `parse_files`: the files are processed in order and the first
      failure ends the call. */
  method ParseFiles(rawFiles: seq<RawFile>, h: Hasher, parseF32: F32Parse) returns (r: Result<seq<Assignment>>)
    ensures r == FilesOutcome(rawFiles, h, parseF32)
  {
    ghost var outcomes := FileOutcomes(rawFiles, h, parseF32);
    var parsed: seq<Assignment> := [];
    for i := 0 to |rawFiles|
      invariant Collect(outcomes[..i]) == Ok(parsed)
    {
      var assignment := ParseFile(rawFiles[i], h, parseF32);
      assert outcomes[i] == assignment;
      CollectStep(outcomes, i, parsed);
      if assignment.Err? {
        return Err(assignment.error);
      }
      parsed := parsed + [assignment.value];
    }
    assert outcomes[..|rawFiles|] == outcomes;
    return Ok(parsed);
  }

  /** The body of the loop in `parse_files` for one file: its lines are
      split, its header located and timed, and its lines after the first
      parsed and filtered in order. */
  method ParseFile(file: RawFile, h: Hasher, parseF32: F32Parse) returns (r: Result<Assignment>)
    ensures r == FileOutcome(file, h, parseF32)
  {
    var lines := Lines(file.content);
    var first := FindHeader(lines);
    if first.None? {
      return Err(Parse("missing header line"));
    }
    var header := lines[first.value];
    var time := ExtractTime(header);
    if time.Err? {
      return Err(time.error);
    }
    var shaFile := h.HashBytes(file.raw);
    var entries: seq<LineEntry> := [];
    var rest := lines[1..];
    for j := 0 to |rest|
      invariant entries == FilterMap(Keep(shaFile, h, parseF32), rest[..j])
    {
      KeepStep(rest, j, shaFile, h, parseF32);
      var line := rest[j];
      var res := ParseLine(line, parseF32);
      if res.Ok? {
        var entry := res.value;
        if IsFingerprint(entry.fingerprint) {
          entry := entry.(sha := h.HashEntry(Utf8(line), shaFile));
          entries := entries + [entry];
        }
      }
    }
    assert rest[..|rest|] == rest;
    return Ok(Assignment(shaFile, time.value, header, entries));
  }

  lemma KeepStep(lines: seq<string>, j: nat, fileSha: string, h: Hasher, parseF32: F32Parse)
    requires j < |lines|
    ensures FilterMap(Keep(fileSha, h, parseF32), lines[..j + 1])
         == FilterMap(Keep(fileSha, h, parseF32), lines[..j])
            + match KeptEntry(lines[j], fileSha, h, parseF32) case None => [] case Some(e) => [e]
  {
    assert lines[..j + 1][..j] == lines[..j];
  }

  /** One assignment per file, in input order, exactly when every file has a
      header with a readable time. */
  lemma FilesOutcomeOk(files: seq<RawFile>, h: Hasher, parseF32: F32Parse)
    ensures FilesOutcome(files, h, parseF32).Ok? <==> forall i :: 0 <= i < |files| ==> FileOutcome(files[i], h, parseF32).Ok?
    ensures FilesOutcome(files, h, parseF32).Ok? ==>
      var out := FilesOutcome(files, h, parseF32).value;
      |out| == |files| && forall i :: 0 <= i < |files| ==> out[i] == FileOutcome(files[i], h, parseF32).value
  {
    var outcomes := FileOutcomes(files, h, parseF32);
    CollectOk(outcomes);
    assert forall i :: 0 <= i < |files| ==> outcomes[i] == FileOutcome(files[i], h, parseF32);
  }

  /** A failed batch reports the error of its first failing file; no partial
      output survives. */
  lemma FilesOutcomeFirstError(files: seq<RawFile>, h: Hasher, parseF32: F32Parse)
    requires FilesOutcome(files, h, parseF32).Err?
    ensures exists i ::
              && 0 <= i < |files|
              && FileOutcome(files[i], h, parseF32) == Err(FilesOutcome(files, h, parseF32).error)
              && forall j :: 0 <= j < i ==> FileOutcome(files[j], h, parseF32).Ok?
  {
    var outcomes := FileOutcomes(files, h, parseF32);
    CollectFirstError(outcomes);
    var i :| 0 <= i < |outcomes| && outcomes[i] == Err(Collect(outcomes).error)
      && forall j :: 0 <= j < i ==> outcomes[j].Ok?;
    assert forall j :: 0 <= j <= i ==> outcomes[j] == FileOutcome(files[j], h, parseF32);
  }

  /** A file fails with "missing header line" exactly when none of its lines
      starts with the header tag. */
  lemma MissingHeader(file: RawFile, h: Hasher, parseF32: F32Parse)
    ensures FileOutcome(file, h, parseF32) == Err(Parse("missing header line"))
        <==> forall l | l in Lines(file.content) :: !StartsWith(l, HeaderTag)
  {
    var lines := Lines(file.content);
    if forall l | l in lines :: !StartsWith(l, HeaderTag) {
      assert forall j :: 0 <= j < |lines| ==> !StartsWith(lines[j], HeaderTag);
    }
  }

  /** A parsed file: its header is the first tagged line, kept verbatim; its
      publication time is that header's time in whole seconds; its digest is
      over the raw bytes. */
  lemma ParsedFileHeader(file: RawFile, h: Hasher, parseF32: F32Parse)
    requires FileOutcome(file, h, parseF32).Ok?
    ensures var a := FileOutcome(file, h, parseF32).value;
      var lines := Lines(file.content);
      && (exists k :: 0 <= k < |lines| && lines[k] == a.header
            && forall j :: 0 <= j < k ==> !StartsWith(lines[j], HeaderTag))
      && StartsWith(a.header, HeaderTag)
      && ExtractTime(a.header) == Ok(a.published)
      && a.published % 1000 == 0
      && a.fileSha == h.HashBytes(file.raw)
  {
    var k := FindHeader(Lines(file.content)).value;
    assert Lines(file.content)[k] == FileOutcome(file, h, parseF32).value.header;
  }

  /** The entries of a parsed file: every one comes from a line after the
      first that parses and whose fingerprint is forty hex digits, its digest
      chaining that line's bytes to the file digest; every such line gives
      one; and they keep the order of their lines. */
  lemma ParsedFileEntries(file: RawFile, h: Hasher, parseF32: F32Parse)
    requires FileOutcome(file, h, parseF32).Ok?
    ensures var a := FileOutcome(file, h, parseF32).value;
      var rest := Lines(file.content)[1..];
      && |a.lines| <= |rest|
      && (forall e | e in a.lines ::
            && IsFingerprint(e.fingerprint)
            && exists l :: l in rest && LineOutcome(l, parseF32).Ok?
                 && e == LineOutcome(l, parseF32).value.(sha := h.HashEntry(Utf8(l), a.fileSha)))
      && (forall l | l in rest && KeptEntry(l, a.fileSha, h, parseF32).Some? ::
            KeptEntry(l, a.fileSha, h, parseF32).value in a.lines)
  {
    var a := FileOutcome(file, h, parseF32).value;
    var rest := Lines(file.content)[1..];
    var keep := Keep(a.fileSha, h, parseF32);
    assert a.lines == FilterMap(keep, rest);
    FilterMapSound(keep, rest);
    FilterMapComplete(keep, rest);
    forall e | e in a.lines
      ensures IsFingerprint(e.fingerprint)
      ensures exists l :: l in rest && LineOutcome(l, parseF32).Ok?
                 && e == LineOutcome(l, parseF32).value.(sha := h.HashEntry(Utf8(l), a.fileSha))
    {
      var l :| l in rest && keep(l) == Some(e);
      assert KeptEntry(l, a.fileSha, h, parseF32) == Some(e);
    }
  }

  /** Entries keep the order of their lines: the entries of two runs of
      lines are those of the first run followed by those of the second. */
  lemma EntriesFollowLineOrder(a: seq<string>, b: seq<string>, fileSha: string, h: Hasher, parseF32: F32Parse)
    ensures FilterMap(Keep(fileSha, h, parseF32), a + b)
         == FilterMap(Keep(fileSha, h, parseF32), a) + FilterMap(Keep(fileSha, h, parseF32), b)
  {
    FilterMapAppend(Keep(fileSha, h, parseF32), a, b);
  }

  /** A header-like line never becomes an entry: its first token starts with
      "br", and 'r' is not a hex digit. */
  lemma HeaderLineNeverEntry(line: string, fileSha: string, h: Hasher, parseF32: F32Parse)
    requires StartsWith(line, HeaderTag)
    ensures KeptEntry(line, fileSha, h, parseF32).None?
  {
    assert line[0] == 'b' && line[1] == 'r';
    var n := WordLen(line);
    assert n >= 2 by {
      assert !IsWhitespace(line[0]);
      assert line[1..][0] == 'r';
      assert WordLen(line) == 1 + WordLen(line[1..]);
    }
    var first := Tokens(line)[0];
    assert first == line[..n];
    assert first[1] == 'r';
    assert !IsFingerprint(first);
  }

  // ---- the documented examples ----

  /** "INVALID12345 vanilla transport=obfs4": a twelve-byte first token is
      refused. */
  lemma ExampleShortFingerprint(line: string, parseF32: F32Parse)
    requires line == "INVALID12345 vanilla transport=obfs4"
    ensures LineOutcome(line, parseF32) == Err(InvalidLine("Invalid fingerprint length"))
  {
    ExampleShortTokens(line);
    ShortFirstToken();
    RefusedByLength(line, parseF32);
  }

  /** A first token of plain ASCII characters, but not forty of them, is
      refused for its length. */
  lemma RefusedByLength(line: string, parseF32: F32Parse)
    requires |Tokens(line)| >= 2 && IsAscii(Tokens(line)[0]) && |Tokens(line)[0]| != 40
    ensures LineOutcome(line, parseF32) == Err(InvalidLine("Invalid fingerprint length"))
  {
    Utf8Length(Tokens(line)[0]);
  }

  lemma ExampleShortTokens(line: string)
    requires line == "INVALID12345 vanilla transport=obfs4"
    ensures Tokens(line) == ["INVALID12345", "vanilla", "transport=obfs4"]
  {
    ShortWords();
    ShortJoined(line);
    TokensOfUnwords(["INVALID12345", "vanilla", "transport=obfs4"]);
  }

  lemma ShortWords()
    ensures forall t | t in ["INVALID12345", "vanilla", "transport=obfs4"] :: IsWord(t)
  {
    assert IsWord("INVALID12345") && IsWord("vanilla") && IsWord("transport=obfs4");
  }

  lemma ShortJoined(line: string)
    requires line == "INVALID12345 vanilla transport=obfs4"
    ensures Unwords(["INVALID12345", "vanilla", "transport=obfs4"]) == line
  {
    UnwordsOfThree("INVALID12345", "vanilla", "transport=obfs4");
  }

  lemma ShortFirstToken()
    ensures IsAscii("INVALID12345") && |"INVALID12345"| == 12
  {
  }

  /** "invalid_fingerprint email" is refused the same way. */
  lemma ExampleInvalidFingerprint(line: string, parseF32: F32Parse)
    requires line == "invalid_fingerprint email"
    ensures LineOutcome(line, parseF32) == Err(InvalidLine("Invalid fingerprint length"))
  {
    ExampleInvalidTokens(line);
    InvalidFirstToken();
    RefusedByLength(line, parseF32);
  }

  lemma ExampleInvalidTokens(line: string)
    requires line == "invalid_fingerprint email"
    ensures Tokens(line) == ["invalid_fingerprint", "email"]
  {
    InvalidWords();
    InvalidJoined(line);
    TokensOfUnwords(["invalid_fingerprint", "email"]);
  }

  lemma InvalidWords()
    ensures forall t | t in ["invalid_fingerprint", "email"] :: IsWord(t)
  {
    assert IsWord("invalid_fingerprint") && IsWord("email");
  }

  lemma InvalidJoined(line: string)
    requires line == "invalid_fingerprint email"
    ensures Unwords(["invalid_fingerprint", "email"]) == line
  {
    UnwordsOfTwo("invalid_fingerprint", "email");
  }

  lemma InvalidFirstToken()
    ensures IsAscii("invalid_fingerprint") && |"invalid_fingerprint"| == 19
  {
  }

  /** A fingerprint and a method and nothing else: accepted, kept by the
      regex, with no optional field. */
  lemma ExampleBareLine(line: string, parseF32: F32Parse)
    requires line == "1234567890ABCDEF1234567890ABCDEF12345678 vanilla"
    ensures var r := LineOutcome(line, parseF32);
      && r.Ok? && r.value.distributionMethod == "vanilla" && r.value.transport.None?
      && IsFingerprint(r.value.fingerprint)
  {
    ExampleBareTokens(line);
    BareFirstToken();
    FingerprintAndMethodOnly(line, parseF32);
  }

  /** A regex-valid fingerprint followed by a method alone is accepted with
      no optional field. */
  lemma FingerprintAndMethodOnly(line: string, parseF32: F32Parse)
    requires |Tokens(line)| == 2 && IsFingerprint(Tokens(line)[0])
    ensures var r := LineOutcome(line, parseF32);
      && r.Ok? && r.value.fingerprint == Tokens(line)[0] && r.value.distributionMethod == Tokens(line)[1]
      && r.value.transport.None? && r.value.ratio.None?
  {
    FingerprintIsFortyBytes(Tokens(line)[0]);
    TwoTokensNoOptions(line, parseF32);
  }

  lemma ExampleBareTokens(line: string)
    requires line == "1234567890ABCDEF1234567890ABCDEF12345678 vanilla"
    ensures Tokens(line) == ["1234567890ABCDEF1234567890ABCDEF12345678", "vanilla"]
  {
    BareWords();
    BareJoined(line);
    TokensOfUnwords(["1234567890ABCDEF1234567890ABCDEF12345678", "vanilla"]);
  }

  lemma BareWords()
    ensures forall t | t in ["1234567890ABCDEF1234567890ABCDEF12345678", "vanilla"] :: IsWord(t)
  {
    assert IsWord("1234567890ABCDEF1234567890ABCDEF12345678") && IsWord("vanilla");
  }

  lemma BareJoined(line: string)
    requires line == "1234567890ABCDEF1234567890ABCDEF12345678 vanilla"
    ensures Unwords(["1234567890ABCDEF1234567890ABCDEF12345678", "vanilla"]) == line
  {
    UnwordsOfTwo("1234567890ABCDEF1234567890ABCDEF12345678", "vanilla");
  }

  lemma BareFirstToken()
    ensures IsFingerprint("1234567890ABCDEF1234567890ABCDEF12345678")
  {
  }

  /** The length check alone lets a forty-character non-hex token through
      `parse_line`; the regex in `parse_files` is what drops it. */
  lemma ExampleNonHexFingerprint(line: string, fileSha: string, h: Hasher, parseF32: F32Parse)
    requires line == "zzzzzzzzzzzzzzzzzzzzzzzzzzzzzzzzzzzzzzzz email"
    ensures LineOutcome(line, parseF32).Ok?
    ensures KeptEntry(line, fileSha, h, parseF32).None?
  {
    ExampleNonHexTokens(line);
    NonHexFirstToken();
    RegexDropsLine(line, fileSha, h, parseF32);
  }

  /** A line whose first token is forty bytes long parses, but if that token
      starts with anything other than a hex digit, the regex drops it. */
  lemma RegexDropsLine(line: string, fileSha: string, h: Hasher, parseF32: F32Parse)
    requires |Tokens(line)| >= 2 && IsAscii(Tokens(line)[0]) && |Tokens(line)[0]| == 40
    requires !IsHexDigit(Tokens(line)[0][0])
    ensures LineOutcome(line, parseF32).Ok?
    ensures LineOutcome(line, parseF32).value.fingerprint == Tokens(line)[0]
    ensures KeptEntry(line, fileSha, h, parseF32).None?
  {
    Utf8Length(Tokens(line)[0]);
  }

  lemma ExampleNonHexTokens(line: string)
    requires line == "zzzzzzzzzzzzzzzzzzzzzzzzzzzzzzzzzzzzzzzz email"
    ensures Tokens(line) == ["zzzzzzzzzzzzzzzzzzzzzzzzzzzzzzzzzzzzzzzz", "email"]
  {
    NonHexWords();
    NonHexJoined(line);
    TokensOfUnwords(["zzzzzzzzzzzzzzzzzzzzzzzzzzzzzzzzzzzzzzzz", "email"]);
  }

  lemma NonHexWords()
    ensures forall t | t in ["zzzzzzzzzzzzzzzzzzzzzzzzzzzzzzzzzzzzzzzz", "email"] :: IsWord(t)
  {
    assert IsWord("zzzzzzzzzzzzzzzzzzzzzzzzzzzzzzzzzzzzzzzz") && IsWord("email");
  }

  lemma NonHexJoined(line: string)
    requires line == "zzzzzzzzzzzzzzzzzzzzzzzzzzzzzzzzzzzzzzzz email"
    ensures Unwords(["zzzzzzzzzzzzzzzzzzzzzzzzzzzzzzzzzzzzzzzz", "email"]) == line
  {
    UnwordsOfTwo("zzzzzzzzzzzzzzzzzzzzzzzzzzzzzzzzzzzzzzzz", "email");
  }

  lemma NonHexFirstToken()
    ensures IsAscii("zzzzzzzzzzzzzzzzzzzzzzzzzzzzzzzzzzzzzzzz")
    ensures |"zzzzzzzzzzzzzzzzzzzzzzzzzzzzzzzzzzzzzzzz"| == 40
    ensures !IsHexDigit("zzzzzzzzzzzzzzzzzzzzzzzzzzzzzzzzzzzzzzzz"[0])
  {
  }
}
