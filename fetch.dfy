/** The collector (src/collector/fetch.rs): resolving the newest report files
    in the CollecTor index document and the URLs they are fetched from. */
module Fetch {
  import opened Prelude
  import opened Errors
  import opened Text
  import Chrono

  /** `BridgeRawFile`: a fetched report with its text, the bytes of that text
      and the index timestamp it was listed under. */
  datatype RawFile = RawFile(path: string, content: string, raw: seq<byte>, timestamp: int)

  /** A fetched report: the bytes are the UTF-8 encoding of the decoded
      text, not the bytes that came over the wire. */
  function RawFileOf(path: string, text: string, timestamp: int): (f: RawFile)
    ensures f.raw == Utf8(f.content) && f.content == text && f.path == path
  {
    RawFile(path, text, Utf8(text), timestamp)
  }

  // ---- URLs ----

  /** The index document's URL: the base without trailing slashes, then
      "/index/index.json". */
  function IndexUrl(base: string): string {
    TrimEndMatches(base, '/') + "/index/index.json"
  }

  /** A report's URL: the base without trailing slashes, a slash, and the
      path the index resolved. */
  function FileUrl(base: string, relativePath: string): string {
    TrimEndMatches(base, '/') + "/" + relativePath
  }

  function Slashes(n: nat): (s: string)
    ensures |s| == n && forall i :: 0 <= i < n ==> s[i] == '/'
  {
    if n == 0 then [] else Slashes(n - 1) + "/"
  }

  /** Trailing slashes on the base make no difference to either URL. */
  lemma {:induction false} TrailingSlashesIgnored(base: string, n: nat, relativePath: string)
    ensures IndexUrl(base + Slashes(n)) == IndexUrl(base)
    ensures FileUrl(base + Slashes(n), relativePath) == FileUrl(base, relativePath)
  {
    TrimEndSlashes(base, n);
  }

  lemma {:induction false} TrimEndSlashes(base: string, n: nat)
    ensures TrimEndMatches(base + Slashes(n), '/') == TrimEndMatches(base, '/')
  {
    if n == 0 {
      assert base + Slashes(n) == base;
    } else {
      var s := base + Slashes(n);
      assert s[|s| - 1] == '/';
      assert s[..|s| - 1] == base + Slashes(n - 1);
      TrimEndSlashes(base, n - 1);
    }
  }

  /** Both URLs extend the trimmed base with exactly one slash: the base
      part never ends in '/', so no "//" appears at the join. */
  lemma UrlsJoinWithOneSlash(base: string, relativePath: string)
    ensures var b := TrimEndMatches(base, '/');
      && IndexUrl(base) == b + "/" + "index/index.json"
      && StartsWith(FileUrl(base, relativePath), b + "/")
      && (b == [] || b[|b| - 1] != '/')
  {
    var b := TrimEndMatches(base, '/');
    assert (b + "/" + relativePath)[..|b| + 1] == b + "/";
  }

  // ---- the index document ----

  /** A JSON value as serde_json holds it; numbers are kept as integers,
      which is all the index needs. */
  datatype Json =
    | Null
    | Bool(b: bool)
    | Number(n: int)
    | Str(s: string)
    | Array(items: seq<Json>)
    | Object(fields: map<string, Json>)

  /** `value[key]`: the member of an object, or null when the key is missing
      or the value is not an object. */
  function Get(v: Json, key: string): Json {
    if v.Object? && key in v.fields then v.fields[key] else Null
  }

  /** `target_dir.trim_matches('/').split('/')`: never empty. */
  function Segments(targetDir: string): (segs: seq<string>)
    ensures |segs| >= 1
    ensures forall s | s in segs :: '/' !in s
  {
    Split(TrimMatches(targetDir, '/'), '/')
  }

  /** The segments joined back with '/' are the target without its leading
      and trailing slashes. */
  lemma SegmentsJoin(targetDir: string)
    ensures Join(Segments(targetDir), '/') == TrimMatches(targetDir, '/')
  {
    JoinSplit(TrimMatches(targetDir, '/'), '/');
  }

  /** The first element of a directory array whose `path` is `part`. */
  function FindDir(dirs: seq<Json>, part: string): (r: Option<Json>)
    ensures r.Some? ==> r.value in dirs && Get(r.value, "path") == Str(part)
    ensures r.Some? ==> exists k | 0 <= k < |dirs| ::
              && r.value == dirs[k]
              && forall j | 0 <= j < k :: Get(dirs[j], "path") != Str(part)
    ensures r.None? <==> forall d | d in dirs :: Get(d, "path") != Str(part)
  {
    if dirs == [] then None
    else if Get(dirs[0], "path") == Str(part) then Some(dirs[0])
    else
      assert forall d | d in dirs[1..] :: d in dirs;
      var rest := FindDir(dirs[1..], part);
      assert rest.Some? ==> exists k | 0 <= k < |dirs| ::
               && rest.value == dirs[k]
               && forall j | 0 <= j < k :: Get(dirs[j], "path") != Str(part) by {
        if rest.Some? {
          var k :| 0 <= k < |dirs[1..]| && rest.value == dirs[1..][k]
                   && forall j | 0 <= j < k :: Get(dirs[1..][j], "path") != Str(part);
          forall j | 0 <= j < k + 1 ensures Get(dirs[j], "path") != Str(part) {
            if j > 0 { assert dirs[j] == dirs[1..][j - 1]; }
          }
          assert rest.value == dirs[k + 1];
        }
      }
      rest
  }

  /** The directory object `segments` leads to from `node`, one segment at a
      time through nested `directories` arrays. */
  function Resolve(node: Json, segments: seq<string>): Result<Json>
    requires |segments| >= 1
    decreases |segments|
  {
    if !node.Array? then Err(Parse("Expected array while traversing index.json"))
    else
      match FindDir(node.items, segments[0])
      case None => Err(Parse("Directory '" + segments[0] + "' not found"))
      case Some(entry) =>
        if |segments| == 1 then Ok(entry)
        else Resolve(Get(entry, "directories"), segments[1..])
  }

  /** One listed file, `(full_path, millis)`. */
  datatype Listing = Listing(path: string, timestamp: int)

  /** The default `last_modified`, used when the field is absent or not a
      string. */
  const DefaultModified: string := "1970-01-01 00:00"

  /** A file's timestamp: its `last_modified` read as "%Y-%m-%d %H:%M", and
      the epoch when that fails. */
  function ModifiedMillis(file: Json): int {
    var text := match Get(file, "last_modified") case Str(s) => s case _ => DefaultModified;
    match Chrono.ParseFromStr(text, Chrono.IndexFormat)
    case None => 0
    case Some(dt) => Chrono.TimestampMillis(dt)
  }

  /** A missing, non-string or unreadable `last_modified` counts as the
      epoch, never as an error. */
  lemma MissingModifiedIsEpoch(file: Json)
    requires !Get(file, "last_modified").Str?
      || Chrono.ParseFromStr(Get(file, "last_modified").s, Chrono.IndexFormat).None?
    ensures ModifiedMillis(file) == 0
  {
    if !Get(file, "last_modified").Str? {
      DefaultIsEpoch(DefaultModified);
    }
  }

  lemma DefaultIsEpoch(text: string)
    requires text == DefaultModified
    ensures Chrono.ParseFromStr(text, Chrono.IndexFormat) == Some(Chrono.NaiveDateTime(0, 0, 0))
  {
    DefaultText(text);
    Chrono.EpochIsDayZero();
    Chrono.ParseFormattedMinutes(1970, 1, 1, 0, 0);
  }

  /** The default text is the epoch written in the index format. */
  lemma DefaultText(text: string)
    requires text == DefaultModified
    ensures Chrono.FormatDate(1970, 1, 1) + " " + Chrono.FormatMinutes(0, 0) == text
  {
    EpochDigits();
    assert Chrono.FormatDate(1970, 1, 1) == "1970" + "-" + "01" + "-" + "01";
    assert Chrono.FormatMinutes(0, 0) == "00" + ":" + "00";
  }

  lemma EpochDigits()
    ensures Chrono.Digits(1970, 4) == "1970"
    ensures Chrono.Digits(1, 2) == "01"
    ensures Chrono.Digits(0, 2) == "00"
  {
  }

  /** What one element of the `files` array lists: its `path` must be a
      string and is put under the target directory. */
  function ListingOf(file: Json, targetDir: string): Result<Listing> {
    match Get(file, "path")
    case Str(p) => Ok(Listing(TrimEndMatches(targetDir, '/') + "/" + p, ModifiedMillis(file)))
    case _ => Err(Parse("file missing 'path'"))
  }

  function ListingsOf(files: seq<Json>, targetDir: string): (rs: seq<Result<Listing>>)
    ensures |rs| == |files|
  {
    seq(|files|, i requires 0 <= i < |files| => ListingOf(files[i], targetDir))
  }

  /** The listing of the resolved directory, in index order. */
  function Listed(index: Json, targetDir: string): Result<seq<Listing>> {
    match Resolve(Get(index, "directories"), Segments(targetDir))
    case Err(e) => Err(e)
    case Ok(dir) =>
      match Get(dir, "files")
      case Array(files) => Collect(ListingsOf(files, targetDir))
      case _ => Err(Parse("Final segment missing 'files' array"))
  }

  // ---- newest first ----

  /** Non-increasing timestamps. */
  predicate NewestFirst(s: seq<Listing>) {
    forall i, j :: 0 <= i < j < |s| ==> s[i].timestamp >= s[j].timestamp
  }

  /** Places `x` after every element at least as new, so that among equal
      timestamps the one inserted later stays later. */
  function Insert(x: Listing, s: seq<Listing>): seq<Listing> {
    if s == [] || s[0].timestamp < x.timestamp then [x] + s
    else [s[0]] + Insert(x, s[1..])
  }

  /** `sort_by(|a, b| b.1.cmp(&a.1))`: a stable sort, newest first. */
  function SortNewestFirst(s: seq<Listing>): seq<Listing> {
    if s == [] then []
    else
      var n := |s| - 1;
      Insert(s[n], SortNewestFirst(s[..n]))
  }

  lemma {:induction false} InsertKeepsOrder(x: Listing, s: seq<Listing>)
    requires NewestFirst(s)
    ensures NewestFirst(Insert(x, s))
    ensures multiset(Insert(x, s)) == multiset(s) + multiset{x}
    ensures |Insert(x, s)| == |s| + 1
    decreases |s|
  {
    InsertCounts(x, s);
    if s == [] {
    } else if s[0].timestamp < x.timestamp {
      HeadBounds(s);
      ConsNewestFirst(x, s);
    } else {
      HeadBounds(s);
      InsertKeepsOrder(x, s[1..]);
      InsertAtMost(x, s[1..], s[0].timestamp);
      ConsNewestFirst(s[0], Insert(x, s[1..]));
    }
  }

  /** No element newer than `b`. */
  predicate AtMost(s: seq<Listing>, b: int) {
    forall k :: 0 <= k < |s| ==> s[k].timestamp <= b
  }

  /** The head of a newest-first list bounds it, and its tail is newest
      first too. */
  lemma HeadBounds(s: seq<Listing>)
    requires NewestFirst(s) && s != []
    ensures AtMost(s, s[0].timestamp) && NewestFirst(s[1..])
  {
    forall i, j | 0 <= i < j < |s[1..]| ensures s[1..][i].timestamp >= s[1..][j].timestamp {
      assert s[1..][i] == s[i + 1] && s[1..][j] == s[j + 1];
    }
  }

  lemma ConsNewestFirst(a: Listing, t: seq<Listing>)
    requires NewestFirst(t) && AtMost(t, a.timestamp)
    ensures NewestFirst([a] + t)
  {
    forall i, j | 0 <= i < j < |[a] + t| ensures ([a] + t)[i].timestamp >= ([a] + t)[j].timestamp {
      assert ([a] + t)[j] == t[j - 1];
      if i > 0 {
        assert ([a] + t)[i] == t[i - 1];
      }
    }
  }

  lemma {:induction false} InsertAtMost(x: Listing, s: seq<Listing>, b: int)
    requires AtMost(s, b) && x.timestamp <= b
    ensures AtMost(Insert(x, s), b)
    decreases |s|
  {
    if s != [] && s[0].timestamp >= x.timestamp {
      assert AtMost(s[1..], b) by {
        forall k | 0 <= k < |s[1..]| ensures s[1..][k].timestamp <= b {
          assert s[1..][k] == s[k + 1];
        }
      }
      InsertAtMost(x, s[1..], b);
      var t := Insert(x, s[1..]);
      forall k | 0 <= k < |[s[0]] + t| ensures ([s[0]] + t)[k].timestamp <= b {
        if k > 0 {
          assert ([s[0]] + t)[k] == t[k - 1];
        }
      }
    }
  }

  lemma {:induction false} InsertCounts(x: Listing, s: seq<Listing>)
    ensures multiset(Insert(x, s)) == multiset(s) + multiset{x}
    ensures |Insert(x, s)| == |s| + 1
    decreases |s|
  {
    if s != [] && s[0].timestamp >= x.timestamp {
      InsertCounts(x, s[1..]);
      assert s == [s[0]] + s[1..];
    }
  }

  /** Sorting only reorders, and the order is newest first. */
  lemma {:induction false} SortIsNewestFirstPermutation(s: seq<Listing>)
    ensures NewestFirst(SortNewestFirst(s))
    ensures multiset(SortNewestFirst(s)) == multiset(s)
    ensures |SortNewestFirst(s)| == |s|
  {
    if s != [] {
      var n := |s| - 1;
      SortIsNewestFirstPermutation(s[..n]);
      InsertKeepsOrder(s[n], SortNewestFirst(s[..n]));
      assert s == s[..n] + [s[n]];
    }
  }

  /** The elements with timestamp `t`, in order. */
  function WithTimestamp(s: seq<Listing>, t: int): seq<Listing> {
    if s == [] then []
    else (if s[0].timestamp == t then [s[0]] else []) + WithTimestamp(s[1..], t)
  }

  lemma {:induction false} WithTimestampAppend(a: seq<Listing>, b: seq<Listing>, t: int)
    ensures WithTimestamp(a + b, t) == WithTimestamp(a, t) + WithTimestamp(b, t)
  {
    if a == [] {
      assert a + b == b;
    } else {
      var head := if a[0].timestamp == t then [a[0]] else [];
      assert (a + b)[0] == a[0];
      assert (a + b)[1..] == a[1..] + b;
      assert WithTimestamp(a + b, t) == head + WithTimestamp(a[1..] + b, t);
      WithTimestampAppend(a[1..], b, t);
      assert WithTimestamp(a, t) == head + WithTimestamp(a[1..], t);
    }
  }

  lemma {:induction false} InsertIsStable(x: Listing, s: seq<Listing>, t: int)
    requires NewestFirst(s)
    ensures WithTimestamp(Insert(x, s), t)
         == WithTimestamp(s, t) + (if x.timestamp == t then [x] else [])
  {
    if s == [] {
    } else if s[0].timestamp < x.timestamp {
      // everything in s is older than x, so none of it has x's timestamp
      if x.timestamp == t {
        NoneWithTimestamp(s, t);
      }
      assert [x] + s == [x] + s;
    } else {
      assert NewestFirst(s[1..]) by {
        forall i, j | 0 <= i < j < |s[1..]| ensures s[1..][i].timestamp >= s[1..][j].timestamp {
          assert s[1..][i] == s[i + 1] && s[1..][j] == s[j + 1];
        }
      }
      InsertIsStable(x, s[1..], t);
    }
  }

  lemma {:induction false} NoneWithTimestamp(s: seq<Listing>, t: int)
    requires NewestFirst(s) && s != [] && s[0].timestamp < t
    ensures WithTimestamp(s, t) == []
  {
    if |s| > 1 {
      assert NewestFirst(s[1..]) by {
        forall i, j | 0 <= i < j < |s[1..]| ensures s[1..][i].timestamp >= s[1..][j].timestamp {
          assert s[1..][i] == s[i + 1] && s[1..][j] == s[j + 1];
        }
      }
      assert s[1..][0] == s[1];
      NoneWithTimestamp(s[1..], t);
    }
  }

  /** Stability: the files sharing a timestamp keep their index order. */
  lemma {:induction false} SortIsStable(s: seq<Listing>, t: int)
    ensures WithTimestamp(SortNewestFirst(s), t) == WithTimestamp(s, t)
  {
    if s != [] {
      var n := |s| - 1;
      SortIsStable(s[..n], t);
      SortIsNewestFirstPermutation(s[..n]);
      InsertIsStable(s[n], SortNewestFirst(s[..n]), t);
      assert s == s[..n] + [s[n]];
      WithTimestampAppend(s[..n], [s[n]], t);
    }
  }

  /** `into_iter().take(limit)`. */
  function Take(s: seq<Listing>, limit: nat): (r: seq<Listing>)
    ensures |r| == if limit < |s| then limit else |s|
    ensures r == s[..|r|]
  {
    if limit < |s| then s[..limit] else s
  }

  /** `extract_latest_entries`, stated declaratively. */
  function LatestEntries(index: Json, targetDir: string, limit: nat): Result<seq<Listing>> {
    match Listed(index, targetDir)
    case Err(e) => Err(e)
    case Ok(files) => Ok(Take(SortNewestFirst(files), limit))
  }

  /** The directory reached is the entry named by the last segment, and the
      only errors are the two descent errors. */
  lemma ResolveNamesDirectory(node: Json, segments: seq<string>)
    requires |segments| >= 1
    ensures Resolve(node, segments).Ok? ==>
      Get(Resolve(node, segments).value, "path") == Str(segments[|segments| - 1])
    ensures Resolve(node, segments).Err? ==>
      || Resolve(node, segments).error == Parse("Expected array while traversing index.json")
      || exists k :: 0 <= k < |segments|
           && Resolve(node, segments).error == Parse("Directory '" + segments[k] + "' not found")
  {
    ResolvedIsLastSegment(node, segments);
    ResolveErrors(node, segments);
  }

  lemma {:induction false} ResolvedIsLastSegment(node: Json, segments: seq<string>)
    requires |segments| >= 1
    ensures Resolve(node, segments).Ok? ==>
      Get(Resolve(node, segments).value, "path") == Str(segments[|segments| - 1])
    decreases |segments|
  {
    if node.Array? && FindDir(node.items, segments[0]).Some? && |segments| > 1 {
      var entry := FindDir(node.items, segments[0]).value;
      ResolvedIsLastSegment(Get(entry, "directories"), segments[1..]);
      assert segments[1..][|segments[1..]| - 1] == segments[|segments| - 1];
    }
  }

  lemma {:induction false} ResolveErrors(node: Json, segments: seq<string>)
    requires |segments| >= 1
    ensures Resolve(node, segments).Err? ==>
      || Resolve(node, segments).error == Parse("Expected array while traversing index.json")
      || exists k :: 0 <= k < |segments|
           && Resolve(node, segments).error == Parse("Directory '" + segments[k] + "' not found")
    decreases |segments|
  {
    if node.Array? && FindDir(node.items, segments[0]).Some? && |segments| > 1 {
      var entry := FindDir(node.items, segments[0]).value;
      var rest := segments[1..];
      ResolveErrors(Get(entry, "directories"), rest);
      assert Resolve(node, segments) == Resolve(Get(entry, "directories"), rest);
      if Resolve(node, segments).Err? && Resolve(node, segments).error != Parse("Expected array while traversing index.json") {
        var k :| 0 <= k < |rest| && Resolve(node, segments).error == Parse("Directory '" + rest[k] + "' not found");
        assert rest[k] == segments[k + 1];
      }
    }
  }

  /** A listing succeeds exactly when every file has a string `path`; it then
      has one element per file, in index order, each under the target. */
  lemma ListingsOk(files: seq<Json>, targetDir: string)
    ensures Collect(ListingsOf(files, targetDir)).Ok?
        <==> forall i :: 0 <= i < |files| ==> Get(files[i], "path").Str?
    ensures Collect(ListingsOf(files, targetDir)).Ok? ==>
      var ls := Collect(ListingsOf(files, targetDir)).value;
      && |ls| == |files|
      && forall i :: 0 <= i < |files| ==>
           ls[i] == Listing(TrimEndMatches(targetDir, '/') + "/" + Get(files[i], "path").s,
                            ModifiedMillis(files[i]))
  {
    var outcomes := ListingsOf(files, targetDir);
    CollectOk(outcomes);
    assert forall i :: 0 <= i < |files| ==> (outcomes[i].Ok? <==> Get(files[i], "path").Str?);
  }

  /** The first file without a string `path` fails the whole listing. */
  lemma ListingMissingPath(files: seq<Json>, targetDir: string, i: nat)
    requires i < |files| && !Get(files[i], "path").Str?
    requires forall j :: 0 <= j < i ==> Get(files[j], "path").Str?
    ensures Collect(ListingsOf(files, targetDir)) == Err(Parse("file missing 'path'"))
  {
    var outcomes := ListingsOf(files, targetDir);
    var before := outcomes[..i];
    assert forall j :: 0 <= j < i ==> before[j] == ListingOf(files[j], targetDir);
    CollectOk(before);
    CollectStep(outcomes, i, Collect(before).value);
  }

  /** The result: `min(limit, n)` listings, newest first, all drawn from the
      directory's files, none of the files left behind newer than one kept,
      and ties kept in index order. */
  lemma LatestEntriesAreNewest(index: Json, targetDir: string, limit: nat)
    requires Listed(index, targetDir).Ok?
    ensures var files := Listed(index, targetDir).value;
      && LatestEntries(index, targetDir, limit).Ok?
      && var r := LatestEntries(index, targetDir, limit).value;
      && |r| == (if limit < |files| then limit else |files|)
      && NewestFirst(r)
      && multiset(r) <= multiset(files)
      && (forall x | x in multiset(files) - multiset(r) ::
            forall k :: 0 <= k < |r| ==> x.timestamp <= r[k].timestamp)
      && r == SortNewestFirst(files)[..|r|]
  {
    var files := Listed(index, targetDir).value;
    var sorted := SortNewestFirst(files);
    SortIsNewestFirstPermutation(files);
    var r := Take(sorted, limit);
    KeptPrefix(sorted, |r|);
  }

  /** Keeping the first `n` of a newest-first list: the kept part is newest
      first, and nothing dropped is newer than anything kept. */
  lemma KeptPrefix(sorted: seq<Listing>, n: nat)
    requires NewestFirst(sorted) && n <= |sorted|
    ensures NewestFirst(sorted[..n])
    ensures multiset(sorted[..n]) <= multiset(sorted)
    ensures forall x: Listing | x in multiset(sorted) - multiset(sorted[..n]) ::
              forall k :: 0 <= k < n ==> x.timestamp <= sorted[..n][k].timestamp
  {
    KeptDroppedSplit(sorted, n);
    DroppedNotNewer(sorted, n);
  }

  lemma KeptDroppedSplit(sorted: seq<Listing>, n: nat)
    requires n <= |sorted|
    ensures multiset(sorted[..n]) <= multiset(sorted)
    ensures multiset(sorted) - multiset(sorted[..n]) == multiset(sorted[n..])
  {
    assert sorted == sorted[..n] + sorted[n..];
  }

  lemma DroppedNotNewer(sorted: seq<Listing>, n: nat)
    requires NewestFirst(sorted) && n <= |sorted|
    ensures forall x: Listing | x in multiset(sorted[n..]) ::
              forall k :: 0 <= k < n ==> x.timestamp <= sorted[..n][k].timestamp
  {
    forall x: Listing | x in multiset(sorted[n..])
      ensures forall k :: 0 <= k < n ==> x.timestamp <= sorted[..n][k].timestamp
    {
      var m :| 0 <= m < |sorted[n..]| && sorted[n..][m] == x;
      assert sorted[n + m] == x;
    }
  }

  /** Any failure of the listing is the failure of the call. */
  lemma LatestEntriesFail(index: Json, targetDir: string, limit: nat)
    requires Listed(index, targetDir).Err?
    ensures LatestEntries(index, targetDir, limit) == Err(Listed(index, targetDir).error)
  {
  }

  /** The fetcher asks for the ten newest files. */
  const FetchLimit: nat := 10

  /** The URLs `fetch_indexed_files` downloads, in order, after resolving
      `folder` in the index it fetched from `IndexUrl(base)`. */
  function DownloadUrls(base: string, folder: string, index: Json): (r: Result<seq<string>>)
    ensures r.Err? <==> Listed(index, folder).Err?
    ensures r.Ok? ==> |r.value| <= FetchLimit
  {
    match LatestEntries(index, folder, FetchLimit)
    case Err(e) => Err(e)
    case Ok(entries) => Ok(seq(|entries|, i requires 0 <= i < |entries| => FileUrl(base, entries[i].path)))
  }

  /** A path under the target directory: its trailing slashes removed, one
      slash, then the file's own `path`. */
  predicate UnderFolder(path: string, folder: string) {
    StartsWith(path, TrimEndMatches(folder, '/') + "/")
  }

  /** Every listed path is under the target directory. */
  lemma ListedUnderFolder(index: Json, folder: string)
    requires Listed(index, folder).Ok?
    ensures forall l | l in Listed(index, folder).value :: UnderFolder(l.path, folder)
  {
    var dir := Resolve(Get(index, "directories"), Segments(folder)).value;
    var fs := Get(dir, "files").items;
    var files := Listed(index, folder).value;
    assert files == Collect(ListingsOf(fs, folder)).value;
    ListingsOk(fs, folder);
    forall l | l in files ensures UnderFolder(l.path, folder) {
      var k :| 0 <= k < |files| && files[k] == l;
      var prefix := TrimEndMatches(folder, '/') + "/";
      assert l.path == prefix + Get(fs[k], "path").s;
      assert l.path[..|prefix|] == prefix;
    }
  }

  /** Each download URL is the trimmed base, one slash, and a listed path
      under the folder. */
  lemma DownloadUrlsAreListedPaths(base: string, folder: string, index: Json)
    requires DownloadUrls(base, folder, index).Ok?
    ensures var urls := DownloadUrls(base, folder, index).value;
      var entries := LatestEntries(index, folder, FetchLimit).value;
      && |urls| == |entries|
      && forall i :: 0 <= i < |urls| ==>
           urls[i] == FileUrl(base, entries[i].path) && UnderFolder(entries[i].path, folder)
  {
    var files := Listed(index, folder).value;
    var entries := LatestEntries(index, folder, FetchLimit).value;
    ListedUnderFolder(index, folder);
    SortIsNewestFirstPermutation(files);
    forall i | 0 <= i < |entries| ensures UnderFolder(entries[i].path, folder) {
      assert entries[i] in multiset(SortNewestFirst(files));
      assert entries[i] in files;
    }
  }

  /** `extract_latest_entries`: walk down the directory tree, list the files
      of the directory reached, sort them newest first and keep `limit`. */
  method ExtractLatestEntries(index: Json, targetDir: string, limit: nat) returns (r: Result<seq<Listing>>)
    ensures r == LatestEntries(index, targetDir, limit)
  {
    var dir := ResolveDirectory(Get(index, "directories"), Segments(targetDir));
    if dir.Err? {
      return Err(dir.error);
    }
    var filesArr := Get(dir.value, "files");
    if !filesArr.Array? {
      return Err(Parse("Final segment missing 'files' array"));
    }
    var files := ListFiles(filesArr.items, targetDir);
    if files.Err? {
      return Err(files.error);
    }
    var sorted := SortNewestFirst(files.value);
    return Ok(Take(sorted, limit));
  }

  /** The loop over the segments: at each level the node must be an array
      holding an entry whose `path` is the segment; the last entry found is
      the directory. */
  method ResolveDirectory(root: Json, segments: seq<string>) returns (r: Result<Json>)
    requires |segments| >= 1
    ensures r == Resolve(root, segments)
  {
    var node := root;
    var i := 0;
    while i < |segments|
      invariant i < |segments|
      invariant Resolve(root, segments) == Resolve(node, segments[i..])
    {
      var part := segments[i];
      if !node.Array? {
        return Err(Parse("Expected array while traversing index.json"));
      }
      var entry := FindDir(node.items, part);
      if entry.None? {
        return Err(Parse("Directory '" + part + "' not found"));
      }
      if i == |segments| - 1 {
        node := entry.value;
        break;
      }
      assert segments[i..][1..] == segments[i + 1..];
      node := Get(entry.value, "directories");
      i := i + 1;
    }
    return Ok(node);
  }

  /** The loop over the `files` array, stopping at the first file without a
      string `path`. */
  method ListFiles(items: seq<Json>, targetDir: string) returns (r: Result<seq<Listing>>)
    ensures r == Collect(ListingsOf(items, targetDir))
  {
    ghost var outcomes := ListingsOf(items, targetDir);
    var files: seq<Listing> := [];
    for k := 0 to |items|
      invariant Collect(outcomes[..k]) == Ok(files)
    {
      var file := items[k];
      var listing: Result<Listing>;
      match Get(file, "path") {
        case Str(path) =>
          var millis := ModifiedMillis(file);
          var fullPath := TrimEndMatches(targetDir, '/') + "/" + path;
          listing := Ok(Listing(fullPath, millis));
        case _ =>
          listing := Err(Parse("file missing 'path'"));
      }
      assert outcomes[k] == listing;
      CollectStep(outcomes, k, files);
      if listing.Err? {
        return Err(listing.error);
      }
      files := files + [listing.value];
    }
    assert outcomes[..|items|] == outcomes;
    return Ok(files);
  }
}
