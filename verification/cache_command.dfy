/**
 * The `cache` command (cmd/cache/cache.go) without its printing: the
 * subcommand dispatch, the size descriptor and numbering of `list`, the
 * lookup path of `get`, the success tally of `refresh`, and `clear` as the
 * deletion of the top-level key "cache".
 */
module CacheCommand {
  import opened Common
  import opened Decimal
  import opened ConfigStore

  // ----- size descriptor -----

  /** Bytes of the UTF-8 encoding of one character. */
  function Utf8Width(c: char): nat {
    if c as int < 0x80 then 1
    else if c as int < 0x800 then 2
    else if c as int < 0x1_0000 then 3
    else 4
  }

  /** Go's len of a string: its length in UTF-8 bytes. */
  function Utf8Length(s: string): nat {
    if s == [] then 0 else Utf8Length(s[..|s| - 1]) + Utf8Width(s[|s| - 1])
  }

  /** The byte length is between one and four bytes per character, and is
    * the character count for ASCII text. */
  lemma {:induction false} Utf8LengthBounds(s: string)
    ensures |s| <= Utf8Length(s) <= 4 * |s|
    ensures (forall i :: 0 <= i < |s| ==> s[i] as int < 0x80) ==> Utf8Length(s) == |s|
  {
    if s != [] {
      Utf8LengthBounds(s[..|s| - 1]);
    }
  }

  /** The "Size" column of `cache list`. */
  function SizeDescriptor(v: Value): (r: string)
    ensures r == "N/A" <==> !(v.Str? || v.List? || v.Object?)
  {
    match v
    case Str(s) => FromNat(Utf8Length(s)) + " chars"
    case List(items) => FromNat(|items|) + " items"
    case Object(fields) => FromNat(|fields|) + " items"
    case _ => "N/A"
  }

  /** The number a descriptor "<digits><unit>" states, if it has that shape. */
  function CountBefore(descriptor: string, unit: string): Option<nat> {
    if |unit| < |descriptor| && descriptor[|descriptor| - |unit|..] == unit
       && AllDigits(descriptor[..|descriptor| - |unit|])
    then Some(ToNat(descriptor[..|descriptor| - |unit|]))
    else None
  }

  /** A string is described by its byte length in chars, a list or map by
    * its number of items, anything else as not applicable. */
  lemma SizeDescriptorMeaning(v: Value)
    ensures v.Str? ==> CountBefore(SizeDescriptor(v), " chars") == Some(Utf8Length(v.s))
    ensures v.List? ==> CountBefore(SizeDescriptor(v), " items") == Some(|v.items|)
    ensures v.Object? ==> CountBefore(SizeDescriptor(v), " items") == Some(|v.fields|)
    ensures !(v.Str? || v.List? || v.Object?) ==> SizeDescriptor(v) == "N/A"
  {
    var d := SizeDescriptor(v);
    match v
    case Str(s) =>
      assert d[..|d| - 6] == FromNat(Utf8Length(s));
      RoundTrip(Utf8Length(s));
    case List(items) =>
      assert d[..|d| - 6] == FromNat(|items|);
      RoundTrip(|items|);
    case Object(fields) =>
      assert d[..|d| - 6] == FromNat(|fields|);
      RoundTrip(|fields|);
    case _ =>
  }

  // ----- list -----

  /** The map the configuration library gives for "cache": its entries when
    * it is a map, and no entries otherwise. This defines the lookup; what
    * `list` makes of it is specified by Lists. */
  function CacheEntries(settings: Document): (r: map<string, Value>)
    ensures "cache" in settings && settings["cache"].Object? ==> r == settings["cache"].fields
    ensures !("cache" in settings && settings["cache"].Object?) ==> |r| == 0
  {
    if "cache" in settings && settings["cache"].Object? then settings["cache"].fields else map[]
  }

  datatype Row = Row(number: nat, key: string, size: string)

  datatype ListReport = Empty | Table(rows: seq<Row>, total: nat)

  /** An empty cache gives no table; otherwise one row per entry, numbered
    * from 1, each with its entry's size, and the total is the entry count. */
  ghost predicate Lists(cache: map<string, Value>, report: ListReport) {
    if |cache| == 0 then report == Empty
    else
      && report.Table?
      && report.total == |cache|
      && |report.rows| == |cache|
      && (forall j :: 0 <= j < |report.rows| ==>
            && report.rows[j].number == j + 1
            && report.rows[j].key in cache
            && report.rows[j].size == SizeDescriptor(cache[report.rows[j].key]))
      && (forall j, k :: 0 <= j < k < |report.rows| ==> report.rows[j].key != report.rows[k].key)
      && (forall key :: key in cache ==> exists j :: 0 <= j < |report.rows| && report.rows[j].key == key)
  }

  /** The table rows for the keys in the order they were visited. */
  function RowsFor(cache: map<string, Value>, order: seq<string>): (rows: seq<Row>)
    requires forall k :: k in order ==> k in cache
  {
    seq(|order|, j requires 0 <= j < |order| => Row(j + 1, order[j], SizeDescriptor(cache[order[j]])))
  }

  /** Visiting every key once, in any order, lists the cache. */
  lemma ListsInAnyOrder(cache: map<string, Value>, order: seq<string>)
    requires |cache| > 0 && |order| == |cache|
    requires forall k :: k in order <==> k in cache
    requires forall j, k :: 0 <= j < k < |order| ==> order[j] != order[k]
    ensures Lists(cache, Table(RowsFor(cache, order), |cache|))
  {
    var rows := RowsFor(cache, order);
    forall key | key in cache ensures exists j :: 0 <= j < |rows| && rows[j].key == key {
      var j :| 0 <= j < |order| && order[j] == key;
      assert rows[j].key == key;
    }
  }

  /** handleCacheList: the rows in the map's iteration order, which the
    * language leaves unspecified; each step takes any key not yet listed. */
  method HandleList(cache: map<string, Value>) returns (report: ListReport)
    ensures Lists(cache, report)
  {
    if |cache| == 0 {
      return Empty;
    }
    var rows: seq<Row> := [];
    var remaining := cache.Keys;
    ghost var order: seq<string> := [];
    var i := 1;
    while remaining != {}
      invariant remaining <= cache.Keys
      invariant i == |order| + 1
      invariant |order| + |remaining| == |cache|
      invariant forall k :: k in order <==> k in cache && k !in remaining
      invariant forall j, k :: 0 <= j < k < |order| ==> order[j] != order[k]
      invariant rows == RowsFor(cache, order)
      decreases remaining
    {
      var key :| key in remaining;
      rows := rows + [Row(i, key, SizeDescriptor(cache[key]))];
      order := order + [key];
      remaining := remaining - {key};
      i := i + 1;
    }
    ListsInAnyOrder(cache, order);
    return Table(rows, |cache|);
  }

  // ----- get -----

  /** The position of the first '.' in s. */
  function FirstDot(s: string): (i: nat)
    requires '.' in s
    ensures i < |s| && s[i] == '.' && '.' !in s[..i]
  {
    if s[0] == '.' then 0 else 1 + FirstDot(s[1..])
  }

  function JoinDots(parts: seq<string>): string {
    if parts == [] then ""
    else if |parts| == 1 then parts[0]
    else parts[0] + "." + JoinDots(parts[1..])
  }

  /** strings.Split(s, "."): the dot-free pieces between the dots. */
  function SplitDots(s: string): (parts: seq<string>)
    ensures |parts| >= 1
    ensures forall j :: 0 <= j < |parts| ==> '.' !in parts[j]
    ensures JoinDots(parts) == s
    decreases |s|
  {
    if '.' !in s then [s]
    else
      var i := FirstDot(s);
      var rest := SplitDots(s[i + 1..]);
      assert s == s[..i] + "." + s[i + 1..];
      [s[..i]] + rest
  }

  /** Nested lookup of a key path, descending through maps. The ensures
    * define the lookup step by step; what `get` finds with it is stated by
    * CacheGetFollowsPath and CacheGetPlainKey. */
  function LookupPath(doc: Document, path: seq<string>): (r: Option<Value>)
    requires |path| >= 1
    ensures r.Some? ==> path[0] in doc
    ensures |path| == 1 ==> r == (if path[0] in doc then Some(doc[path[0]]) else None)
    ensures |path| > 1 && r.Some? ==> doc[path[0]].Object? && r == LookupPath(doc[path[0]].fields, path[1..])
    decreases |path|
  {
    if path[0] !in doc then None
    else if |path| == 1 then Some(doc[path[0]])
    else
      match doc[path[0]]
      case Object(fields) => LookupPath(fields, path[1..])
      case _ => None
  }

  datatype GetReport = NotFound(key: string) | Found(key: string, value: Value)

  /** handleCacheGet: look up "cache." + key; an absent or null value is
    * "not found". */
  function CacheGet(settings: Document, key: string): (r: GetReport)
    ensures r.key == key
    ensures r.Found? ==> !r.value.Null?
  {
    var v := LookupPath(settings, SplitDots("cache." + key));
    if v.None? || v.value.Null? then NotFound(key) else Found(key, v.value)
  }

  /** The path of "cache." + key is "cache" followed by the pieces of key. */
  lemma CachePath(key: string)
    ensures SplitDots("cache." + key) == ["cache"] + SplitDots(key)
  {
    var s := "cache." + key;
    assert s[5] == '.' && s[..5] == "cache";
    assert FirstDot(s) == 5;
    assert s[6..] == key;
    assert SplitDots(s) == [s[..5]] + SplitDots(s[6..]);
  }

  /** `get k` finds the non-null value at path k below the "cache" map. */
  lemma CacheGetFollowsPath(settings: Document, key: string)
    ensures CacheGet(settings, key).key == key
    ensures CacheGet(settings, key).Found? <==>
      && "cache" in settings && settings["cache"].Object?
      && LookupPath(settings["cache"].fields, SplitDots(key)).Some?
      && !LookupPath(settings["cache"].fields, SplitDots(key)).value.Null?
    ensures CacheGet(settings, key).Found? ==>
      CacheGet(settings, key).value == LookupPath(settings["cache"].fields, SplitDots(key)).value
  {
    CachePath(key);
    var path := ["cache"] + SplitDots(key);
    assert path[1..] == SplitDots(key);
  }

  /** For a key without dots, `get k` is the cache entry k itself. */
  lemma CacheGetPlainKey(settings: Document, key: string)
    requires '.' !in key
    ensures CacheGet(settings, key) ==
      if key in CacheEntries(settings) && !CacheEntries(settings)[key].Null?
      then Found(key, CacheEntries(settings)[key])
      else NotFound(key)
  {
    CacheGetFollowsPath(settings, key);
    assert SplitDots(key) == [key];
  }

  // ----- refresh -----

  datatype RefreshReport = RefreshReport(successCount: nat, totalCount: nat, failedItems: seq<nat>)

  /** handleCacheRefresh: results[i] is whether the i-th refresh function
    * returned no error. Every function is run, each failure is warned about
    * by its 1-based number, the tally counts the successes, and the success
    * message is shown exactly when all succeeded. */
  method HandleRefresh(results: seq<bool>) returns (report: RefreshReport)
    ensures report.totalCount == |results|
    ensures report.successCount == multiset(results)[true]
    ensures report.failedItems == FailedNumbers(results)
    ensures report.successCount + |report.failedItems| == report.totalCount
    ensures AllSucceeded(report) <==> forall i :: 0 <= i < |results| ==> results[i]
  {
    var successCount := 0;
    var failed: seq<nat> := [];
    var i := 0;
    while i < |results|
      invariant 0 <= i <= |results|
      invariant successCount == multiset(results[..i])[true]
      invariant failed == FailedNumbers(results[..i])
    {
      assert results[..i + 1] == results[..i] + [results[i]];
      assert results[..i + 1][..i] == results[..i];
      if !results[i] {
        failed := failed + [i + 1];
      } else {
        successCount := successCount + 1;
      }
      i := i + 1;
    }
    assert results[..i] == results;
    FailedNumbersCount(results);
    FailedNumbersSound(results);
    FailedNumbersComplete(results);
    report := RefreshReport(successCount, |results|, failed);
    AllSucceededExactly(results, report);
  }

  /** The 1-based numbers of the failed refreshes, in order. */
  function FailedNumbers(results: seq<bool>): (r: seq<nat>)
    ensures |r| <= |results|
  {
    if results == [] then []
    else
      var prefix := results[..|results| - 1];
      FailedNumbers(prefix) + (if results[|results| - 1] then [] else [|results|])
  }

  /** The warnings and the successes together account for every refresh
    * function. */
  lemma {:induction false} FailedNumbersCount(results: seq<bool>)
    ensures multiset(results)[true] + |FailedNumbers(results)| == |results|
  {
    if results != [] {
      var prefix := results[..|results| - 1];
      FailedNumbersCount(prefix);
      assert results == prefix + [results[|results| - 1]];
    }
  }

  /** Every warning names a refresh function that failed, in increasing
    * order. */
  lemma {:induction false} FailedNumbersSound(results: seq<bool>)
    ensures var failed := FailedNumbers(results);
      && (forall j :: 0 <= j < |failed| ==> 1 <= failed[j] <= |results| && !results[failed[j] - 1])
      && (forall j, k :: 0 <= j < k < |failed| ==> failed[j] < failed[k])
  {
    if results != [] {
      var prefix := results[..|results| - 1];
      FailedNumbersSound(prefix);
      assert FailedNumbers(results) == FailedNumbers(prefix) + (if results[|results| - 1] then [] else [|results|]);
      forall j | 0 <= j < |FailedNumbers(prefix)|
        ensures 1 <= FailedNumbers(prefix)[j] <= |prefix|
        ensures results[FailedNumbers(prefix)[j] - 1] == prefix[FailedNumbers(prefix)[j] - 1]
      {
      }
    }
  }

  /** Every refresh function that failed is warned about. */
  lemma {:induction false} FailedNumbersComplete(results: seq<bool>)
    ensures forall i :: 0 <= i < |results| && !results[i] ==> i + 1 in FailedNumbers(results)
  {
    if results != [] {
      var n := |results|;
      var prefix := results[..n - 1];
      FailedNumbersComplete(prefix);
      forall i | 0 <= i < n && !results[i] ensures i + 1 in FailedNumbers(results) {
        if i < n - 1 {
          assert prefix[i] == results[i];
          assert i + 1 in FailedNumbers(prefix);
        }
      }
    }
  }

  lemma AllSucceededExactly(results: seq<bool>, report: RefreshReport)
    requires report.successCount + |report.failedItems| == report.totalCount == |results|
    requires forall j :: 0 <= j < |report.failedItems| ==>
      1 <= report.failedItems[j] <= |results| && !results[report.failedItems[j] - 1]
    requires forall i :: 0 <= i < |results| && !results[i] ==> i + 1 in report.failedItems
    ensures AllSucceeded(report) <==> forall i :: 0 <= i < |results| ==> results[i]
  {
    if |report.failedItems| > 0 {
      assert !results[report.failedItems[0] - 1];
    }
  }

  /** Whether "Cache refreshed successfully" is printed. */
  predicate AllSucceeded(report: RefreshReport) {
    report.successCount == report.totalCount
  }

  // ----- dispatch -----

  datatype Outcome =
    | Cleared(err: Option<ConfigError>)
    | Listed(report: ListReport)
    | Got(entry: GetReport)
    | Refreshed(refresh: RefreshReport)
    | MissingKey
    | UnknownCommand(name: string)

  /** CacheCmd.Run. The command-line library has already checked that there
    * are one or two arguments. `clear` deletes the top-level key "cache";
    * `get` without a key is a usage error and looks nothing up; any other
    * word than the four subcommands is an error followed by the help. */
  method Run(store: Store, args: seq<string>, lib: Codecs, reader: Codecs, refreshResults: seq<bool>)
    returns (outcome: Outcome)
    requires 1 <= |args| <= 2
    modifies store
    ensures args[0] == "clear" ==>
      && outcome.Cleared?
      && Effect(store.files, store.settings, outcome.err)
         == DeleteEffect(old(store.files), old(store.settings), store.used, store.unwritable, "cache", lib, reader)
    ensures args[0] != "clear" ==> unchanged(store)
    ensures args[0] == "list" ==> outcome.Listed? && Lists(CacheEntries(store.settings), outcome.report)
    ensures args[0] == "get" && |args| == 1 ==> outcome == MissingKey
    ensures args[0] == "get" && |args| == 2 ==> outcome == Got(CacheGet(store.settings, args[1]))
    ensures args[0] == "refresh" ==>
      && outcome.Refreshed?
      && outcome.refresh.totalCount == |refreshResults|
      && outcome.refresh.successCount == multiset(refreshResults)[true]
      && outcome.refresh.failedItems == FailedNumbers(refreshResults)
      && (AllSucceeded(outcome.refresh) <==> forall i :: 0 <= i < |refreshResults| ==> refreshResults[i])
    ensures args[0] !in ["clear", "list", "get", "refresh"] ==> outcome == UnknownCommand(args[0])
  {
    var command := args[0];
    match command
    case "clear" =>
      var err := store.DeleteConfigKey("cache", lib, reader);
      outcome := Cleared(err);
    case "list" =>
      var report := HandleList(CacheEntries(store.settings));
      outcome := Listed(report);
    case "get" =>
      if |args| < 2 {
        return MissingKey;
      }
      outcome := Got(CacheGet(store.settings, args[1]));
    case "refresh" =>
      var report := HandleRefresh(refreshResults);
      outcome := Refreshed(report);
    case _ =>
      outcome := UnknownCommand(command);
  }
}
