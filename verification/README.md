# pcli core, modelled in Dafny

pcli is a command-line tool that wraps the AWS CLI. This project models
and proves properties of four parts of it:

- the log-tail wrapper (`internal/aws.go`). It turns a Go `time.Duration`
  into the compact text `aws logs tail --since` expects: `90m`, `2h`, `1d`,
  or truncated seconds. It also builds the argument vector handed to `aws`.
- the configuration file editor (`internal/cache.go`). `DeleteConfigKey`
  removes one top-level key from the YAML or JSON file the configuration
  library is bound to. It writes the file back in the same format and
  reloads the in-memory settings.
- shell completion of CloudWatch log-group names
  (`internal/autocomplete.go`). This is a case-sensitive prefix filter over
  the names `aws logs describe-log-groups` returns, with no cache.
- the `cache` command (`cmd/cache/cache.go`):
  - `clear` deletes the top-level key `cache`;
  - `list` numbers the entries and gives each one a size descriptor;
  - `get` looks up `cache.<key>`;
  - `refresh` tallies the refresh functions that succeeded;
  - the dispatch routes between these subcommands.

Modules, one per source file:

- `Common`: `Option`, `Result`, bytes.
- `Decimal`: the text Go's `%d` prints for a natural number, and reading it back.
- `Aws`: `internal/aws.go`.
- `ConfigStore`: `internal/cache.go`. The configuration library's state is a
  class `Store` with a file system (a map from path to bytes), the bound path
  and the in-memory settings. `DeleteConfigKey` is a method on it, proved
  against the pure specification `DeleteEffect`.
- `AutoComplete`: `internal/autocomplete.go`.
- `CacheCommand`: `cmd/cache/cache.go`.

Several dependencies become parameters:

- The JSON and YAML libraries and the configuration library's reload
  decoder are passed in as codecs. Their decode and encode functions may
  fail.
- The output of the `aws` process is passed in as `None` when the command
  failed.
- The outcome of each refresh function is passed in as a boolean.

The model follows the code in two places where the command's help text says
otherwise:

- `--since` is passed whenever the duration is positive, also together with
  `--follow`. The flag help in `cmd/logs/tail.go:46` says it is "Ignored
  with --follow"; the code in `internal/aws.go:16-22` does not ignore it.
- Completion filters by a case-sensitive prefix on every call and caches
  nothing.

## Model

| member | source | states |
|---|---|---|
| Decimal.FromNat | internal/aws.go:52 | `%d` of a natural number is a non-empty string of digits, which starts with '0' only for 0 |
| Decimal.RoundTrip | internal/aws.go:52-61 | reading back the digits `%d` printed gives the same number |
| Aws.FormatSince | internal/aws.go:46-62 | the result is one or more digits followed by one unit letter from s, m, h, d. A non-positive duration gives exactly "0s", and the count has no leading zero (it starts with '0' only in "0s") |
| Aws.FormatSinceUnit | internal/aws.go:50-61 | a positive duration uses days iff it is a whole number of days; hours iff it is whole hours but not whole days; minutes iff it is whole minutes but not whole hours; seconds iff it is not whole minutes |
| Aws.FormatSinceDenotes | internal/aws.go:46-62 | the text denotes the duration truncated to whole seconds, or exactly the duration when it is whole minutes; a non-positive duration denotes 0 |
| Aws.FormatSinceNinetyMinutes | internal/aws.go:43-45 | 90 minutes is written "90m", not in hours |
| Aws.FormatSinceWholeUnits | internal/aws.go:50-56 | one day is "1d" and one hour is "1h" |
| Aws.FormatSinceTruncates | internal/aws.go:60-61 | 45 s is "45s"; half a second truncates to "0s" |
| Aws.BuildTailArgs | internal/aws.go:11-22 | the arguments are `logs tail <group>`; then `--follow` exactly when follow is set; then `--since <text>` exactly when since > 0, whether or not follow is set. The text denotes since truncated to whole seconds |
| ConfigStore.Ext | internal/cache.go:31 | the extension is a suffix of the path. It starts with the last '.' of the final path element and contains no other '.' and no '/'. It is empty only when every '.' is followed by a '/' |
| ConfigStore.ToLower | internal/cache.go:31 | lower-casing keeps the length and maps each character through the ASCII lower-case mapping |
| ConfigStore.KnownSuffixIsExt | internal/cache.go:31-37 | a path ending in .json, .yml or .yaml, in any letter case, has exactly that lower-cased extension |
| ConfigStore.FormatOf | internal/cache.go:30-47 | the format is chosen from the lower-cased extension. A known format means the name has a non-empty extension it ends with, ignoring case; anything else is an unsupported-format error naming the lower-cased extension |
| ConfigStore.FormatBySuffix | internal/cache.go:30-47 | JSON is chosen iff the name ends in ".json" ignoring case; YAML iff it ends in ".yml" or ".yaml"; any other name is an unsupported-format error |
| ConfigStore.Reencode | internal/cache.go:33-66 | the rewrite fails exactly when the document does not decode (unmarshal error) or the document without `key` does not encode (marshal error). Otherwise the result is the framed encoding of the document without `key` |
| ConfigStore.DeleteEffect | internal/cache.go:17-79 | a delete never adds or removes files; it changes at most the bound file; success requires a bound, readable file with a known extension |
| ConfigStore.WriteEffect | internal/cache.go:68-76 | the file system is either unchanged or has the bound file replaced by the rewritten bytes. Success means the bytes were written and the settings are what the reload decoder reads back. Any error other than a failed reload leaves files and settings unchanged |
| ConfigStore.Store.DeleteConfigKey | internal/cache.go:17-79 | the new file system, the new settings and the error are those `DeleteEffect` gives. The checks run in this order: no bound file, read failure, unsupported extension, unmarshal, marshal, write, reload |
| ConfigStore.FailureBeforeWriteChangesNothing | internal/cache.go:19-71 | every error except a failed reload leaves the files and the settings unchanged; an unbound library gives "no config file bound" |
| ConfigStore.WriteTouchesOnlyBoundFile | internal/cache.go:68-76 | if any file changes, the bound file was read, decoded and re-encoded, and it is writable. Only that file changes, to the re-encoded bytes. The outcome is success or a failed reload |
| ConfigStore.WrittenUnlessEarlyFailure | internal/cache.go:68-76 | success or a failed reload means the bound file holds the re-encoded bytes. On success the settings are what the reload decoder reads from that file, for any decoder; a failed reload keeps the old settings |
| ConfigStore.ReencodeRemovesOnlyKey | internal/cache.go:49-66 | with a codec that reads back what it writes, the rewritten file holds the old top-level keys minus `key`, with every other value unchanged |
| ConfigStore.ReencodeAbsentKey | internal/cache.go:49-50 | deleting an absent key is not an error; the document is encoded back unchanged |
| ConfigStore.ReencodeIdempotent | internal/cache.go:33-66 | with a codec that reads back what it writes, re-encoding the rewritten bytes again gives the same bytes |
| ConfigStore.ReencodeFraming | internal/cache.go:53-66 | JSON output is the encoder's bytes plus one trailing newline; YAML output is the encoder's bytes |
| ConfigStore.SettingsReflectDeletion | internal/cache.go:73-76 | after a successful delete, with a reload decoder that reads back what the library wrote, the in-memory settings are the file's old document without `key` |
| ConfigStore.WriteAgainChangesNothing | internal/cache.go:68-76 | writing the same bytes again over a successful write and reload changes nothing |
| ConfigStore.DeleteTwiceIsDeleteOnce | internal/cache.go:17-79 | with a codec that reads back what it writes, running the delete again on the state a successful delete left behind succeeds and changes nothing |
| AutoComplete.Matching | internal/autocomplete.go:35-42 | no more names are offered than were listed, and every name offered starts with the typed text (or nothing was typed) |
| AutoComplete.AutoCompleteLogGroups | internal/autocomplete.go:20-45 | the directive is always "no file completion". A failed command or undecodable output gives no suggestions. Otherwise the suggestions are the matching names, in response order |
| AutoComplete.EmptyPrefixOffersAll | internal/autocomplete.go:39 | with nothing typed, every listed name is offered, in order |
| AutoComplete.MatchingCounts | internal/autocomplete.go:37-42 | each name is offered as many times as it is listed if it matches, and never otherwise |
| AutoComplete.MatchingPositions | internal/autocomplete.go:37-42 | the offered names sit at strictly increasing positions of the listing |
| AutoComplete.MatchingIsSubsequence | internal/autocomplete.go:37-42 | the suggestions are a subsequence of the listing |
| CacheCommand.Utf8LengthBounds | cmd/cache/cache.go:102-103 | a string's byte length is between one and four bytes per character, and equals its character count for ASCII |
| CacheCommand.SizeDescriptorMeaning | cmd/cache/cache.go:99-108 | a string's size is "<bytes> chars"; a list or map's is "<count> items"; anything else is "N/A" |
| CacheCommand.SizeDescriptor | cmd/cache/cache.go:99-108 | the size is "N/A" exactly when the value is not a string, a list or a map |
| CacheCommand.CacheEntries | cmd/cache/cache.go:83 | the cache map is the "cache" setting when that is a map, and empty otherwise |
| CacheCommand.ListsInAnyOrder | cmd/cache/cache.go:96-117 | visiting each key once, in any order, gives a complete table numbered from 1 |
| CacheCommand.HandleList | cmd/cache/cache.go:82-121 | an empty cache gives no table. Otherwise there is one row per entry, with no key twice, numbered 1 to n in visiting order, each with its entry's size; the total is the entry count |
| CacheCommand.SplitDots | cmd/cache/cache.go:125-126 | a key path splits into at least one dot-free piece, and joining the pieces with dots gives the key back |
| CacheCommand.LookupPath | cmd/cache/cache.go:126 | a one-piece path finds the top-level value of that name; a longer path descends through the map stored under the first piece; nothing is found unless the first piece is present |
| CacheCommand.CachePath | cmd/cache/cache.go:125 | the path of "cache." + key is "cache" followed by the pieces of key |
| CacheCommand.CacheGetFollowsPath | cmd/cache/cache.go:124-132 | `get k` finds a value exactly when the cache is a map and holds a non-null value at path k; the value found is that one |
| CacheCommand.CacheGetPlainKey | cmd/cache/cache.go:124-132 | for a key without dots, `get k` finds exactly the non-null cache entry k |
| CacheCommand.CacheGet | cmd/cache/cache.go:124-132 | the report names the key asked for, and a found value is never null |
| CacheCommand.HandleRefresh | cmd/cache/cache.go:147-166 | the total is the number of refresh functions and the success count is the number that succeeded. The warnings name exactly the failed ones, by 1-based number. Successes plus warnings equal the total. The success message appears iff all succeeded |
| CacheCommand.FailedNumbers | cmd/cache/cache.go:153-155 | there are no more warnings than refresh functions |
| CacheCommand.FailedNumbersCount | cmd/cache/cache.go:150-159 | successes plus failures account for every refresh function |
| CacheCommand.FailedNumbersSound | cmd/cache/cache.go:153-155 | every warning names a failed function, and the numbers increase |
| CacheCommand.FailedNumbersComplete | cmd/cache/cache.go:153-155 | every failed function is warned about |
| CacheCommand.AllSucceededExactly | cmd/cache/cache.go:161-165 | the success message is printed iff every refresh function succeeded |
| CacheCommand.Run | cmd/cache/cache.go:43-67 | `clear` deletes the top-level key "cache" as `DeleteConfigKey` does. Every other subcommand leaves the store unchanged in this model; for `refresh` this holds only because the refresh functions are given as outcomes. `list` lists the cache map. `get` without a key is a usage error; with a key it looks up `cache.<key>`. `refresh` tallies the outcomes. Any other word is an unknown-command error |

## Left out

- Running the `aws` process, its standard streams, the "Running: aws …" debug line and the wrapping of its error in `GetLogs` are I/O. Only the argument vector is modelled.
- The JSON and YAML libraries are abstract codecs. The model does not capture the exact bytes `yaml.Marshal` or `json.MarshalIndent` produce, or which inputs they reject. The round-trip properties assume a codec that reads back what it wrote (`Faithful`).
- ConfigStore.Store.DeleteConfigKey: a write error is modelled as a path that cannot be written, with the file left as it was. A partly written or truncated file after a failed `os.WriteFile` is not modelled.
- There is no write to a temporary file and rename, and no locking; concurrent writers are not modelled.
- The configuration library's global state is reduced to the bound path and the settings map. These are not modelled: its case-insensitive keys, environment and flag overrides, defaults, and the conversion of a JSON string in `GetStringMap`.
- CacheCommand.CacheGet: `viper.Get` is modelled as a nested lookup along the '.'-separated key path through maps. Keys that themselves contain dots, and lookups through lists, are not modelled.
- The table rendering, the `%T` type column, the emoji messages and the indented-JSON output of `get` are printing. The JSON marshalling error path in `get` ("Error formatting cache data") is left out. With the model's integer numbers every value marshals. In Go, a YAML `.nan` or `.inf` decodes to a NaN or infinite float64, which `json.MarshalIndent` rejects.
- `CacheLogGroups` is not part of this model. The refresh functions are therefore outcomes given as input, and a refresh does not change the store in the model.
- Numbers in configuration files are modelled as unbounded integers. Floating point and Go's 64-bit range are not modelled.
- ConfigStore.ToLower: only ASCII letters are lower-cased, not all of Unicode. No non-ASCII character lower-cases to a letter of ".json", ".yml" or ".yaml", so the format classification is not affected.
- The difference between a nil and an empty Go slice or map, and a document that decodes to JSON `null`, are not modelled.
- The command-line library's check of one or two arguments is the precondition of CacheCommand.Run; its help output for an unknown subcommand is printing.
