/**
 * Format-preserving deletion of one top-level key from the configuration
 * file (internal/cache.go, DeleteConfigKey). The file system is a map from
 * path to bytes; the JSON and YAML libraries are passed in as codecs that
 * may fail, and so is the decoder the configuration library reloads with.
 */
module ConfigStore {
  import opened Common

  type Path = string

  /** A decoded configuration value: the untyped nested map Go decodes into. */
  datatype Value =
    | Null
    | Bool(b: bool)
    | Number(n: int)
    | Str(s: string)
    | List(items: seq<Value>)
    | Object(fields: map<string, Value>)

  type Document = map<string, Value>

  datatype Format = Yaml | Json

  /** A serialisation library: decoding and encoding may each fail. */
  datatype Codec = Codec(decode: Bytes -> Option<Document>, encode: Document -> Option<Bytes>)

  datatype Codecs = Codecs(yaml: Codec, json: Codec) {
    function For(f: Format): Codec {
      match f
      case Yaml => yaml
      case Json => json
    }
  }

  datatype ConfigError =
    | NotBound
    | ReadFailed(path: Path)
    | UnsupportedFormat(ext: string)
    | UnmarshalFailed(format: Format)
    | MarshalFailed(format: Format)
    | WriteFailed(path: Path)
    | ReloadFailed

  // ----- file name extension and lower-casing -----

  /** filepath.Ext: the suffix from the last '.' of the final path element,
    * or "" when that element has no '.'. */
  function Ext(path: string): (e: string)
    ensures |e| <= |path| && e == path[|path| - |e|..]
    ensures e != [] ==> e[0] == '.' && '.' !in e[1..] && '/' !in e
    ensures e == [] ==> forall i :: 0 <= i < |path| && path[i] == '.' ==> '/' in path[i..]
  {
    if path == [] then []
    else
      var c := path[|path| - 1];
      if c == '/' then []
      else if c == '.' then [c]
      else
        var e := Ext(path[..|path| - 1]);
        if e == [] then [] else e + [c]
  }

  function LowerChar(c: char): char {
    if 'A' <= c <= 'Z' then (c as int + 32) as char else c
  }

  /** strings.ToLower, for the ASCII letters. */
  function ToLower(s: string): (r: string)
    ensures |r| == |s| && forall i :: 0 <= i < |s| ==> r[i] == LowerChar(s[i])
  {
    if s == [] then [] else ToLower(s[..|s| - 1]) + [LowerChar(s[|s| - 1])]
  }

  /** The format chosen from the lower-cased extension. */
  function FormatOf(path: Path): (r: Result<Format, ConfigError>)
    ensures r.Ok? ==> Ext(path) != [] && EndsWithIgnoringCase(path, ToLower(Ext(path)))
    ensures r.Err? ==> r.error == UnsupportedFormat(ToLower(Ext(path)))
  {
    var ext := ToLower(Ext(path));
    if ext == ".yml" || ext == ".yaml" then Ok(Yaml)
    else if ext == ".json" then Ok(Json)
    else Err(UnsupportedFormat(ext))
  }

  predicate EndsWithIgnoringCase(path: string, suffix: string) {
    |suffix| <= |path| && ToLower(path[|path| - |suffix|..]) == suffix
  }

  /** A suffix made of a '.' and then neither '.' nor '/' is the extension. */
  lemma {:induction false} ExtOfSuffix(path: string, n: nat)
    requires 1 <= n <= |path| && path[|path| - n] == '.'
    requires forall i :: |path| - n < i < |path| ==> path[i] != '.' && path[i] != '/'
    ensures Ext(path) == path[|path| - n..]
  {
    if n > 1 {
      var p := path[..|path| - 1];
      assert p[|p| - (n - 1)] == '.';
      ExtOfSuffix(p, n - 1);
      assert path[|path| - n..] == p[|p| - (n - 1)..] + [path[|path| - 1]];
    }
  }

  lemma LowerIsDot(c: char)
    requires LowerChar(c) != '.' && LowerChar(c) != '/'
    ensures c != '.' && c != '/'
  {
  }

  /** A name ending in one of the known extensions, in any letter case, has
    * exactly that extension. */
  lemma KnownSuffixIsExt(path: string, suffix: string)
    requires suffix == ".json" || suffix == ".yml" || suffix == ".yaml"
    requires EndsWithIgnoringCase(path, suffix)
    ensures ToLower(Ext(path)) == suffix
  {
    var n := |suffix|;
    var t := path[|path| - n..];
    assert LowerChar(t[0]) == suffix[0] == '.';
    forall i | |path| - n < i < |path| ensures path[i] != '.' && path[i] != '/' {
      assert path[i] == t[i - (|path| - n)];
      assert LowerChar(path[i]) == suffix[i - (|path| - n)];
      LowerIsDot(path[i]);
    }
    ExtOfSuffix(path, n);
  }

  /** JSON is chosen exactly for names ending in ".json" in any letter case,
    * YAML exactly for ".yml" or ".yaml"; every other name is an
    * unsupported format. */
  lemma FormatBySuffix(path: Path)
    ensures FormatOf(path) == Ok(Json) <==> EndsWithIgnoringCase(path, ".json")
    ensures FormatOf(path) == Ok(Yaml) <==>
      EndsWithIgnoringCase(path, ".yml") || EndsWithIgnoringCase(path, ".yaml")
    ensures FormatOf(path).Err? <==>
      !EndsWithIgnoringCase(path, ".json") && !EndsWithIgnoringCase(path, ".yml")
      && !EndsWithIgnoringCase(path, ".yaml")
  {
    var e := Ext(path);
    var ext := ToLower(e);
    assert EndsWithIgnoringCase(path, ext) by {
      assert path[|path| - |ext|..] == e;
    }
    assert ".json" != ".yml" && ".json" != ".yaml" && ".yml" != ".yaml" by {
      assert ".json"[1] != ".yaml"[1];
    }
    if EndsWithIgnoringCase(path, ".json") {
      KnownSuffixIsExt(path, ".json");
    }
    if EndsWithIgnoringCase(path, ".yml") {
      KnownSuffixIsExt(path, ".yml");
    }
    if EndsWithIgnoringCase(path, ".yaml") {
      KnownSuffixIsExt(path, ".yaml");
    }
  }

  // ----- the delete itself -----

  const Newline: bv8 := 10

  /** The bytes written for an encoded document: JSON output gets a
    * trailing newline. */
  function Framed(f: Format, encoded: Bytes): Bytes {
    if f == Json then encoded + [Newline] else encoded
  }

  /** Steps 3 to 5 on the bytes read, once the format f is known: decode,
    * delete the top-level key, encode in the same format. The ensures
    * define these steps; their meaning is proved by the Reencode lemmas
    * below. */
  function Reencode(f: Format, c: Codec, raw: Bytes, key: string): (r: Result<Bytes, ConfigError>)
    ensures r.Err? <==> c.decode(raw).None? || c.encode(c.decode(raw).value - {key}).None?
    ensures r.Err? ==> r.error == (if c.decode(raw).None? then UnmarshalFailed(f) else MarshalFailed(f))
    ensures r.Ok? ==> r.value == Framed(f, c.encode(c.decode(raw).value - {key}).value)
  {
    match c.decode(raw)
    case None => Err(UnmarshalFailed(f))
    case Some(data) =>
      match c.encode(data - {key})
      case None => Err(MarshalFailed(f))
      case Some(updated) => Ok(Framed(f, updated))
  }

  /** What reading back a document written by `enc` in format f with `dec`
    * gives, when the two libraries agree: the document itself. */
  ghost predicate Faithful(enc: Codec, dec: Codec, f: Format) {
    forall d :: enc.encode(d).Some? ==> dec.decode(Framed(f, enc.encode(d).value)) == Some(d)
  }

  /** The new file system, in-memory configuration and error of one call. */
  datatype Effect = Effect(files: map<Path, Bytes>, settings: Document, err: Option<ConfigError>)

  /** The specification of DeleteConfigKey: `used` is the file the
    * configuration library reports in use ("" when none), `unwritable` the
    * paths a write to fails, `reader` the decoders it reloads with. */
  function DeleteEffect(files: map<Path, Bytes>, settings: Document, used: Path,
                        unwritable: set<Path>, key: string, lib: Codecs, reader: Codecs): (e: Effect)
    ensures e.files.Keys == files.Keys
    ensures e.files != files ==> used in files && e.files == files[used := e.files[used]]
    ensures e.err.None? ==> used != "" && used in files && FormatOf(used).Ok?
  {
    if used == "" then Effect(files, settings, Some(NotBound))
    else if used !in files then Effect(files, settings, Some(ReadFailed(used)))
    else
      match FormatOf(used)
      case Err(e) => Effect(files, settings, Some(e))
      case Ok(f) => WriteEffect(files, settings, used, unwritable, f, Reencode(f, lib.For(f), files[used], key), reader.For(f))
  }

  /** Steps 6 and 7: write the re-encoded bytes back and reload from them. */
  function WriteEffect(files: map<Path, Bytes>, settings: Document, used: Path, unwritable: set<Path>,
                       f: Format, rewritten: Result<Bytes, ConfigError>, reader: Codec): (e: Effect)
    ensures e.files == files || (rewritten.Ok? && used !in unwritable && e.files == files[used := rewritten.value])
    ensures e.err.None? ==> rewritten.Ok? && used !in unwritable && used in e.files && reader.decode(e.files[used]) == Some(e.settings)
    ensures e.err.Some? && e.err.value != ReloadFailed ==> e.files == files && e.settings == settings
  {
    match rewritten
    case Err(e) => Effect(files, settings, Some(e))
    case Ok(updated) =>
      if used in unwritable then Effect(files, settings, Some(WriteFailed(used)))
      else
        var written := files[used := updated];
        match reader.decode(updated)
        case None => Effect(written, settings, Some(ReloadFailed))
        case Some(reloaded) => Effect(written, reloaded, None)
  }

  /** The configuration library's state: the file it is bound to and the
    * settings it holds in memory, over a file system. */
  class Store {
    var files: map<Path, Bytes>
    const unwritable: set<Path>
    const used: Path
    var settings: Document

    constructor (files: map<Path, Bytes>, unwritable: set<Path>, used: Path, settings: Document)
      ensures this.files == files && this.unwritable == unwritable
      ensures this.used == used && this.settings == settings
    {
      this.files := files;
      this.unwritable := unwritable;
      this.used := used;
      this.settings := settings;
    }

    /** DeleteConfigKey: remove one top-level key from the bound file,
      * write it back in its own format and reload the settings from it. */
    method DeleteConfigKey(key: string, lib: Codecs, reader: Codecs) returns (err: Option<ConfigError>)
      modifies this
      ensures Effect(files, settings, err)
        == DeleteEffect(old(files), old(settings), used, unwritable, key, lib, reader)
    {
      if used == "" {
        return Some(NotBound);
      }
      if used !in files {
        return Some(ReadFailed(used));
      }
      var raw := files[used];
      var format := FormatOf(used);
      if format.Err? {
        return Some(format.error);
      }
      var f := format.value;
      var decoded := lib.For(f).decode(raw);
      if decoded.None? {
        return Some(UnmarshalFailed(f));
      }
      var data := decoded.value;
      data := data - {key};
      var encoded := lib.For(f).encode(data);
      if encoded.None? {
        return Some(MarshalFailed(f));
      }
      var updated := encoded.value;
      if f == Json {
        updated := updated + [Newline];
      }
      if used in unwritable {
        return Some(WriteFailed(used));
      }
      files := files[used := updated];
      var reloaded := reader.For(f).decode(files[used]);
      if reloaded.None? {
        return Some(ReloadFailed);
      }
      settings := reloaded.value;
      return None;
    }
  }

  // ----- properties of the specification -----

  /** Every failure up to and including the write leaves the file system and
    * the settings as they were; only a failed reload follows a write. */
  lemma FailureBeforeWriteChangesNothing(files: map<Path, Bytes>, settings: Document, used: Path,
                                         unwritable: set<Path>, key: string, lib: Codecs, reader: Codecs)
    ensures var e := DeleteEffect(files, settings, used, unwritable, key, lib, reader);
      e.err.Some? && e.err.value != ReloadFailed ==> e.files == files && e.settings == settings
    ensures used == "" ==>
      DeleteEffect(files, settings, used, unwritable, key, lib, reader) == Effect(files, settings, Some(NotBound))
  {
    if used != "" && used in files && FormatOf(used).Ok? {
      var f := FormatOf(used).value;
      var rewritten := Reencode(f, lib.For(f), files[used], key);
      assert DeleteEffect(files, settings, used, unwritable, key, lib, reader)
        == WriteEffect(files, settings, used, unwritable, f, rewritten, reader.For(f));
    }
  }

  /** A write happens only when the bound file was read, decoded and
    * re-encoded and is writable; it replaces that one file with the
    * re-encoded bytes and nothing else, and a reload failure is still
    * reported as an error afterwards. */
  lemma WriteTouchesOnlyBoundFile(files: map<Path, Bytes>, settings: Document, used: Path,
                                  unwritable: set<Path>, key: string, lib: Codecs, reader: Codecs)
    ensures var e := DeleteEffect(files, settings, used, unwritable, key, lib, reader);
      e.files != files ==>
        && used != "" && used in files && used !in unwritable && FormatOf(used).Ok?
        && var f := FormatOf(used).value;
        && Reencode(f, lib.For(f), files[used], key).Ok?
        && e.files == files[used := Reencode(f, lib.For(f), files[used], key).value]
        && (e.err.None? || e.err == Some(ReloadFailed))
  {
    if used != "" && used in files && FormatOf(used).Ok? {
      var f := FormatOf(used).value;
      var rewritten := Reencode(f, lib.For(f), files[used], key);
      assert DeleteEffect(files, settings, used, unwritable, key, lib, reader)
        == WriteEffect(files, settings, used, unwritable, f, rewritten, reader.For(f));
    }
  }

  /** Success or a failed reload means the write happened: the bound file
    * holds the re-encoded bytes. On success the settings are what the
    * reload decoder reads from the new file, whatever that decoder is; a
    * failed reload keeps the old settings. */
  lemma WrittenUnlessEarlyFailure(files: map<Path, Bytes>, settings: Document, used: Path,
                                  unwritable: set<Path>, key: string, lib: Codecs, reader: Codecs)
    ensures var e := DeleteEffect(files, settings, used, unwritable, key, lib, reader);
      (e.err.None? || e.err == Some(ReloadFailed)) ==>
        && used != "" && used in files && used !in unwritable && FormatOf(used).Ok?
        && var f := FormatOf(used).value;
        && Reencode(f, lib.For(f), files[used], key).Ok?
        && e.files == files[used := Reencode(f, lib.For(f), files[used], key).value]
        && (e.err.None? ==> reader.For(f).decode(e.files[used]) == Some(e.settings))
        && (e.err == Some(ReloadFailed) ==> reader.For(f).decode(e.files[used]).None? && e.settings == settings)
  {
    var e := DeleteEffect(files, settings, used, unwritable, key, lib, reader);
    if used != "" && used in files && FormatOf(used).Ok? {
      var f := FormatOf(used).value;
      var rewritten := Reencode(f, lib.For(f), files[used], key);
      assert e == WriteEffect(files, settings, used, unwritable, f, rewritten, reader.For(f));
      match rewritten
      case Err(_) =>
        assert e.err.Some? && e.err.value != ReloadFailed;
      case Ok(out) =>
        if used in unwritable {
          assert e.err == Some(WriteFailed(used));
        } else {
          var written := files[used := out];
          assert written[used] == out;
          match reader.For(f).decode(out)
          case None =>
            assert e == Effect(written, settings, Some(ReloadFailed));
          case Some(reloaded) =>
            assert e == Effect(written, reloaded, None);
        }
    } else {
      assert e.err.Some? && e.err.value != ReloadFailed;
    }
  }

  /** With a codec whose decoder reads back what its encoder wrote, the
    * re-encoded bytes hold the decoded document without `key` and with
    * every other top-level entry unchanged. */
  lemma ReencodeRemovesOnlyKey(f: Format, c: Codec, raw: Bytes, key: string)
    requires Reencode(f, c, raw, key).Ok?
    requires Faithful(c, c, f)
    ensures var before := c.decode(raw).value;
      var after := c.decode(Reencode(f, c, raw, key).value);
      && after.Some?
      && key !in after.value
      && after.value.Keys == before.Keys - {key}
      && forall k :: k in after.value ==> after.value[k] == before[k]
  {
    var data := c.decode(raw).value;
    assert c.encode(data - {key}).Some?;
  }

  /** Deleting an absent key is no error: the decoded document is encoded
    * back unchanged. */
  lemma ReencodeAbsentKey(f: Format, c: Codec, raw: Bytes, key: string)
    requires c.decode(raw).Some? && key !in c.decode(raw).value
    requires c.encode(c.decode(raw).value).Some?
    ensures Reencode(f, c, raw, key) == Ok(Framed(f, c.encode(c.decode(raw).value).value))
  {
    assert c.decode(raw).value - {key} == c.decode(raw).value;
  }

  /** Re-encoding what a re-encoding produced gives the very same bytes. */
  lemma ReencodeIdempotent(f: Format, c: Codec, raw: Bytes, key: string)
    requires Reencode(f, c, raw, key).Ok?
    requires Faithful(c, c, f)
    ensures Reencode(f, c, Reencode(f, c, raw, key).value, key) == Reencode(f, c, raw, key)
  {
    var data := c.decode(raw).value;
    assert c.encode(data - {key}).Some?;
    assert (data - {key}) - {key} == data - {key};
  }

  /** JSON output ends in a newline; YAML output is the encoder's bytes. */
  lemma ReencodeFraming(f: Format, c: Codec, raw: Bytes, key: string)
    requires Reencode(f, c, raw, key).Ok?
    ensures var out := Reencode(f, c, raw, key).value;
      var encoded := c.encode(c.decode(raw).value - {key});
      && encoded.Some?
      && (f == Json ==> |out| == |encoded.value| + 1 && out[..|encoded.value|] == encoded.value && out[|out| - 1] == Newline)
      && (f == Yaml ==> out == encoded.value)
  {
  }

  /** After a successful delete the in-memory settings are the file's old
    * document without `key`, when the reload decoder reads what the
    * library wrote. */
  lemma SettingsReflectDeletion(files: map<Path, Bytes>, settings: Document, used: Path,
                                unwritable: set<Path>, key: string, lib: Codecs, reader: Codecs)
    requires DeleteEffect(files, settings, used, unwritable, key, lib, reader).err.None?
    requires FormatOf(used).Ok?
    requires Faithful(lib.For(FormatOf(used).value), reader.For(FormatOf(used).value), FormatOf(used).value)
    ensures var e := DeleteEffect(files, settings, used, unwritable, key, lib, reader);
      var f := FormatOf(used).value;
      && used in files && lib.For(f).decode(files[used]).Some?
      && e.settings == lib.For(f).decode(files[used]).value - {key}
  {
    var f := FormatOf(used).value;
    var c := lib.For(f);
    var data := c.decode(files[used]).value;
    assert c.encode(data - {key}).Some?;
  }

  /** Writing the same bytes again over a successful write and reload
    * leaves everything as it was. */
  lemma WriteAgainChangesNothing(files: map<Path, Bytes>, settings: Document, used: Path, unwritable: set<Path>,
                                 f: Format, out: Bytes, reader: Codec)
    requires WriteEffect(files, settings, used, unwritable, f, Ok(out), reader).err.None?
    ensures var e1 := WriteEffect(files, settings, used, unwritable, f, Ok(out), reader);
      WriteEffect(e1.files, e1.settings, used, unwritable, f, Ok(out), reader) == e1
  {
    var e1 := WriteEffect(files, settings, used, unwritable, f, Ok(out), reader);
    assert e1.files[used := out] == e1.files;
  }

  /** Running the delete a second time on the state the first left behind
    * changes nothing and succeeds again. */
  lemma DeleteTwiceIsDeleteOnce(files: map<Path, Bytes>, settings: Document, used: Path,
                                unwritable: set<Path>, key: string, lib: Codecs, reader: Codecs)
    requires DeleteEffect(files, settings, used, unwritable, key, lib, reader).err.None?
    requires FormatOf(used).Ok?
    requires Faithful(lib.For(FormatOf(used).value), lib.For(FormatOf(used).value), FormatOf(used).value)
    ensures var e1 := DeleteEffect(files, settings, used, unwritable, key, lib, reader);
      DeleteEffect(e1.files, e1.settings, used, unwritable, key, lib, reader) == e1
  {
    var f := FormatOf(used).value;
    var c := lib.For(f);
    var raw := files[used];
    var out := Reencode(f, c, raw, key).value;
    var e1 := WriteEffect(files, settings, used, unwritable, f, Ok(out), reader.For(f));
    ReencodeIdempotent(f, c, raw, key);
    WriteAgainChangesNothing(files, settings, used, unwritable, f, out, reader.For(f));
    assert e1.files[used] == out;
  }
}
