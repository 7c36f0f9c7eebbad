/**
 * The layered loading of config.go: `getEnvVarFilename`,
 * `overrideConfigFromEnv`, `readConfigFile` and `ReadConfig`, over a
 * `Config` object whose map the loading updates in place. The file system
 * and the process environment are parameters.
 */
module Loader {
  import opened Wrappers
  import opened Strings
  import opened Scanner
  import opened Parser

  /** The prefix that marks an environment entry as a configuration override. */
  const OverridePrefix: string := "TINYCONFIG_OVERRIDE_"

  /** The key whose value names the environment variable that selects a second file. */
  const ConfigEnvVarKey: string := "configEnvVar"

  /** What opening a configuration file gives: no such file, another failure, or its text. */
  datatype FileOutcome = Missing | OpenFailed(reason: string) | Contents(text: string)

  /** The error `readConfigFile` returns: the file and why it could not be opened. */
  datatype Error = Error(file: string, reason: string)

  /**
   * `getEnvVarFilename`: `_` and the token inserted just before the first
   * `.` of the name, or at its end when it has none.
   */
  function GetEnvVarFilename(envToken: string, filename: string): (r: string)
    ensures exists k ::
      && 0 <= k <= |filename| && '.' !in filename[..k] && (k == |filename| || filename[k] == '.')
      && r == filename[..k] + "_" + envToken + filename[k..]
  {
    IndexOfChar(filename, '.');
    if !Contains(filename, ".") then
      assert filename[..|filename|] == filename && filename[|filename|..] == "";
      filename + "_" + envToken
    else
      // strings.SplitN(filename, ".", 2): the text before the first dot and everything after it
      var dot := Index(filename, ".");
      var stem, rest := filename[..dot], filename[dot + 1..];
      assert '.' !in stem && filename[dot] == '.';
      var tagged := stem + "_" + envToken;
      assert tagged + "." + rest == tagged + filename[dot..] by {
        assert filename[dot..] == "." + rest;
      }
      tagged + "." + rest
  }

  /** A name without a dot gets `_` and the token at its end. */
  lemma GetEnvVarFilenameWithoutDot(envToken: string, filename: string)
    requires '.' !in filename
    ensures GetEnvVarFilename(envToken, filename) == filename + "_" + envToken
  {
    IndexOfChar(filename, '.');
  }

  /** A name is split at its first dot only: `stem.rest` becomes `stem_token.rest`. */
  lemma GetEnvVarFilenameAtFirstDot(envToken: string, stem: string, rest: string)
    requires '.' !in stem
    ensures GetEnvVarFilename(envToken, stem + "." + rest) == stem + "_" + envToken + "." + rest
  {
    var filename := stem + "." + rest;
    assert filename == stem + ['.'] + rest;
    IndexAfterPrefix(stem, '.', rest);
    IndexOfChar(filename, '.');
    assert filename[..|stem|] == stem && filename[|stem| + 1..] == rest;
  }

  /** What one environment entry adds to the override text: what follows the prefix, or nothing. */
  function OverrideFragment(entry: string): (r: string)
    ensures HasPrefix(entry, OverridePrefix) ==> entry == OverridePrefix + r
    ensures !HasPrefix(entry, OverridePrefix) ==> r == ""
  {
    if HasPrefix(entry, OverridePrefix) then entry[|OverridePrefix|..] else ""
  }

  /** The text `overrideConfigFromEnv` builds: the fragments of the entries, in order, with no separator. */
  function OverrideText(environ: seq<string>): string {
    if environ == [] then "" else OverrideText(environ[..|environ| - 1]) + OverrideFragment(environ[|environ| - 1])
  }

  /** An entry that starts with the prefix contributes exactly what follows it. */
  lemma FragmentOfPrefixed(rest: string)
    ensures OverrideFragment(OverridePrefix + rest) == rest
  {
    var entry := OverridePrefix + rest;
    assert entry[..|OverridePrefix|] == OverridePrefix;
    assert entry[|OverridePrefix|..] == rest;
  }

  /** One more entry adds its fragment at the end. */
  lemma OverrideTextSnoc(s: seq<string>, entry: string)
    ensures OverrideText(s + [entry]) == OverrideText(s) + OverrideFragment(entry)
  {
    var t := s + [entry];
    assert t[..|t| - 1] == s && t[|t| - 1] == entry;
  }

  /** The override text of two runs of entries is the two texts one after the other. */
  lemma {:induction false} OverrideTextAppend(a: seq<string>, b: seq<string>)
    ensures OverrideText(a + b) == OverrideText(a) + OverrideText(b)
  {
    if b == [] {
      assert a + b == a;
    } else {
      var front, last := b[..|b| - 1], b[|b| - 1];
      var x, y, z := OverrideText(a), OverrideText(front), OverrideFragment(last);
      assert OverrideText(b) == y + z by {
        assert b == front + [last];
        OverrideTextSnoc(front, last);
      }
      assert OverrideText(a + b) == (x + y) + z by {
        assert a + b == (a + front) + [last];
        OverrideTextSnoc(a + front, last);
        OverrideTextAppend(a, front);
      }
      assert (x + y) + z == x + (y + z);
    }
  }

  /** The override text of one entry is that entry's fragment. */
  lemma OverrideTextSingle(entry: string)
    ensures OverrideText([entry]) == OverrideFragment(entry)
  {
    assert [entry][..0] == [];
  }

  /** Entries without the prefix add nothing, wherever they stand. */
  lemma OverrideTextIgnores(a: seq<string>, entry: string, b: seq<string>)
    requires !HasPrefix(entry, OverridePrefix)
    ensures OverrideText(a + [entry] + b) == OverrideText(a + b)
  {
    OverrideTextAppend(a + [entry], b);
    OverrideTextAppend(a, [entry]);
    OverrideTextAppend(a, b);
    OverrideTextSingle(entry);
  }

  /** A key and value fit to be passed as one override line. */
  ghost predicate OverrideLine(key: string, value: string) {
    && ValidKey(key) && key[0] != '#' && '\n' !in key
    && Free(value, "//") && '\n' !in value
  }

  /** A text holding one line `key=value` sets `key` to the trimmed `value` and changes nothing else. */
  lemma AssignmentText(m: ConfigMap, key: string, value: string)
    requires OverrideLine(key, value)
    ensures ApplyText(m, key + "=" + value) == m[key := TypedForms(TrimSpace(value))]
  {
    var line := key + "=" + value;
    assert '\n' !in line by { assert line == key + ['='] + value; }
    ScanOneLine(line);
    if value != "" && value[|value| - 1] == '\r' {
      // The scanner drops the final carriage return, and trimming would have dropped it anyway.
      var shorter := value[..|value| - 1];
      assert value == shorter + "\r";
      assert DropCR(line) == key + "=" + shorter by {
        assert line == (key + "=" + shorter) + "\r";
      }
      FreeSlice(value, "//", 0, |value| - 1);
      ApplyAssignmentLine(m, key, shorter);
      TrimSpaceRightPadded(shorter, "\r");
    } else {
      assert DropCR(line) == line by {
        if value == "" { assert line[|line| - 1] == '='; } else { assert line[|line| - 1] == value[|value| - 1]; }
      }
      ApplyAssignmentLine(m, key, value);
    }
  }

  /** A single entry `TINYCONFIG_OVERRIDE_key=value` sets `key` to the trimmed `value` and changes nothing else. */
  lemma SingleOverride(m: ConfigMap, key: string, value: string)
    requires OverrideLine(key, value)
    ensures ApplyText(m, OverrideText([OverridePrefix + key + "=" + value])) == m[key := TypedForms(TrimSpace(value))]
  {
    JoinAssignment(OverridePrefix, key, value);
    FragmentOfPrefixed(key + "=" + value);
    OverrideTextSingle(OverridePrefix + key + "=" + value);
    AssignmentText(m, key, value);
  }

  /** Two prefixed entries give their two fragments with nothing between them. */
  lemma OverrideTextPair(r1: string, r2: string)
    ensures OverrideText([OverridePrefix + r1, OverridePrefix + r2]) == r1 + r2
  {
    var e1, e2 := OverridePrefix + r1, OverridePrefix + r2;
    FragmentOfPrefixed(r1);
    FragmentOfPrefixed(r2);
    OverrideTextSingle(e1);
    OverrideTextSingle(e2);
    OverrideTextAppend([e1], [e2]);
    assert [e1] + [e2] == [e1, e2];
  }

  /** Regrouping `p + k + "=" + v` around its assignment. */
  lemma JoinAssignment(p: string, k: string, v: string)
    ensures p + k + "=" + v == p + (k + "=" + v)
  {
  }

  /** Two assignments run together are one assignment whose value holds the second. */
  lemma Rejoin(k1: string, eq: string, v1: string, k2: string, v2: string)
    ensures (k1 + eq + v1) + (k2 + eq + v2) == k1 + eq + (v1 + k2 + eq + v2)
  {
  }

  /** The override text of two `key=value` entries is the first key, `=`, and the rest run together. */
  lemma OverrideTextTwoAssignments(k1: string, v1: string, k2: string, v2: string)
    ensures OverrideText([OverridePrefix + k1 + "=" + v1, OverridePrefix + k2 + "=" + v2]) == k1 + "=" + (v1 + k2 + "=" + v2)
  {
    JoinAssignment(OverridePrefix, k1, v1);
    JoinAssignment(OverridePrefix, k2, v2);
    OverrideTextPair(k1 + "=" + v1, k2 + "=" + v2);
    Rejoin(k1, "=", v1, k2, v2);
  }

  /**
   * Two override entries run together into one line: the second entry's
   * text becomes part of the first one's value.
   */
  lemma TwoOverridesJoin(m: ConfigMap, k1: string, v1: string, k2: string, v2: string)
    requires OverrideLine(k1, v1 + k2 + "=" + v2)
    ensures ApplyText(m, OverrideText([OverridePrefix + k1 + "=" + v1, OverridePrefix + k2 + "=" + v2]))
         == m[k1 := TypedForms(TrimSpace(v1 + k2 + "=" + v2))]
  {
    OverrideTextTwoAssignments(k1, v1, k2, v2);
    AssignmentText(m, k1, v1 + k2 + "=" + v2);
  }

  /**
   * The source's `Config` as a shared object: the map that the loading
   * steps update in place.
   */
  class Config {
    var entries: ConfigMap

    constructor ()
      ensures entries == map[]
    {
      entries := map[];
    }

    /**
     * `addConfigFromReader`: applies every line the scanner finds in
     * `text`, in order. It never returns an error.
     */
    method AddConfigFromReader(text: string) returns (err: Option<Error>)
      modifies this
      ensures entries == ApplyText(old(entries), text)
      ensures err == None
    {
      var lines := ScanLines(text);
      var i := 0;
      while i < |lines|
        invariant 0 <= i <= |lines|
        invariant entries == ApplyLines(old(entries), lines[..i])
      {
        TakeOneMore(lines, i);
        ApplyLinesSnoc(old(entries), lines[..i], lines[i]);
        var parsed := ParseLine(lines[i]);
        if parsed.Some? {
          entries := entries[parsed.value.key := parsed.value.value];
        }
        i := i + 1;
      }
      assert lines[..|lines|] == lines;
      // scanner.Err(): a text that is already in hand is read without failure.
      return None;
    }

    /**
     * `readConfigFile`: a missing file is not an error and changes nothing;
     * a file that cannot be opened changes nothing and is the error; the
     * text of a file is applied.
     */
    method ReadConfigFile(filename: string, fs: string -> FileOutcome) returns (err: Option<Error>)
      modifies this
      ensures fs(filename).Missing? ==> entries == old(entries) && err == None
      ensures fs(filename).OpenFailed? ==> entries == old(entries) && err == Some(Error(filename, fs(filename).reason))
      ensures fs(filename).Contents? ==> entries == ApplyText(old(entries), fs(filename).text) && err == None
      ensures (entries, err) == ReadFile(old(entries), filename, fs)
    {
      match fs(filename)
      case Missing =>
        return None;
      case OpenFailed(reason) =>
        return Some(Error(filename, reason));
      case Contents(text) =>
        err := AddConfigFromReader(text);
        return None;
    }

    /**
     * `overrideConfigFromEnv`: the fragments of the prefixed entries, run
     * together into one text, applied like a file.
     */
    method OverrideConfigFromEnv(environ: seq<string>)
      modifies this
      ensures entries == ApplyText(old(entries), OverrideText(environ))
    {
      var res := "";
      for i := 0 to |environ|
        invariant res == OverrideText(environ[..i])
      {
        var v := environ[i];
        assert environ[..i + 1][..i] == environ[..i];
        if HasPrefix(v, OverridePrefix) {
          var configK := v[|OverridePrefix|..];
          res := res + configK;
        }
      }
      assert environ[..|environ|] == environ;
      var ignored := AddConfigFromReader(res);
    }
  }

  /** What `readConfigFile` makes of a map: the new map and the error. */
  function ReadFile(m: ConfigMap, filename: string, fs: string -> FileOutcome): (ConfigMap, Option<Error>) {
    (if fs(filename).Contents? then ApplyText(m, fs(filename).text) else m, FileError(filename, fs))
  }

  /** The outcome of a load: the map, the error returned, and the files it tried to read, in order. */
  datatype Loaded = Loaded(entries: ConfigMap, err: Option<Error>, attempted: seq<string>)

  /** The file layers of `ReadConfig`, applied to the map of the defaults. */
  function FileLayers(base: ConfigMap, filename: string, fs: string -> FileOutcome, getenv: string -> string): Loaded {
    if filename == "" then Loaded(base, None, [])
    else
      var (primary, err) := ReadFile(base, filename, fs);
      if err.Some? || ConfigEnvVarKey !in primary then Loaded(primary, err, [filename])
      else
        var envVarValue := getenv(primary[ConfigEnvVarKey].StrVal);
        if envVarValue == "" then Loaded(primary, None, [filename])
        else
          var second := GetEnvVarFilename(envVarValue, filename);
          var (secondary, err2) := ReadFile(primary, second, fs);
          Loaded(secondary, err2, [filename, second])
  }

  /** `ReadConfig` as layers: the defaults, the primary file, the selected second file, the overrides. */
  function Load(filename: string, defaultConfig: string, fs: string -> FileOutcome,
                getenv: string -> string, environ: seq<string>): Loaded
  {
    var files := FileLayers(ApplyText(map[], defaultConfig), filename, fs, getenv);
    files.(entries := ApplyText(files.entries, OverrideText(environ)))
  }

  /** The error `readConfigFile` returns for a file: only a file that cannot be opened gives one. */
  function FileError(filename: string, fs: string -> FileOutcome): (err: Option<Error>)
    ensures err.Some? <==> fs(filename).OpenFailed?
  {
    if fs(filename).OpenFailed? then Some(Error(filename, fs(filename).reason)) else None
  }

  /** The map after reading `files` in order, each over the map the one before left. */
  function ReadAll(m: ConfigMap, files: seq<string>, fs: string -> FileOutcome): ConfigMap {
    if files == [] then m else ReadFile(ReadAll(m, files[..|files| - 1], fs), files[|files| - 1], fs).0
  }

  /** Reading one file, or two in turn. */
  lemma ReadAllShort(m: ConfigMap, f: string, g: string, fs: string -> FileOutcome)
    ensures ReadAll(m, [], fs) == m
    ensures ReadAll(m, [f], fs) == ReadFile(m, f, fs).0
    ensures ReadAll(m, [f, g], fs) == ReadFile(ReadFile(m, f, fs).0, g, fs).0
  {
    assert [f][..0] == [];
    assert [f, g][..1] == [f];
  }

  /** `ReadConfigFile`'s outcome as a function: its map and its error. */
  lemma ReadFileError(m: ConfigMap, filename: string, fs: string -> FileOutcome)
    ensures ReadFile(m, filename, fs).1 == FileError(filename, fs)
    ensures !fs(filename).Contents? ==> ReadFile(m, filename, fs).0 == m
  {
  }

  /**
   * The files the layering tries: none for an empty name; otherwise the
   * named file, and then the file that the environment variable named by
   * `configEnvVar` selects, when the first read gave no error, the key is
   * set, and that variable is not empty.
   */
  lemma FileLayersAttempts(base: ConfigMap, filename: string, fs: string -> FileOutcome, getenv: string -> string)
    ensures var r := FileLayers(base, filename, fs, getenv);
      && (r.attempted == [] <==> filename == "")
      && |r.attempted| <= 2
      && (r.attempted != [] ==> r.attempted[0] == filename)
    ensures var r := FileLayers(base, filename, fs, getenv);
      var primary := ReadFile(base, filename, fs).0;
      && (|r.attempted| == 2 <==>
            filename != "" && !fs(filename).OpenFailed? && ConfigEnvVarKey in primary
            && getenv(primary[ConfigEnvVarKey].StrVal) != "")
      && (|r.attempted| == 2 ==> r.attempted[1] == GetEnvVarFilename(getenv(primary[ConfigEnvVarKey].StrVal), filename))
  {
    ReadFileError(base, filename, fs);
  }

  /**
   * The error of the layering is the one from the last file it tried, and
   * when the second file is tried the first was opened or missing: loading
   * stops at the first file that cannot be opened.
   */
  lemma FileLayersError(base: ConfigMap, filename: string, fs: string -> FileOutcome, getenv: string -> string)
    ensures var r := FileLayers(base, filename, fs, getenv);
      && (|r.attempted| == 0 ==> r.err == None)
      && (|r.attempted| == 1 ==> r.err == FileError(filename, fs))
      && (|r.attempted| == 2 ==> !fs(filename).OpenFailed? && r.err == FileError(r.attempted[1], fs))
  {
    ReadFileError(base, filename, fs);
    var primary := ReadFile(base, filename, fs).0;
    if filename != "" && !fs(filename).OpenFailed? && ConfigEnvVarKey in primary {
      ReadFileError(primary, GetEnvVarFilename(getenv(primary[ConfigEnvVarKey].StrVal), filename), fs);
    }
  }

  /** The map of the layering is the base map with the files it tried read over it in order. */
  lemma FileLayersEntries(base: ConfigMap, filename: string, fs: string -> FileOutcome, getenv: string -> string)
    ensures var r := FileLayers(base, filename, fs, getenv);
      r.entries == ReadAll(base, r.attempted, fs)
  {
    var primary := ReadFile(base, filename, fs).0;
    if filename != "" && !fs(filename).OpenFailed? && ConfigEnvVarKey in primary {
      ReadAllShort(base, filename, GetEnvVarFilename(getenv(primary[ConfigEnvVarKey].StrVal), filename), fs);
    } else {
      ReadAllShort(base, filename, filename, fs);
    }
  }

  /**
   * A load: the files it tries, its error and its map, from the map of the
   * defaults and the override text.
   */
  lemma LoadLayers(filename: string, defaultConfig: string, fs: string -> FileOutcome,
                   getenv: string -> string, environ: seq<string>)
    ensures var r := Load(filename, defaultConfig, fs, getenv, environ);
      var files := FileLayers(ApplyText(map[], defaultConfig), filename, fs, getenv);
      && r.attempted == files.attempted && r.err == files.err
      && r.entries == ApplyText(ReadAll(ApplyText(map[], defaultConfig), r.attempted, fs), OverrideText(environ))
  {
    FileLayersEntries(ApplyText(map[], defaultConfig), filename, fs, getenv);
  }

  /** A key the override text assigns has, after a load, the value its last override line gives it. */
  lemma OverridesWin(filename: string, defaultConfig: string, fs: string -> FileOutcome,
                     getenv: string -> string, environ: seq<string>, key: string)
    requires LastValue(ScanLines(OverrideText(environ)), key).Some?
    ensures var r := Load(filename, defaultConfig, fs, getenv, environ);
      key in r.entries && r.entries[key] == LastValue(ScanLines(OverrideText(environ)), key).value
  {
    var files := FileLayers(ApplyText(map[], defaultConfig), filename, fs, getenv);
    ApplyLinesValue(files.entries, ScanLines(OverrideText(environ)), key);
  }

  /** A key the override text does not assign keeps what the defaults and files gave it, or stays absent. */
  lemma OverridesKeepOthers(filename: string, defaultConfig: string, fs: string -> FileOutcome,
                            getenv: string -> string, environ: seq<string>, key: string)
    requires !Assigns(ScanLines(OverrideText(environ)), key)
    ensures var r := Load(filename, defaultConfig, fs, getenv, environ);
      var files := FileLayers(ApplyText(map[], defaultConfig), filename, fs, getenv);
      && (key in r.entries <==> key in files.entries)
      && (key in files.entries ==> r.entries[key] == files.entries[key])
  {
    var files := FileLayers(ApplyText(map[], defaultConfig), filename, fs, getenv);
    LastValueAssigns(ScanLines(OverrideText(environ)), key);
    ApplyLinesValue(files.entries, ScanLines(OverrideText(environ)), key);
  }

  /**
   * `ReadConfig`: the defaults, then the primary file, then the file the
   * environment selects, then the environment overrides. The `goto
   * checkEnviron` of the source is a labelled block left by `break`.
   */
  method ReadConfig(filename: string, defaultConfig: string, fs: string -> FileOutcome,
                    getenv: string -> string, environ: seq<string>)
    returns (config: Config, err: Option<Error>)
    ensures fresh(config)
    ensures config.entries == Load(filename, defaultConfig, fs, getenv, environ).entries
    ensures err == Load(filename, defaultConfig, fs, getenv, environ).err
  {
    config := new Config();
    err := config.AddConfigFromReader(defaultConfig);
    ghost var files := FileLayers(config.entries, filename, fs, getenv);
    label checkEnviron: {
      if |filename| == 0 {
        break checkEnviron;
      }
      err := config.ReadConfigFile(filename, fs);
      if err.Some? {
        break checkEnviron;
      }
      if ConfigEnvVarKey !in config.entries {
        break checkEnviron;
      }
      var envVarName := config.entries[ConfigEnvVarKey].StrVal;
      var envVarValue := getenv(envVarName);
      if envVarValue != "" {
        var envFilename := GetEnvVarFilename(envVarValue, filename);
        err := config.ReadConfigFile(envFilename, fs);
        if err.Some? {
          break checkEnviron;
        }
      }
    }
    assert config.entries == files.entries && err == files.err;
    config.OverrideConfigFromEnv(environ);
  }
}
