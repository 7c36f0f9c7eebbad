# go-tinyconfig in Dafny

A model of `config.go` of go-tinyconfig: a small key/value configuration
loader. It reads a default configuration given as text, then an optional
file, then an optional second file that an environment variable selects, and
finally the environment overrides. Each layer overwrites the keys it
assigns. Every value is parsed as it is read into a string form, an integer
form (Go's `strconv.Atoi`, 64-bit, 0 on error) and a boolean form.

The modules follow the program:

- `Wrappers`: `Option`.
- `Strings`: the parts of Go's `strings` and `bytes` packages that the
  loader calls:
  - `TrimSpace`, over ASCII white space;
  - `Index`, `Contains` and `HasPrefix`;
  - `IndexByte`.
- `Strconv`: `strconv.Atoi`. This covers the fast path for short inputs and
  the `ParseInt`/`ParseUint` path with its 64-bit range check.
- `Scanner`: `bufio.ScanLines` over a whole text. It splits at `\n`, drops a
  `\r` before it, and gives a last line when the text does not end in `\n`.
- `Parser`:
  - the `StringOrInt` record, `getValues`, and one iteration of
    `addConfigFromReader`'s loop (`ParseLine`);
  - what a sequence of lines does to the map (`ApplyLines`, `ApplyText`).
- `Loader`:
  - `getEnvVarFilename` and the override text of `overrideConfigFromEnv`;
  - the class `Config`, whose map `addConfigFromReader`, `readConfigFile`
    and `overrideConfigFromEnv` update in place;
  - the layering of `ReadConfig` as a function (`Load`) and as a method that
    is proved equal to it.
- `SampleConfig`: the lines of the default configuration in config_test.go,
  each with what the test expects of it.

The file system, `os.Getenv` and `os.Environ` are parameters. The file system
is `fs: string -> FileOutcome`, which returns `Missing`,
`OpenFailed(reason)` or `Contents(text)`. `os.Getenv` is a function from
string to string. `os.Environ` is a sequence of `NAME=value` strings.

The fragments after `TINYCONFIG_OVERRIDE_` are written one after the other
with no separator (config.go:166). So two override entries run together into
one line, and the second entry becomes part of the first one's value. `Loader.TwoOverridesJoin` proves this.

## Model

| member | source | states |
|---|---|---|
| Strings.TrimSpace | config.go:178 | the trimmed string starts and ends with a non-space (or is empty) and is no longer than its input |
| Strings.TrimSpaceCut | config.go:239 | the trimmed string is a slice `s[i..j]` of its input with only white space outside it |
| Strings.TrimSpaceBlank | config.go:239 | trimming gives "" exactly when the input is all white space (so a blank key is empty) |
| Strings.TrimSpaceUnique | config.go:178 | any split of the input into white space, a trimmed middle and white space gives that middle as the trim |
| Strings.TrimSpacePadded | config.go:239 | white space added around a string does not change its trim |
| Strings.TrimSpaceOfTrimmed | config.go:239 | a string without white space at either end is its own trim |
| Strings.TrimSpaceKeeps | config.go:239 | trimming adds no `=` and no `//` that were not there |
| Strings.Index | config.go:231 | the result is -1 exactly when the pattern does not occur; otherwise the pattern occurs there and nowhere before |
| Strings.IndexOfChar | config.go:38 | for a one-character pattern, `Index` is -1 exactly when the character is absent, else its first position |
| Strings.IndexByte | config.go:209-210 | -1 exactly when the byte is absent; otherwise the position of its first occurrence |
| Strconv.Atoi | config.go:193-196 | success exactly for an optional sign and one or more digits whose value lies in the 64-bit range; the result is that value |
| Strconv.ParseInt | config.go:193 | the slow path accepts the same strings as `Atoi` and gives the same value |
| Strconv.ParseUint | config.go:193 | unsigned parsing accepts one or more digits whose value is at most 2^64-1, and gives that value |
| Strconv.DigitsValueConcat | config.go:193 | the value of two runs of digits is the first shifted by the length of the second, plus the second |
| Scanner.DropCR | config.go:209-211 | a scanned line loses its final `\r` exactly when it has one, and nothing else |
| Scanner.ScanLines | config.go:209-211 | no scanned line holds a `\n` |
| Scanner.ScanOneLine | config.go:209-211 | proof step: a text without `\n` is one line (without a final `\r`) |
| Scanner.ScanAfterLine | config.go:209-211 | a line, `\n` and a rest scan as that line followed by the lines of the rest |
| Scanner.ScanUnlines | config.go:209-211 | lines without `\n` or a final `\r`, each written with a `\n` after it, scan back to the same lines |
| Scanner.UnlinesScan | config.go:209-211 | a text without `\r`, split into lines and written back with a `\n` after each, is the text with a final `\n` added when it lacked one |
| Parser.TypedForms | config.go:183-204 | `BoolVal` is false exactly for `false`; `true`/`false` are stored as "1"/"0"; `IntVal` is the decimal value of the stored string when `Atoi` accepts it, otherwise 0, always within 64 bits |
| Parser.BoolLiteralForms | config.go:183-196 | for `true` and `false` the integer form is 1 or 0, matching the boolean form |
| Parser.DigitLiteral | config.go:186-193 | "1" and "0" (and any single digit) are accepted by `Atoi` with their digit's value |
| Parser.EmptyValueForms | config.go:176-196 | an empty value is stored as "" with integer form 0 and boolean form true |
| Parser.GetValues | config.go:175-179 | the value after index `equal`, trimmed, in its typed forms, or the forms of "" when nothing follows; what it stores is stated by `Parser.ParseAssignment`, `Parser.TypedForms` and `Parser.EmptyValueForms` |
| Parser.CodePart | config.go:231-236 | the kept part of a line is the whole line when it holds no `//`, and otherwise the prefix that ends at the first `//` |
| Parser.ParseLine | config.go:223-244 | a line starting with `#` assigns nothing; a line with no `=` before its `//` assigns nothing; an assigned key is non-empty, trimmed and holds no `=` or `//` |
| Parser.KeyBeforeEqual | config.go:238-239 | the trimmed text before the first `=` of the kept part is a valid key unless it is empty |
| Parser.AssignmentCodePart | config.go:231-236 | the kept part of `key = value // comment` is everything before the comment |
| Parser.AssignmentKey | config.go:238-239 | in `key = value` the first `=` follows the key and its white space, the key comes back trimmed, and the text after `=` is the value |
| Parser.ParseAssignment | config.go:175-244 | a line `key = value`, with white space before the key and around `=` and an optional `//` comment, assigns the trimmed value's typed forms to the key; the value may hold `=` or be empty; a line indented before `#` is not a comment |
| Parser.SimpleAssignment | config.go:238-241 | a line `key=value` with a value that has no white space at its ends stores that value's typed forms under the key |
| Parser.BlankCodePart | config.go:231-236 | proof step: the kept part of a blank-key line with a comment is everything before the comment |
| Parser.BlankKeyIgnored | config.go:238-244 | a line whose text before the first `=` is only white space assigns nothing |
| Parser.ParseLineSteps | config.go:223-241 | proof step: for a non-comment line whose kept part has its first `=` after a non-blank key, the entry is that key with the typed forms of the trimmed rest |
| Parser.ParseLineBlank | config.go:238-239 | proof step: for a non-comment line whose key before the first `=` trims to "", nothing is assigned |
| Parser.ParseAll | config.go:210-244 | one parse result per line, each the result of that line alone |
| Parser.Upsert | config.go:241 | storing the parsed entries in order, each overwriting its key; stated by `Parser.UpsertValue` and `Parser.UpsertAppend` |
| Parser.UpsertValue | config.go:241 | after storing entries a key holds the value of its last entry; a key with no entry keeps its old value, or stays absent |
| Parser.UpsertAppend | config.go:241 | storing two runs of entries in turn is storing their concatenation |
| Parser.ApplyLines | config.go:210-244 | the loop of `addConfigFromReader` over a sequence of lines; stated by `Parser.ApplyLinesValue`, `Parser.ApplyLinesKeys` and `Parser.ApplyLinesAppend` |
| Parser.ApplyText | config.go:208-247 | the map after the lines the scanner finds in a text; `Loader.Config.AddConfigFromReader` is proved to compute it |
| Parser.ApplyLinesValue | config.go:208-247 | after a sequence of lines a key holds the value of the last line that assigns it; a key no line assigns keeps its old value, or stays absent |
| Parser.LastValueAssigns | config.go:238-241 | a key has a last assigning line exactly when some line assigns it |
| Parser.ApplyLinesKeys | config.go:208-247 | the keys afterwards are exactly the old keys plus the keys some line assigns |
| Parser.LastValueIsLast | config.go:241 | the value of a key is decided by the last line that assigns it, whatever came before |
| Parser.ApplyLinesAppend | config.go:208-247 | reading two runs of lines in turn is reading their concatenation |
| Parser.ApplyLinesSnoc | config.go:241 | proof step: one more line leaves the map unchanged when it assigns nothing, and otherwise sets exactly its key |
| Parser.ApplyAssignmentLine | config.go:238-241 | a lone line `key=value` sets exactly that key to the trimmed value's typed forms |
| Loader.GetEnvVarFilename | config.go:37-45 | the result is the name with `_` and the token inserted at its first `.`, or at its end when it has no `.` |
| Loader.GetEnvVarFilenameWithoutDot | config.go:38-40 | a name without `.` gets `_token` at its end |
| Loader.GetEnvVarFilenameAtFirstDot | config.go:42-44 | `stem.rest`, with no `.` in the stem, becomes `stem_token.rest`; later dots stay in the rest |
| Loader.OverrideText | config.go:157-168 | the text the builder collects; stated by `Loader.OverrideTextAppend`, `Loader.OverrideTextIgnores` and `Loader.OverrideTextPair`, and computed by `Loader.Config.OverrideConfigFromEnv` |
| Loader.OverrideFragment | config.go:162-163 | a prefixed entry contributes exactly what follows the prefix; any other entry contributes nothing |
| Loader.FragmentOfPrefixed | config.go:162-163 | an entry made of the prefix and a rest contributes that rest |
| Loader.OverrideTextSnoc | config.go:161-167 | proof step: one more entry adds its fragment at the end of the text |
| Loader.OverrideTextAppend | config.go:161-168 | the override text of two runs of entries is their two texts one after the other |
| Loader.OverrideTextSingle | config.go:161-168 | proof step: the override text of one entry is its fragment |
| Loader.OverrideTextIgnores | config.go:161-162 | an entry without the prefix changes nothing, wherever it stands |
| Loader.AssignmentText | config.go:170-172 | a text holding one line `key=value` sets exactly that key to the trimmed value's typed forms |
| Loader.SingleOverride | config.go:156-172 | a single entry `TINYCONFIG_OVERRIDE_key=value` sets `key` to the trimmed value and changes nothing else |
| Loader.OverrideTextPair | config.go:161-168 | two prefixed entries give their two fragments with nothing between them |
| Loader.OverrideTextTwoAssignments | config.go:161-170 | two `key=value` override entries make one line: the first key, `=`, and the rest run together |
| Loader.TwoOverridesJoin | config.go:156-172 | two override entries set only the first key, to a value that holds the second entry's text |
| Loader.Config.constructor | config.go:62 | a new configuration is empty |
| Loader.Config.AddConfigFromReader | config.go:208-247 | the map afterwards is the old map with the scanned lines of the text applied in order; no error is returned |
| Loader.Config.ReadConfigFile | config.go:117-152 | a missing file changes nothing and is no error; a file that cannot be opened changes nothing and is the error; a file's text is applied and is no error |
| Loader.Config.OverrideConfigFromEnv | config.go:156-173 | the map afterwards is the old map with the override text of the environment applied |
| Loader.ReadFile | config.go:117-152 | `readConfigFile` as a function of the map; stated by `Loader.ReadFileError` and computed by `Loader.Config.ReadConfigFile` |
| Loader.FileError | config.go:125-136 | the error part of `ReadFile`: an error exactly when the file exists but cannot be opened |
| Loader.ReadAllShort | config.go:76-107 | proof step: reading no file, one file, or two files in turn, each over the map the one before left |
| Loader.ReadFileError | config.go:117-152 | the error of reading a file is `FileError`, and a file without contents leaves the map as it was |
| Loader.FileLayers | config.go:70-107 | the file layers of `ReadConfig`; stated by `Loader.FileLayersAttempts`, `Loader.FileLayersError` and `Loader.FileLayersEntries` |
| Loader.Load | config.go:54-115 | `ReadConfig` as a function; stated by `Loader.LoadLayers`, `Loader.OverridesWin` and `Loader.OverridesKeepOthers`, and computed by `Loader.ReadConfig` |
| Loader.FileLayersAttempts | config.go:70-107 | no file is tried for an empty name; otherwise the named file, and the second file exactly when the first read gave no error, `configEnvVar` is set and the variable it names is non-empty; the second is `getEnvVarFilename(value, filename)` |
| Loader.FileLayersError | config.go:76-114 | the returned error is that of the last file tried, or none; the second file is tried only after the first was opened or missing |
| Loader.FileLayersEntries | config.go:76-107 | the map after the file layers is the defaults with the tried files read over them in order |
| Loader.LoadLayers | config.go:54-115 | a load is the defaults, then the tried files in order, then the override text; its error is that of the file layers |
| Loader.OverridesWin | config.go:109-114 | a key the override text assigns ends up with the value of its last override line, whatever the files said |
| Loader.OverridesKeepOthers | config.go:109-114 | a key the override text does not assign keeps what the defaults and files gave it, or stays absent |
| SampleConfig.SampleAssignment | config_test.go:8-14 | proof step: a `key=value` line of plain characters stores the value's typed forms |
| SampleConfig.NumConfigLine | config_test.go:9 | the test's `numConfig=4` stores "4" with integer form 4 and boolean form true |
| SampleConfig.NumListLine | config_test.go:10 | the test's `numList=1,2,3` stores the string "1,2,3" under `numList`; the comma split the test counts is not part of this model |
| SampleConfig.BoolConfigLine | config_test.go:11 | the test's `boolConfig=true` stores "1" with integer form 1 and boolean form true |
| SampleConfig.StringConfigLine | config_test.go:12 | the test's `stringConfig=Chris Lane` stores "Chris Lane", with its inner space |
| SampleConfig.CommentLines | config_test.go:8-13 | the test's comment lines `#` and `# test comment` assign nothing |
| SampleConfig.IndentedHashLine | config.go:223-225 | only column 0 marks a comment: ` #k=v` assigns the key `#k` |
| Loader.ReadConfig | config.go:54-115 | the method, including its `goto`-based control flow, returns a fresh configuration whose map and error are those of `Load` |

## Left out

- `Float64Val` and `strconv.ParseFloat` (config.go:34, 198-202): floating point is not modelled. The record keeps `StrVal`, `IntVal` and `BoolVal`.
- `os.Executable`, `path.Dir`, `path.Join`, `os.Open`, `file.Close` and the `panic` when the executable cannot be found (config.go:118-140): file-system plumbing. The lookup `fs` is called with the configured name and says missing, cannot be opened, or contents.
- Loader.Error: the error value is the configured file name and a reason. It is not Go's `*PathError` over the joined path.
- `os.Getenv` and `os.Environ` (config.go:93, 159) are parameters. The order of `environ` is the enumeration order, which the platform decides.
- `log.Println` calls: diagnostics only.
- Loader.Config.AddConfigFromReader: the 64 KiB token limit of `bufio.Scanner` is not modelled. A longer line would stop the scan early.
- Loader.Config.AddConfigFromReader: a read that fails after the file was opened is not modelled. `FileOutcome` has only three outcomes (missing, cannot be opened, contents), so it cannot express it. With such a failure `bufio.Scanner` still hands over a buffered last line, and `scanner.Err()` then returns the error (config.go:213-221). `readConfigFile` returns that error after the lines read so far were merged (config.go:144-149), and `ReadConfig` carries it on to the overrides. The model never takes this path, so `AddConfigFromReader` always returns no error.
- `ReadConfig`'s early return of `nil, err` after the defaults (config.go:65-68) is unreachable, because reading from a `strings.Reader` does not fail. The method leaves it out.
- Strings.TrimSpace: trims the six ASCII white-space characters only. The Unicode white space that Go's `strings.TrimSpace` also removes is not modelled.
- Strconv.Atoi works on characters where Go works on bytes. The two agree on every string `Atoi` accepts, since the signs and digits are ASCII. Go's error values (`ErrSyntax`, `ErrRange`) collapse to `None`, because the source only tests for an error and stores 0.
- The test's default configuration (config_test.go:8-14) is stated line by line in `SampleConfig`, but not as one text. Scanning the whole literal text is more than the verifier's resource limit allows. `Scanner.ScanUnlines` and `Parser.ApplyLinesValue` state what scanning and applying such a text gives, for every text.
