/**
 * The line parser of config.go (`addConfigFromReader` and `getValues`):
 * how one line of configuration text becomes a key and a value, and how a
 * sequence of lines updates the map from key to value.
 */
module Parser {
  import opened Wrappers
  import opened Strings
  import opened Strconv
  import opened Scanner

  /**
   * One configuration value with its forms parsed at read time
   * (the source's `StringOrInt`, without `Float64Val`).
   */
  datatype StringOrInt = StringOrInt(StrVal: string, IntVal: int, BoolVal: bool)

  /** The source's `Config`: a map from key to value. */
  type ConfigMap = map<string, StringOrInt>

  /** A key and the value a configuration line assigns to it. */
  datatype Entry = Entry(key: string, value: StringOrInt)

  /** True when `Atoi` accepts `s`. */
  predicate IsInt(s: string) {
    IsDecimal(s) && InInt64(DecimalValue(s))
  }

  /**
   * The typed forms of a trimmed value: `true` and `false` become "1" and
   * "0", `BoolVal` is false only for `false`, and `IntVal` is what
   * `strconv.Atoi` makes of the stored string, or 0 when it fails.
   */
  function TypedForms(value: string): (v: StringOrInt)
    ensures v.BoolVal <==> value != "false"
    ensures v.StrVal == (if value == "true" then "1" else if value == "false" then "0" else value)
    ensures IsInt(v.StrVal) ==> v.IntVal == DecimalValue(v.StrVal)
    ensures !IsInt(v.StrVal) ==> v.IntVal == 0
    ensures InInt64(v.IntVal)
  {
    var (str, boolVal) :=
      if value == "true" then ("1", true)
      else if value == "false" then ("0", false)
      else (value, true);
    var num := match Atoi(str) case Some(n) => n case None => 0;
    StringOrInt(str, num, boolVal)
  }

  /** `getValues`: the trimmed text after index `equal` of `l`, in its typed forms. */
  function GetValues(l: string, equal: nat): StringOrInt {
    var value := if |l| > equal then TrimSpace(l[equal + 1..]) else "";
    TypedForms(value)
  }

  /** The part of a line before its first "//". */
  function CodePart(line: string): (l: string)
    ensures HasPrefix(line, l) && Free(l, "//")
    ensures l == line || OccursAt(line, "//", |l|)
    ensures forall j :: 0 <= j < |l| ==> !OccursAt(line, "//", j)
  {
    var slashSlash := Index(line, "//");
    if slashSlash >= 0 then FreeBeforeIndex(line, "//"); line[..slashSlash] else line
  }

  /** What a key accepted by the parser looks like. */
  ghost predicate ValidKey(key: string) {
    key != "" && Trimmed(key) && '=' !in key && Free(key, "//")
  }

  /**
   * One iteration of `addConfigFromReader`'s loop: a comment line, a line
   * without `=` in front of its "//" and a line whose key is blank assign
   * nothing; any other line assigns the trimmed text before the first `=`.
   */
  function ParseLine(line: string): (r: Option<Entry>)
    ensures |line| > 0 && line[0] == '#' ==> r == None
    ensures '=' !in CodePart(line) ==> r == None
    ensures r.Some? ==> ValidKey(r.value.key)
  {
    if |line| > 0 && line[..1] == "#" then None
    else
      var l := CodePart(line);
      var equal := Index(l, "=");
      if equal >= 0 then
        var key := TrimSpace(l[..equal]);
        KeyBeforeEqual(l);
        if |key| > 0 then Some(Entry(key, GetValues(l, equal))) else None
      else
        IndexOfChar(l, '=');
        None
  }

  /** The trimmed text before the first `=` of a line's code part is a valid key unless it is blank. */
  lemma KeyBeforeEqual(l: string)
    requires Free(l, "//") && Index(l, "=") >= 0
    ensures Index(l, "=") < |l|
    ensures TrimSpace(l[..Index(l, "=")]) != "" ==> ValidKey(TrimSpace(l[..Index(l, "=")]))
  {
    var equal := Index(l, "=");
    IndexOfChar(l, '=');
    FreeSlice(l, "//", 0, equal);
    TrimSpaceKeeps(l[..equal], '=', "//");
  }

  /** The code part of an assignment line with an optional "//" comment is the line without the comment. */
  lemma AssignmentCodePart(lead: string, key: string, gap: string, value: string, comment: string)
    requires AllSpace(lead) && AllSpace(gap) && Free(key, "//") && Free(value, "//")
    requires comment == "" || (HasPrefix(comment, "//") && (value == "" || value[|value| - 1] != '/'))
    ensures CodePart(lead + key + gap + "=" + value + comment) == lead + key + gap + "=" + value
  {
    var front := lead + key + gap;
    var code := front + "=" + value;
    var line := code + comment;
    SpaceIsFree(lead, '/', '/');
    SpaceIsFree(gap, '/', '/');
    FreeConcat(lead, key, '/', '/');
    FreeConcat(lead + key, gap, '/', '/');
    FreeWithout("=", '/', '/');
    FreeConcat(front, "=", '/', '/');
    FreeConcat(front + "=", value, '/', '/');
    if comment == "" {
      assert line == code;
    } else {
      assert code[|code| - 1] != '/' by {
        if value == [] {
          assert code == front + "=";
        } else {
          assert code[|code| - 1] == value[|value| - 1];
        }
      }
      IndexAtJoin(code, comment, '/', '/');
    }
  }

  /** In `lead key gap = value`, the first `=` follows the gap and the trimmed text before it is the key. */
  lemma AssignmentKey(lead: string, key: string, gap: string, value: string)
    requires AllSpace(lead) && AllSpace(gap) && ValidKey(key)
    ensures Index(lead + key + gap + "=" + value, "=") == |lead + key + gap|
    ensures TrimSpace((lead + key + gap + "=" + value)[..|lead + key + gap|]) == key
    ensures (lead + key + gap + "=" + value)[|lead + key + gap| + 1..] == value
  {
    var front := lead + key + gap;
    var code := front + "=" + value;
    assert '=' !in front by {
      forall k | 0 <= k < |front| ensures front[k] != '=' {
        if k < |lead| { assert front[k] == lead[k]; }
        else if k < |lead| + |key| { assert front[k] == key[k - |lead|]; }
        else { assert front[k] == gap[k - |lead| - |key|]; }
      }
    }
    IndexAfterPrefix(front, '=', value);
    assert code == front + ['='] + value;
    assert code[..|front|] == front;
    TrimSpacePadded(lead, key, gap);
    TrimSpaceOfTrimmed(key);
    assert code[|front| + 1..] == value;
  }

  /**
   * A line written as `key = value`, with any white space before the key and
   * around `=`, and optionally a "//" comment, assigns the trimmed value to
   * the key. The value may contain `=` and may be empty.
   */
  lemma ParseAssignment(lead: string, key: string, gap: string, value: string, comment: string)
    requires AllSpace(lead) && AllSpace(gap)
    requires ValidKey(key) && (lead != "" || key[0] != '#')
    requires Free(value, "//")
    requires comment == "" || (HasPrefix(comment, "//") && (value == "" || value[|value| - 1] != '/'))
    ensures ParseLine(lead + key + gap + "=" + value + comment) == Some(Entry(key, TypedForms(TrimSpace(value))))
  {
    var front := lead + key + gap;
    var code := front + "=" + value;
    var line := code + comment;
    assert line[0] != '#' by {
      if lead != [] { assert line[0] == lead[0]; } else { assert line[0] == key[0]; }
    }
    AssignmentCodePart(lead, key, gap, value, comment);
    AssignmentKey(lead, key, gap, value);
    ParseLineSteps(line, code, |front|, key);
  }

  /** A line `key=value` with nothing around `=` and a value without white space at its ends stores that value. */
  lemma SimpleAssignment(key: string, value: string)
    requires ValidKey(key) && key[0] != '#' && Free(value, "//") && Trimmed(value)
    ensures ParseLine(key + "=" + value) == Some(Entry(key, TypedForms(value)))
  {
    assert "" + key + "" + "=" + value + "" == key + "=" + value;
    ParseAssignment("", key, "", value, "");
    TrimSpaceOfTrimmed(value);
  }

  /** A line whose text before the first `=` is only white space assigns nothing, comment or not. */
  lemma BlankKeyIgnored(gap: string, value: string, comment: string)
    requires AllSpace(gap) && Free(value, "//")
    requires comment == "" || (HasPrefix(comment, "//") && (value == "" || value[|value| - 1] != '/'))
    ensures ParseLine(gap + "=" + value + comment) == None
  {
    var code := gap + "=" + value;
    var line := code + comment;
    BlankCodePart(gap, value, comment);
    BlankBeforeEqual(gap, value);
    assert line[0] != '#' by {
      if gap != [] { assert line[0] == gap[0]; } else { assert line[0] == '='; }
    }
    ParseLineBlank(line, code, |gap|);
  }

  /** The kept part of `gap = value // comment` is everything before the comment. */
  lemma BlankCodePart(gap: string, value: string, comment: string)
    requires AllSpace(gap) && Free(value, "//")
    requires comment == "" || (HasPrefix(comment, "//") && (value == "" || value[|value| - 1] != '/'))
    ensures CodePart(gap + "=" + value + comment) == gap + "=" + value
  {
    assert "" + "" + gap + "=" + value + comment == gap + "=" + value + comment;
    assert "" + "" + gap + "=" + value == gap + "=" + value;
    AssignmentCodePart("", "", gap, value, comment);
  }

  /** In `gap = value` with a blank gap, the first `=` follows the gap and nothing is left of it when trimmed. */
  lemma BlankBeforeEqual(gap: string, value: string)
    requires AllSpace(gap)
    ensures Index(gap + "=" + value, "=") == |gap|
    ensures TrimSpace((gap + "=" + value)[..|gap|]) == ""
  {
    var code := gap + "=" + value;
    assert '=' !in gap by {
      forall k | 0 <= k < |gap| ensures gap[k] != '=' { assert IsSpace(gap[k]); }
    }
    assert code == gap + ['='] + value;
    IndexAfterPrefix(gap, '=', value);
    assert code[..|gap|] == gap;
    TrimSpaceBlank(gap);
  }

  /** `ParseLine` step by step, for a line that is not a comment and whose key is blank. */
  lemma ParseLineBlank(line: string, l: string, equal: nat)
    requires line == [] || line[0] != '#'
    requires CodePart(line) == l && Index(l, "=") == equal && TrimSpace(l[..equal]) == ""
    ensures ParseLine(line) == None
  {
    assert !(|line| > 0 && line[..1] == "#") by {
      if |line| > 0 { assert line[..1][0] == line[0]; }
    }
  }

  /** `ParseLine` step by step, for a line that is not a comment and assigns `key`. */
  lemma ParseLineSteps(line: string, l: string, equal: nat, key: string)
    requires line == [] || line[0] != '#'
    requires CodePart(line) == l && Index(l, "=") == equal
    requires equal < |l| && TrimSpace(l[..equal]) == key && key != ""
    ensures ParseLine(line) == Some(Entry(key, TypedForms(TrimSpace(l[equal + 1..]))))
  {
    assert !(|line| > 0 && line[..1] == "#") by {
      if |line| > 0 { assert line[..1][0] == line[0]; }
    }
  }

  /** What each of `lines` assigns, in order: `None` for a line that assigns nothing. */
  function ParseAll(lines: seq<string>): (ps: seq<Option<Entry>>)
    ensures |ps| == |lines| && forall i :: 0 <= i < |lines| ==> ps[i] == ParseLine(lines[i])
  {
    if lines == [] then [] else ParseAll(lines[..|lines| - 1]) + [ParseLine(lines[|lines| - 1])]
  }

  /** The map after storing the assigned entries in order, each overwriting its key. */
  function Upsert(m: ConfigMap, ps: seq<Option<Entry>>): ConfigMap {
    if ps == [] then m
    else
      var m' := Upsert(m, ps[..|ps| - 1]);
      match ps[|ps| - 1]
      case None => m'
      case Some(e) => m'[e.key := e.value]
  }

  /** The map after a sequence of lines, in order. */
  function ApplyLines(m: ConfigMap, lines: seq<string>): ConfigMap {
    Upsert(m, ParseAll(lines))
  }

  /** The map after the lines the scanner finds in `text`. */
  function ApplyText(m: ConfigMap, text: string): ConfigMap {
    ApplyLines(m, ScanLines(text))
  }

  /** The value of the last entry for `key`, if there is one. */
  function LastOf(ps: seq<Option<Entry>>, key: string): Option<StringOrInt> {
    if ps == [] then None
    else if ps[|ps| - 1].Some? && ps[|ps| - 1].value.key == key then Some(ps[|ps| - 1].value.value)
    else LastOf(ps[..|ps| - 1], key)
  }

  /** The value of the last line in `lines` that assigns `key`, if any does. */
  function LastValue(lines: seq<string>, key: string): Option<StringOrInt> {
    LastOf(ParseAll(lines), key)
  }

  /** Some entry is for `key`. */
  ghost predicate HasKey(ps: seq<Option<Entry>>, key: string) {
    exists i :: 0 <= i < |ps| && ps[i].Some? && ps[i].value.key == key
  }

  /** Some line in `lines` assigns `key`. */
  ghost predicate Assigns(lines: seq<string>, key: string) {
    exists i :: 0 <= i < |lines| && ParseLine(lines[i]).Some? && ParseLine(lines[i]).value.key == key
  }

  lemma {:induction false} UpsertValue(m: ConfigMap, ps: seq<Option<Entry>>, key: string)
    ensures LastOf(ps, key).Some? ==> key in Upsert(m, ps) && Upsert(m, ps)[key] == LastOf(ps, key).value
    ensures LastOf(ps, key).None? ==> (key in Upsert(m, ps) <==> key in m) && (key in m ==> Upsert(m, ps)[key] == m[key])
  {
    if ps != [] {
      UpsertValue(m, ps[..|ps| - 1], key);
    }
  }

  lemma {:induction false} LastOfHasKey(ps: seq<Option<Entry>>, key: string)
    ensures LastOf(ps, key).Some? <==> HasKey(ps, key)
  {
    if ps != [] {
      var n := |ps| - 1;
      var front := ps[..n];
      LastOfHasKey(front, key);
      if ps[n].Some? && ps[n].value.key == key {
        assert HasKey(ps, key);
      } else if HasKey(front, key) {
        var i :| 0 <= i < |front| && front[i].Some? && front[i].value.key == key;
        assert front[i] == ps[i];
      } else {
        forall i | 0 <= i < n ensures !(ps[i].Some? && ps[i].value.key == key) {
          assert front[i] == ps[i];
        }
      }
    }
  }

  lemma {:induction false} LastOfIsLast(ps: seq<Option<Entry>>, i: nat, key: string, v: StringOrInt)
    requires i < |ps| && ps[i] == Some(Entry(key, v))
    requires forall j :: i < j < |ps| ==> ps[j].None? || ps[j].value.key != key
    ensures LastOf(ps, key) == Some(v)
    decreases |ps|
  {
    if i < |ps| - 1 {
      var front := ps[..|ps| - 1];
      assert forall j :: 0 <= j < |front| ==> front[j] == ps[j];
      LastOfIsLast(front, i, key, v);
    }
  }

  lemma {:induction false} UpsertAppend(m: ConfigMap, a: seq<Option<Entry>>, b: seq<Option<Entry>>)
    ensures Upsert(m, a + b) == Upsert(Upsert(m, a), b)
  {
    if b == [] {
      assert a + b == a;
    } else {
      assert (a + b)[..|a + b| - 1] == a + b[..|b| - 1];
      UpsertAppend(m, a, b[..|b| - 1]);
    }
  }

  /**
   * After a sequence of lines, a key holds the value of the last line that
   * assigns it; a key no line assigns keeps its old value, or stays absent.
   */
  lemma ApplyLinesValue(m: ConfigMap, lines: seq<string>, key: string)
    ensures LastValue(lines, key).Some? ==>
      key in ApplyLines(m, lines) && ApplyLines(m, lines)[key] == LastValue(lines, key).value
    ensures LastValue(lines, key).None? ==>
      (key in ApplyLines(m, lines) <==> key in m) && (key in m ==> ApplyLines(m, lines)[key] == m[key])
  {
    UpsertValue(m, ParseAll(lines), key);
  }

  /** A key has a last assigning line exactly when some line assigns it. */
  lemma LastValueAssigns(lines: seq<string>, key: string)
    ensures LastValue(lines, key).Some? <==> Assigns(lines, key)
  {
    var ps := ParseAll(lines);
    LastOfHasKey(ps, key);
    if HasKey(ps, key) {
      var i :| 0 <= i < |ps| && ps[i].Some? && ps[i].value.key == key;
      assert ParseLine(lines[i]) == ps[i];
    }
    if Assigns(lines, key) {
      var i :| 0 <= i < |lines| && ParseLine(lines[i]).Some? && ParseLine(lines[i]).value.key == key;
      assert ParseLine(lines[i]) == ps[i];
    }
  }

  /** The keys after a sequence of lines: the old ones and those the lines assign, no others. */
  lemma ApplyLinesKeys(m: ConfigMap, lines: seq<string>, key: string)
    ensures key in ApplyLines(m, lines) <==> key in m || Assigns(lines, key)
  {
    ApplyLinesValue(m, lines, key);
    LastValueAssigns(lines, key);
  }

  /** A line that assigns `key` and is not followed by another one that does decides its value. */
  lemma LastValueIsLast(lines: seq<string>, i: nat, key: string, v: StringOrInt)
    requires i < |lines| && ParseLine(lines[i]) == Some(Entry(key, v))
    requires forall j :: i < j < |lines| ==> ParseLine(lines[j]).None? || ParseLine(lines[j]).value.key != key
    ensures LastValue(lines, key) == Some(v)
  {
    var ps := ParseAll(lines);
    assert forall j :: i < j < |ps| ==> ps[j] == ParseLine(lines[j]);
    LastOfIsLast(ps, i, key, v);
  }

  /** Parsing two runs of lines one after the other is parsing their concatenation. */
  lemma ApplyLinesAppend(m: ConfigMap, a: seq<string>, b: seq<string>)
    ensures ApplyLines(m, a + b) == ApplyLines(ApplyLines(m, a), b)
  {
    assert ParseAll(a + b) == ParseAll(a) + ParseAll(b) by {
      forall i | 0 <= i < |ParseAll(a + b)| ensures ParseAll(a + b)[i] == (ParseAll(a) + ParseAll(b))[i] {
        if i < |a| { assert (a + b)[i] == a[i]; } else { assert (a + b)[i] == b[i - |a|]; }
      }
    }
    UpsertAppend(m, ParseAll(a), ParseAll(b));
  }

  /** One more line at the end: the map after the others, updated by that line if it assigns something. */
  lemma ApplyLinesSnoc(m: ConfigMap, lines: seq<string>, line: string)
    ensures ParseLine(line).None? ==> ApplyLines(m, lines + [line]) == ApplyLines(m, lines)
    ensures ParseLine(line).Some? ==>
      ApplyLines(m, lines + [line]) == ApplyLines(m, lines)[ParseLine(line).value.key := ParseLine(line).value.value]
  {
    var ps := ParseAll(lines + [line]);
    assert ps[..|ps| - 1] == ParseAll(lines);
  }

  /** A lone line `key=value` sets `key` to the trimmed `value` and changes nothing else. */
  lemma ApplyAssignmentLine(m: ConfigMap, key: string, value: string)
    requires ValidKey(key) && key[0] != '#' && Free(value, "//")
    ensures ApplyLines(m, [key + "=" + value]) == m[key := TypedForms(TrimSpace(value))]
  {
    var line := key + "=" + value;
    assert [] + [line] == [line];
    assert "" + key + "" + "=" + value + "" == line;
    ParseAssignment("", key, "", value, "");
    ApplyLinesSnoc(m, [], line);
  }

  /** A value that is an exact `true` or `false` has the matching numeric and boolean forms. */
  lemma BoolLiteralForms(value: string)
    requires value == "true" || value == "false"
    ensures TypedForms(value).IntVal == (if TypedForms(value).BoolVal then 1 else 0)
  {
    DigitLiteral("1", 1);
    DigitLiteral("0", 0);
  }

  lemma DigitLiteral(s: string, d: nat)
    requires |s| == 1 && IsDigit(s[0]) && DigitVal(s[0]) == d
    ensures IsInt(s) && DecimalValue(s) == d
  {
    assert Unsigned(s) == s;
    assert AllDigits(s);
    assert s[..0] == [];
    assert DigitsValue(s) == 10 * DigitsValue(s[..0]) + DigitVal(s[0]);
  }

  /** An empty value is stored as "" with `IntVal` 0 and `BoolVal` true. */
  lemma EmptyValueForms()
    ensures TypedForms("") == StringOrInt("", 0, true)
  {
  }
}
