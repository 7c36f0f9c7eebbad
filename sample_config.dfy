/**
 * The lines of the default configuration in config_test.go, each parsed
 * through the general lemmas of `Parser`: what the test expects of every
 * key, and the two comment lines that assign nothing. One more line shows
 * that only column 0 marks a comment.
 */
module SampleConfig {
  import opened Wrappers
  import opened Strings
  import opened Parser

  /** A `key=value` line of plain characters, without `/` and white space at the ends, stores the value. */
  lemma SampleAssignment(key: string, value: string)
    requires key != "" && Trimmed(key) && key[0] != '#' && '=' !in key && '/' !in key
    requires '/' !in value && Trimmed(value)
    ensures ParseLine(key + "=" + value) == Some(Entry(key, TypedForms(value)))
  {
    FreeWithout(key, '/', '/');
    FreeWithout(value, '/', '/');
    SimpleAssignment(key, value);
  }

  /** `numConfig=4` stores "4" with integer form 4. */
  lemma NumConfigLine(line: string)
    requires line == "numConfig=4"
    ensures ParseLine(line) == Some(Entry("numConfig", StringOrInt("4", 4, true)))
  {
    var key, value := "numConfig", "4";
    assert line == key + "=" + value;
    SampleAssignment(key, value);
    DigitLiteral(value, 4);
  }

  /** `numList=1,2,3` stores the list text unchanged, for the caller to split at commas. */
  lemma NumListLine(line: string)
    requires line == "numList=1,2,3"
    ensures ParseLine(line).Some? && ParseLine(line).value.key == "numList"
    ensures ParseLine(line).value.value.StrVal == "1,2,3"
  {
    var key, value := "numList", "1,2,3";
    assert line == key + "=" + value;
    SampleAssignment(key, value);
  }

  /** `boolConfig=true` stores "1" with integer form 1 and boolean form true. */
  lemma BoolConfigLine(line: string)
    requires line == "boolConfig=true"
    ensures ParseLine(line) == Some(Entry("boolConfig", StringOrInt("1", 1, true)))
  {
    var key, value := "boolConfig", "true";
    assert line == key + "=" + value;
    SampleAssignment(key, value);
    BoolLiteralForms(value);
  }

  /** `stringConfig=Chris Lane` keeps the space inside the value. */
  lemma StringConfigLine(line: string)
    requires line == "stringConfig=Chris Lane"
    ensures ParseLine(line).Some? && ParseLine(line).value.key == "stringConfig"
    ensures ParseLine(line).value.value.StrVal == "Chris Lane"
  {
    var key, value := "stringConfig", "Chris Lane";
    assert line == key + "=" + value;
    SampleAssignment(key, value);
  }

  /** The comment lines of the sample assign nothing. */
  lemma CommentLines(c1: string, c2: string)
    requires c1 == "#" && c2 == "# test comment"
    ensures ParseLine(c1) == None && ParseLine(c2) == None
  {
  }

  /** Only column 0 marks a comment: an indented `#` line assigns the key `#k`. */
  lemma IndentedHashLine(line: string)
    requires line == " #k=v"
    ensures ParseLine(line).Some? && ParseLine(line).value.key == "#k"
  {
    var key, value := "#k", "v";
    assert line == " " + key + "" + "=" + value + "";
    assert ValidKey(key) by { FreeWithout(key, '/', '/'); }
    assert Free(value, "//") by { FreeWithout(value, '/', '/'); }
    assert AllSpace(" ");
    ParseAssignment(" ", key, "", value, "");
  }
}
