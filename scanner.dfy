/**
 * `bufio.Scanner` with its default split function `bufio.ScanLines`:
 * a text is cut at every newline, a final line without a newline still
 * counts, no empty token follows a final newline, and one trailing
 * carriage return is dropped from each line.
 */
module Scanner {
  import opened Strings

  /** `bufio.dropCR`. */
  function DropCR(line: string): (r: string)
    ensures r == line || (line == r + "\r")
    ensures (|line| > 0 && line[|line| - 1] == '\r') <==> line == r + "\r"
  {
    if |line| > 0 && line[|line| - 1] == '\r' then line[..|line| - 1] else line
  }

  /** The lines `bufio.ScanLines` yields for `text`, in order. */
  function ScanLines(text: string): (lines: seq<string>)
    ensures forall i :: 0 <= i < |lines| ==> '\n' !in lines[i]
    decreases |text|
  {
    if text == "" then []
    else
      var i := IndexByte(text, '\n');
      if i < 0 then [DropCR(text)]
      else [DropCR(text[..i])] + ScanLines(text[i + 1..])
  }

  /** The text made of `lines`, each ended by a newline. */
  function Unlines(lines: seq<string>): string {
    if lines == [] then "" else lines[0] + "\n" + Unlines(lines[1..])
  }

  /** A line that `ScanLines` can give back unchanged. */
  predicate PlainLine(line: string) {
    '\n' !in line && (line == "" || line[|line| - 1] != '\r')
  }

  /** A plain line and a newline in front of a text are scanned as that line, then the text's lines. */
  lemma ScanAfterLine(head: string, rest: string)
    requires PlainLine(head)
    ensures ScanLines(head + "\n" + rest) == [head] + ScanLines(rest)
  {
    var text := head + "\n" + rest;
    assert text == head + ['\n'] + rest;
    IndexByteAfterPrefix(head, '\n', rest);
    assert text[..|head|] == head;
    assert text[|head| + 1..] == rest;
  }

  /** Scanning newline-terminated lines gives those lines back. */
  lemma {:induction false} ScanUnlines(lines: seq<string>)
    requires forall i :: 0 <= i < |lines| ==> PlainLine(lines[i])
    ensures ScanLines(Unlines(lines)) == lines
  {
    if lines != [] {
      ScanAfterLine(lines[0], Unlines(lines[1..]));
      ScanUnlines(lines[1..]);
      assert [lines[0]] + lines[1..] == lines;
    }
  }

  /** `text` with a newline added unless it is empty or already ends with one. */
  function Terminated(text: string): string {
    if text == "" || text[|text| - 1] == '\n' then text else text + "\n"
  }

  /** Scanning a text without carriage returns that holds a newline: its first line, then the rest. */
  lemma ScanFirstLine(text: string) returns (head: string, rest: string)
    requires '\r' !in text && '\n' in text
    ensures text == head + "\n" + rest && '\n' !in head && '\r' !in rest
    ensures ScanLines(text) == [head] + ScanLines(rest)
  {
    var i := IndexByte(text, '\n');
    head, rest := text[..i], text[i + 1..];
    assert text == head + "\n" + rest;
    assert DropCR(head) == head by {
      if i > 0 { assert head[i - 1] == text[i - 1]; }
    }
  }

  lemma UnlinesScanOneLine(text: string)
    requires text != "" && '\r' !in text && '\n' !in text
    ensures Unlines(ScanLines(text)) == Terminated(text)
  {
    ScanOneLine(text);
    assert text[|text| - 1] != '\r' && text[|text| - 1] != '\n';
    assert Unlines([text]) == text + "\n" + Unlines([]);
  }

  /** Joining a first line and more lines. */
  lemma UnlinesCons(head: string, lines: seq<string>)
    ensures Unlines([head] + lines) == head + "\n" + Unlines(lines)
  {
    assert ([head] + lines)[1..] == lines;
  }

  /** Terminating a text that holds a newline terminates what follows its first line. */
  lemma TerminatedAfterLine(head: string, rest: string)
    ensures Terminated(head + "\n" + rest) == head + "\n" + Terminated(rest)
  {
    var text := head + "\n" + rest;
    if rest != "" {
      assert text[|text| - 1] == rest[|rest| - 1];
    }
  }

  /** Joining the scanned lines of a text without carriage returns restores it, ended by a newline. */
  lemma {:induction false} UnlinesScan(text: string)
    requires '\r' !in text
    ensures Unlines(ScanLines(text)) == Terminated(text)
    decreases |text|
  {
    if text == "" {
    } else if '\n' !in text {
      UnlinesScanOneLine(text);
    } else {
      var head, rest := ScanFirstLine(text);
      UnlinesScan(rest);
      UnlinesCons(head, ScanLines(rest));
      TerminatedAfterLine(head, rest);
    }
  }

  /** A text without a newline is one line. */
  lemma ScanOneLine(text: string)
    requires text != "" && '\n' !in text
    ensures ScanLines(text) == [DropCR(text)]
  {
  }
}
