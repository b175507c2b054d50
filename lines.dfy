/** Text as the hosts-file rewrite sees it: `readlines` splits a file's text
    after every newline (each line keeps its '\n'; the last one may lack it),
    `writelines` concatenates the strings it is given, and `sub in line` is a
    substring test. */
module Lines {

  /** `pattern in line` for strings. */
  predicate Contains(line: string, pattern: string)
    decreases |line|
  {
    pattern <= line || (line != [] && Contains(line[1..], pattern))
  }

  /** The substring test holds exactly when the pattern starts at some position of the line. */
  lemma {:induction false} ContainsIffSubstring(line: string, pattern: string)
    ensures Contains(line, pattern) <==> exists i :: 0 <= i <= |line| && pattern <= line[i..]
    decreases |line|
  {
    if pattern <= line {
      assert line[0..] == line;
    } else if line == [] {
      forall i | 0 <= i <= |line|
        ensures !(pattern <= line[i..])
      {
        assert line[i..] == line;
      }
    } else {
      ContainsIffSubstring(line[1..], pattern);
      if Contains(line, pattern) {
        var i :| 0 <= i <= |line[1..]| && pattern <= line[1..][i..];
        assert line[1..][i..] == line[i + 1..];
      } else {
        forall i | 0 <= i <= |line|
          ensures !(pattern <= line[i..])
        {
          if i == 0 {
            assert line[i..] == line;
          } else {
            assert line[1..][i - 1..] == line[i..];
          }
        }
      }
    }
  }

  /** A substring test can only succeed if the line holds the pattern's first character. */
  lemma {:induction false} ContainsFirstChar(line: string, pattern: string)
    requires pattern != [] && Contains(line, pattern)
    ensures pattern[0] in line
    decreases |line|
  {
    if !(pattern <= line) {
      ContainsFirstChar(line[1..], pattern);
    }
  }

  /** A line exactly as `readlines` returns it from text that continues after
      it: non-empty, ending in its only newline. */
  predicate ProperLine(line: string) {
    line != [] && line[|line| - 1] == '\n' && '\n' !in line[..|line| - 1]
  }

  /** The length of the first line of `text`: up to and including the first
      newline, or all of `text` when it has none. */
  function FirstLineLength(text: string): (n: nat)
    requires text != []
    ensures 0 < n <= |text|
    ensures '\n' !in text[..n - 1]
    ensures text[n - 1] == '\n' || n == |text|
  {
    if text[0] == '\n' || |text| == 1 then 1
    else
      var n := 1 + FirstLineLength(text[1..]);
      assert text[..n - 1] == [text[0]] + text[1..][..n - 2];
      n
  }

  /** `f.readlines()` on a file holding `text`. */
  function ReadLines(text: string): (lines: seq<string>)
    decreases |text|
  {
    if text == [] then []
    else
      var n := FirstLineLength(text);
      [text[..n]] + ReadLines(text[n..])
  }

  /** The text `f.writelines(lines)` leaves in a freshly truncated file. */
  function WriteLines(lines: seq<string>): string
  {
    if lines == [] then [] else lines[0] + WriteLines(lines[1..])
  }

  lemma {:induction false} WriteLinesAppend(a: seq<string>, b: seq<string>)
    ensures WriteLines(a + b) == WriteLines(a) + WriteLines(b)
  {
    if a == [] {
      assert a + b == b;
    } else {
      assert (a + b)[0] == a[0] && (a + b)[1..] == a[1..] + b;
      WriteLinesAppend(a[1..], b);
    }
  }

  /** `readlines` never returns an empty line. */
  lemma {:induction false} ReadLinesNonEmpty(text: string)
    ensures forall i :: 0 <= i < |ReadLines(text)| ==> ReadLines(text)[i] != []
    decreases |text|
  {
    if text != [] {
      var n := FirstLineLength(text);
      ReadLinesNonEmpty(text[n..]);
      ReadLinesStep(text);
    }
  }

  lemma ReadLinesStep(text: string)
    requires text != []
    ensures ReadLines(text) == [text[..FirstLineLength(text)]] + ReadLines(text[FirstLineLength(text)..])
  {
  }

  lemma TakeDropJoin(s: string, n: nat)
    requires n <= |s|
    ensures s[..n] + s[n..] == s
  {
  }

  lemma WriteLinesCons(line: string, rest: seq<string>)
    ensures WriteLines([line] + rest) == line + WriteLines(rest)
  {
    assert ([line] + rest)[1..] == rest;
  }

  /** Writing back what was read restores the text exactly. */
  lemma {:induction false} WriteReadLines(text: string)
    ensures WriteLines(ReadLines(text)) == text
    decreases |text|
  {
    if text != [] {
      var n := FirstLineLength(text);
      ReadLinesStep(text);
      WriteLinesCons(text[..n], ReadLines(text[n..]));
      WriteReadLines(text[n..]);
      TakeDropJoin(text, n);
    }
  }

  /** A proper line followed by more text is read back as that line first. */
  lemma {:induction false} ReadProperLine(line: string, rest: string)
    requires ProperLine(line)
    ensures ReadLines(line + rest) == [line] + ReadLines(rest)
  {
    var text := line + rest;
    FirstLineLengthOfProper(line, rest);
    assert text[..|line|] == line && text[|line|..] == rest;
  }

  lemma {:induction false} FirstLineLengthOfProper(line: string, rest: string)
    requires ProperLine(line)
    ensures FirstLineLength(line + rest) == |line|
  {
    var text := line + rest;
    var n := FirstLineLength(text);
    assert text[..|line|] == line;
    if n < |line| {
      assert text[n - 1] == line[n - 1];
      assert line[n - 1] in line[..|line| - 1];
    }
  }

  /** Reading back what was written recovers the lines, when each is a proper line. */
  lemma {:induction false} ReadWriteLines(lines: seq<string>)
    requires forall i :: 0 <= i < |lines| ==> ProperLine(lines[i])
    ensures ReadLines(WriteLines(lines)) == lines
  {
    if lines != [] {
      ReadProperLine(lines[0], WriteLines(lines[1..]));
      ReadWriteLines(lines[1..]);
    }
  }

  /** Text that is empty or ends in a newline is read as proper lines only. */
  lemma {:induction false} ReadLinesProper(text: string)
    requires text == [] || text[|text| - 1] == '\n'
    ensures forall i :: 0 <= i < |ReadLines(text)| ==> ProperLine(ReadLines(text)[i])
    decreases |text|
  {
    if text != [] {
      var n := FirstLineLength(text);
      assert text[n - 1] == '\n';
      assert text[..n][..n - 1] == text[..n - 1];
      assert ProperLine(text[..n]);
      var rest := text[n..];
      assert rest == [] || rest[|rest| - 1] == '\n';
      ReadLinesProper(rest);
      assert ReadLines(text) == [text[..n]] + ReadLines(rest);
    }
  }
}
