/**
 * Multi-line text as a message box shows it: lines joined with a newline,
 * as Python's `"\n".join(lines)` builds it, and the same text split back
 * at every newline, as `text.split("\n")` splits it.
 */
module Lines {

  const Newline: char := '\n'

  /** The line holds no newline, so it shows as one line on screen. */
  predicate IsSingleLine(line: string)
  {
    forall k :: 0 <= k < |line| ==> line[k] != Newline
  }

  /** `"\n".join(lines)`: the lines with one newline between neighbours and none at the ends. */
  function JoinLines(lines: seq<string>): (text: string)
    ensures |lines| == 0 ==> text == ""
    ensures |lines| > 0 ==> |text| >= |lines[0]| && text[..|lines[0]|] == lines[0]
    ensures |lines| > 1 ==> |text| > |lines[0]| && text[|lines[0]|] == Newline
  {
    if |lines| == 0 then ""
    else if |lines| == 1 then lines[0]
    else lines[0] + [Newline] + JoinLines(lines[1..])
  }

  /** `text.split("\n")`: the pieces between newlines, never an empty list. */
  function SplitLines(text: string): (lines: seq<string>)
    ensures |lines| == 1 + multiset(text)[Newline]
    ensures forall i :: 0 <= i < |lines| ==> IsSingleLine(lines[i])
  {
    if |text| == 0 then [""]
    else
      var rest := SplitLines(text[1..]);
      assert text == [text[0]] + text[1..];
      if text[0] == Newline then [""] + rest
      else [[text[0]] + rest[0]] + rest[1..]
  }

  /** A text with no newline splits into itself alone. */
  lemma {:induction false} SplitSingleLine(line: string)
    requires IsSingleLine(line)
    ensures SplitLines(line) == [line]
  {
    if |line| > 0 {
      SplitSingleLine(line[1..]);
      assert [line[0]] + line[1..] == line;
    }
  }

  /** Splitting a line followed by a newline and more text peels off that line. */
  lemma {:induction false} SplitAfterLine(line: string, more: string)
    requires IsSingleLine(line)
    ensures SplitLines(line + [Newline] + more) == [line] + SplitLines(more)
  {
    if |line| == 0 {
      assert line + [Newline] + more == [Newline] + more;
      assert ([Newline] + more)[1..] == more;
    } else {
      var text := line + [Newline] + more;
      assert text[1..] == line[1..] + [Newline] + more;
      SplitAfterLine(line[1..], more);
      assert [line[0]] + line[1..] == line;
    }
  }

  /** Joining single lines and splitting the text gives the lines back. */
  lemma {:induction false} SplitJoinLines(lines: seq<string>)
    requires |lines| > 0
    requires forall i :: 0 <= i < |lines| ==> IsSingleLine(lines[i])
    ensures SplitLines(JoinLines(lines)) == lines
  {
    if |lines| == 1 {
      SplitSingleLine(lines[0]);
    } else {
      SplitJoinLines(lines[1..]);
      SplitAfterLine(lines[0], JoinLines(lines[1..]));
      assert [lines[0]] + lines[1..] == lines;
    }
  }

  /** A line holding a newline shows on screen as two lines. */
  lemma SplitLineWithNewline(a: string, b: string)
    requires IsSingleLine(a) && IsSingleLine(b)
    ensures SplitLines(JoinLines([a + [Newline] + b])) == [a, b]
  {
    SplitAfterLine(a, b);
    SplitSingleLine(b);
  }
}
