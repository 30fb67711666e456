// The parts of Python's text handling that the line readers rely on.
module PythonText {
  /** `c.isspace()`, which is also what the regular expression `\s` matches. */
  predicate IsSpace(c: char) {
    var n := c as int;
    || 0x09 <= n <= 0x0D || 0x1C <= n <= 0x20 || n == 0x85 || n == 0xA0 || n == 0x1680
    || 0x2000 <= n <= 0x200A || n == 0x2028 || n == 0x2029 || n == 0x202F || n == 0x205F || n == 0x3000
  }

  predicate Blank(s: string) {
    forall i :: 0 <= i < |s| ==> IsSpace(s[i])
  }

  /** No whitespace at either end. */
  predicate Trimmed(s: string) {
    s != "" ==> !IsSpace(s[0]) && !IsSpace(s[|s| - 1])
  }

  function LeadingSpaces(s: string): (n: nat)
    ensures n <= |s| && (n < |s| ==> !IsSpace(s[n]))
    ensures forall i :: 0 <= i < n ==> IsSpace(s[i])
  {
    if s == "" || !IsSpace(s[0]) then 0 else
      var n := 1 + LeadingSpaces(s[1..]);
      assert forall i :: 0 < i < n ==> s[i] == s[1..][i - 1];
      n
  }

  function TrailingSpaces(s: string): (n: nat)
    ensures n <= |s| && (n < |s| ==> !IsSpace(s[|s| - 1 - n]))
    ensures forall i :: |s| - n <= i < |s| ==> IsSpace(s[i])
  {
    if s == "" || !IsSpace(s[|s| - 1]) then 0 else 1 + TrailingSpaces(s[..|s| - 1])
  }

  /** `s.strip()` */
  function Strip(s: string): (t: string)
    ensures Trimmed(t) && |t| <= |s|
    ensures Trimmed(s) ==> t == s
    ensures t == "" <==> Blank(s)
  {
    var n := LeadingSpaces(s);
    if n == |s| then "" else s[n..|s| - TrailingSpaces(s)]
  }

  /** What stripping takes away. */
  lemma StripParts(s: string) returns (before: string, after: string)
    ensures Blank(before) && Blank(after) && s == before + Strip(s) + after
    ensures !Blank(s) ==> (before == "" <==> !IsSpace(s[0])) && (after == "" <==> !IsSpace(s[|s| - 1]))
  {
    hide IsSpace, LeadingSpaces, TrailingSpaces;
    var n := LeadingSpaces(s);
    if n == |s| {
      before, after := s, "";
      assert s == s + "" + "";
    } else {
      var m := |s| - TrailingSpaces(s);
      before, after := s[..n], s[m..];
      assert Strip(s) == s[n..m];
      assert s == s[..n] + s[n..m] + s[m..];
    }
  }

  /** Stripping removes whitespace at the ends and nothing else. */
  lemma StripKeepsMiddle(before: string, s: string, after: string)
    requires Blank(before) && Blank(after) && Trimmed(s) && s != ""
    ensures Strip(before + s + after) == s
  {
    hide IsSpace, LeadingSpaces, TrailingSpaces;
    var whole := before + s + after;
    assert whole[|before|] == s[0] && whole[|before| + |s| - 1] == s[|s| - 1];
    assert forall i :: 0 <= i < |before| ==> whole[i] == before[i];
    assert forall i :: 0 <= i < |after| ==> whole[|before| + |s| + i] == after[i];
    assert LeadingSpaces(whole) == |before|;
    assert TrailingSpaces(whole) == |after|;
  }

  lemma StripSkips(before: string, s: string)
    requires Blank(before)
    ensures Strip(before + s) == Strip(s)
    ensures Blank(before + s) <==> Blank(s)
  {
    var before', after := StripParts(s);
    hide Strip, IsSpace;
    if Blank(s) {
      assert Blank(before + s);
    } else {
      assert before + s == (before + before') + Strip(s) + after;
      StripKeepsMiddle(before + before', Strip(s), after);
    }
  }

  predicate IsDigit(c: char) { '0' <= c <= '9' }

  predicate IsLower(c: char) { 'a' <= c <= 'z' }

  predicate IsUpper(c: char) { 'A' <= c <= 'Z' }

  /** `s.lower()` on ASCII text. */
  function Lower(s: string): (t: string)
    ensures |t| == |s|
    ensures forall i :: 0 <= i < |s| ==> t[i] == if IsUpper(s[i]) then s[i] - 'A' + 'a' else s[i]
  {
    seq(|s|, i requires 0 <= i < |s| => if IsUpper(s[i]) then s[i] - 'A' + 'a' else s[i])
  }

  /** The first position of `c`, or the length. */
  function Find(s: string, c: char): (i: nat)
    ensures i <= |s| && (i < |s| ==> s[i] == c)
    ensures forall k :: 0 <= k < i ==> s[k] != c
  {
    if s == "" || s[0] == c then 0 else
      var i := 1 + Find(s[1..], c);
      assert forall k :: 0 < k < i ==> s[k] == s[1..][k - 1];
      i
  }

  // ------------------------------------------------------------------------------------ lines

  /** The characters at which `splitlines` ends a line. */
  predicate IsBreak(c: char) {
    var n := c as int;
    0x0A <= n <= 0x0D || 0x1C <= n <= 0x1E || n == 0x85 || n == 0x2028 || n == 0x2029
  }

  predicate OneLine(s: string) {
    forall i :: 0 <= i < |s| ==> !IsBreak(s[i])
  }

  function FirstBreak(s: string): (n: nat)
    ensures n <= |s| && (n < |s| ==> IsBreak(s[n]))
    ensures forall i :: 0 <= i < n ==> !IsBreak(s[i])
  {
    if s == "" || IsBreak(s[0]) then 0 else
      var n := 1 + FirstBreak(s[1..]);
      assert forall i :: 0 < i < n ==> s[i] == s[1..][i - 1];
      n
  }

  /** `text.splitlines()`; a carriage return and the line feed after it are one break. */
  function SplitLines(text: string): (lines: seq<string>)
    ensures forall i :: 0 <= i < |lines| ==> OneLine(lines[i])
    decreases |text|
  {
    if text == "" then []
    else
      var n := FirstBreak(text);
      if n == |text| then [text]
      else [text[..n]] + SplitLines(text[if "\r\n" <= text[n..] then n + 2 else n + 1..])
  }

  function JoinLines(lines: seq<string>): string {
    if lines == [] then "" else lines[0] + "\n" + JoinLines(lines[1..])
  }

  lemma FirstLine(line: string, rest: string)
    requires OneLine(line)
    ensures SplitLines(line + "\n" + rest) == [line] + SplitLines(rest)
  {
    hide FirstBreak;
    var text := line + "\n" + rest;
    assert text[|line|] == '\n' && IsBreak('\n');
    assert text[..|line|] == line && text[|line| + 1..] == rest;
    assert forall i :: 0 <= i < |line| ==> text[i] == line[i];
    assert FirstBreak(text) == |line|;
  }

  /** Lines without breaks, each ended by a line feed, are the first lines of the text. */
  lemma {:induction false} SplitJoined(lines: seq<string>, rest: string)
    requires forall i :: 0 <= i < |lines| ==> OneLine(lines[i])
    ensures SplitLines(JoinLines(lines) + rest) == lines + SplitLines(rest)
    decreases |lines|
  {
    hide SplitLines, OneLine;
    if lines == [] {
      assert JoinLines(lines) + rest == rest;
    } else {
      SplitJoined(lines[1..], rest);
      FirstLine(lines[0], JoinLines(lines[1..]) + rest);
      assert JoinLines(lines) + rest == lines[0] + "\n" + (JoinLines(lines[1..]) + rest);
    }
  }

  lemma SplitFirst(text: string)
    requires FirstBreak(text) < |text|
    ensures var n := FirstBreak(text);
            SplitLines(text) == [text[..n]] + SplitLines(text[if "\r\n" <= text[n..] then n + 2 else n + 1..])
  {
  }

  /** What ends a line: a carriage return and the line feed after it together, or one of the breaks. */
  lemma LineEnds(line: string, after: string)
    requires OneLine(line) && after != "" && IsBreak(after[0])
    ensures SplitLines(line + after) == [line] + SplitLines(after[if "\r\n" <= after then 2 else 1..])
  {
    hide FirstBreak, IsBreak, SplitLines;
    var text := line + after;
    assert text[|line|] == after[0] && forall i :: 0 <= i < |line| ==> text[i] == line[i];
    assert FirstBreak(text) == |line|;
    assert text[..|line|] == line && text[|line|..] == after && text[|line| + 1..] == after[1..];
    assert |after| > 1 ==> text[|line| + 2..] == after[2..];
    SplitFirst(text);
  }

  /** The breaks by name. */
  lemma EveryBreak(c: char)
    ensures IsBreak(c) <==> c in "\n\U{B}\U{C}\r\U{1C}\U{1D}\U{1E}\U{85}\U{2028}\U{2029}"
  {
  }

  lemma EndsAreSpace(c: char)
    ensures IsBreak(c) ==> IsSpace(c)
    ensures c <= '~' ==> (IsSpace(c) <==> c in " \t\n\r\U{B}\U{C}\U{1C}\U{1D}\U{1E}\U{1F}")
  {
  }
}
