// Core Metadata headers, read strictly: a line state machine with folding in the manner of
// section 3.1.1 of RFC 822. The reference definitions are about lines without their breaks.
module CoreMetadata {
  import opened PythonText
  import opened Wrappers

  datatype Header = Header(key: string, value: string)

  type Headers = seq<Header>

  type Grouped = map<string, seq<string>>

  // -------------------------------------------------------------- the reference definition

  datatype Line = Field(header: Header) | Continuation(text: string) | Malformed

  /** `[A-Za-z0-9][A-Za-z0-9-]*` */
  predicate ValidName(name: string) {
    && name != "" && name[0] != '-'
    && forall i :: 0 <= i < |name| ==> IsDigit(name[i]) || IsLower(name[i]) || IsUpper(name[i]) || name[i] == '-'
  }

  function Classify(line: string): Line {
    if line != "" && line[0] in " \t" then Continuation(Strip(line))
    else
      var colon := Find(line, ':');
      if colon < |line| && ValidName(line[..colon]) then
        Field(Header(Lower(line[..colon]), Strip(line[colon + 1..])))
      else Malformed
  }

  /** One more line: a new header, or more text for the last one. */
  function Absorb(read: Option<Headers>, line: string): Option<Headers> {
    if read.None? then None
    else
      match Classify(line)
      case Field(header) => Some(read.value + [header])
      case Malformed => None
      case Continuation(text) =>
        if read.value == [] then None else Some(Extended(read.value, text))
  }

  function Extended(read: Headers, text: string): (e: Headers)
    requires read != []
    ensures |e| == |read| && e[|e| - 1].key == read[|read| - 1].key
  {
    var last := read[|read| - 1];
    read[|read| - 1 := last.(value := last.value + " " + text)]
  }

  /** The headers in file order, starting from those already read. */
  function UnfoldFrom(read: Option<Headers>, lines: seq<string>): Option<Headers>
    decreases |lines|
  {
    if lines == [] then read else UnfoldFrom(Absorb(read, lines[0]), lines[1..])
  }

  /** Headers end at the first blank line. */
  function Head(lines: seq<string>): (h: seq<string>)
    ensures h <= lines
  {
    if lines == [] || Blank(lines[0]) then [] else [lines[0]] + Head(lines[1..])
  }

  function Unfold(lines: seq<string>): Option<Headers> {
    UnfoldFrom(Some([]), Head(lines))
  }

  /** Every value given for a key, in file order. */
  function ValuesOf(headers: Headers, key: string): seq<string> {
    if headers == [] then []
    else
      var rest := ValuesOf(headers[..|headers| - 1], key);
      var last := headers[|headers| - 1];
      if last.key == key then rest + [last.value] else rest
  }

  const SINGLE_HEADERS := {"metadata-version", "name", "version"}

  /** `^\d+\.\d+$`, for the digits of the given character class. */
  predicate VersionShaped(version: string, digit: char -> bool) {
    var dot := Find(version, '.');
    && 0 < dot < |version| - 1
    && (forall i :: 0 <= i < |version| && i != dot ==> digit(version[i]))
  }

  predicate Acceptable(headers: Headers, digit: char -> bool) {
    && (forall key :: key in SINGLE_HEADERS ==> |ValuesOf(headers, key)| == 1)
    && VersionShaped(ValuesOf(headers, "metadata-version")[0], digit)
  }

  // ------------------------------------------------------------------------- the reader

  datatype Refusal = StrayContinuation | NotAHeader | NoHeaders | NotOnce(key: string) | BadVersion

  /** The map holds, for each key, its values in file order. */
  ghost predicate Groups(m: Grouped, headers: Headers) {
    forall key :: if key in m then m[key] == ValuesOf(headers, key) != [] else ValuesOf(headers, key) == []
  }

  /** `headers.setdefault(key, []).append(value)` */
  function Appended(m: Grouped, key: string, value: string): Grouped {
    m[key := (if key in m then m[key] else []) + [value]]
  }

  /** `headers[key][-1] += " " + text` */
  function Continued(m: Grouped, key: string, text: string): Grouped
    requires key in m && m[key] != []
  {
    m[key := m[key][|m[key]| - 1 := m[key][|m[key]| - 1] + " " + text]]
  }

  lemma GroupsField(m: Grouped, headers: Headers, header: Header)
    requires Groups(m, headers)
    ensures Groups(Appended(m, header.key, header.value), headers + [header])
  {
    assert (headers + [header])[..|headers|] == headers;
  }

  lemma GroupsContinuation(m: Grouped, headers: Headers, key: string, text: string)
    requires headers != [] && Groups(m, headers) && key == headers[|headers| - 1].key
    ensures key in m && m[key] != [] && Groups(Continued(m, key, text), Extended(headers, text))
  {
    var extended := Extended(headers, text);
    assert extended[..|headers| - 1] == headers[..|headers| - 1];
  }

  lemma NextLine(lines: seq<string>, read: Headers)
    requires lines != [] && !Blank(lines[0])
    ensures UnfoldFrom(Some(read), Head(lines)) == UnfoldFrom(Absorb(Some(read), lines[0]), Head(lines[1..]))
  {
    assert Head(lines)[1..] == Head(lines[1..]);
  }

  lemma LastIsGrouped(m: Grouped, headers: Headers)
    requires Groups(m, headers)
    ensures headers == [] <==> m == map[]
    ensures headers != [] ==> headers[|headers| - 1].key in m
  {
    if headers != [] {
      assert ValuesOf(headers, headers[|headers| - 1].key) != [];
    } else {
      assert forall key :: key !in m;
    }
  }

  /** The reader's two variables, against the headers read so far. */
  ghost predicate Tracks(headers: Grouped, last: Option<string>, read: Headers) {
    && Groups(headers, read)
    && if read == [] then last == None else last == Some(read[|read| - 1].key)
  }

  /** One line that is not blank. */
  method AddLine(line: string, headers: Grouped, last: Option<string>, ghost read: Headers)
    returns (refusal: Option<Refusal>, headers': Grouped, last': Option<string>, ghost read': Headers)
    requires Tracks(headers, last, read)
    ensures refusal == None ==> Absorb(Some(read), line) == Some(read') && Tracks(headers', last', read')
    ensures refusal.Some? ==> Absorb(Some(read), line) == None && refusal.value in {StrayContinuation, NotAHeader}
  {
    hide Groups, ValidName, Strip, Lower, Find, Extended, Appended, Continued;
    refusal, headers', last', read' := None, headers, last, read;
    if line != "" && line[0] in " \t" {
      if last == None {
        refusal := Some(StrayContinuation);
        return;
      }
      GroupsContinuation(headers, read, last.value, Strip(line));
      headers' := Continued(headers, last.value, Strip(line));
      read' := Extended(read, Strip(line));
    } else {
      var colon := Find(line, ':');
      if colon == |line| || !ValidName(line[..colon]) {
        refusal := Some(NotAHeader);
        return;
      }
      var key, value := Lower(line[..colon]), Strip(line[colon + 1..]);
      GroupsField(headers, read, Header(key, value));
      headers' := Appended(headers, key, value);
      read' := read + [Header(key, value)];
      last' := Some(key);
    }
  }

  /** Headers up to the first blank line, collected per key. */
  method ReadHeaders(lines: seq<string>) returns (r: Result<Grouped, Refusal>)
    ensures r.Ok? <==> Unfold(lines).Some?
    ensures r.Ok? ==> Groups(r.value, Unfold(lines).value)
    ensures r.Err? ==> r.error in {StrayContinuation, NotAHeader}
  {
    hide UnfoldFrom, Head, Groups, Blank, Absorb;
    var headers: Grouped := map[];
    var last: Option<string> := None;
    ghost var read: Headers := [];
    EmptyGroups();
    var i := 0;
    while i < |lines| && !Blank(lines[i])
      invariant i <= |lines|
      invariant Unfold(lines) == UnfoldFrom(Some(read), Head(lines[i..]))
      invariant Tracks(headers, last, read)
    {
      assert lines[i..][1..] == lines[i + 1..];
      NextLine(lines[i..], read);
      FailureSticks(Head(lines[i + 1..]));
      var refusal;
      refusal, headers, last, read := AddLine(lines[i], headers, last, read);
      if refusal.Some? {
        return Err(refusal.value);
      }
      i := i + 1;
    }
    AtEnd(lines, i, read);
    r := Ok(headers);
  }

  lemma EmptyGroups()
    ensures Groups(map[], [])
  {
  }

  lemma AtEnd(lines: seq<string>, i: nat, read: Headers)
    requires i == |lines| || (i < |lines| && Blank(lines[i]))
    ensures UnfoldFrom(Some(read), Head(lines[i..])) == Some(read)
  {
  }

  method ParseCoreMetadata(text: string, digit: char -> bool)
    returns (r: Result<Grouped, Refusal>)
    ensures var unfolded := Unfold(SplitLines(text));
            && (r.Ok? <==> unfolded.Some? && Acceptable(unfolded.value, digit))
            && (r.Ok? ==> Groups(r.value, unfolded.value))
            && (r.Err? && r.error in {StrayContinuation, NotAHeader} <==> unfolded.None?)
            && (r == Err(NoHeaders) <==> unfolded == Some([]))
    ensures r.Ok? ==>
              && (forall key :: key in {"metadata-version", "name", "version"} ==>
                    key in r.value && |r.value[key]| == 1)
              && var version := r.value["metadata-version"][0];
              && exists dot :: && 0 < dot < |version| - 1 && version[dot] == '.'
                               && forall i :: 0 <= i < |version| && i != dot ==> digit(version[i])
  {
    hide Unfold, VersionShaped, SplitLines;
    var lines := SplitLines(text);
    r := ReadHeaders(lines);
    if r.Err? {
      return;
    }
    var headers := r.value;
    LastIsGrouped(headers, Unfold(lines).value);
    if headers == map[] {
      return Err(NoHeaders);
    }
    var singles := ["metadata-version", "name", "version"];
    for k := 0 to 3
      invariant forall j :: 0 <= j < k ==> singles[j] in headers && |headers[singles[j]]| == 1
    {
      var found := if singles[k] in headers then headers[singles[k]] else [];
      if |found| != 1 {
        assert singles[k] in SINGLE_HEADERS;
        return Err(NotOnce(singles[k]));
      }
    }
    assert singles[0] in headers && singles[1] in headers && singles[2] in headers;
    if !VersionShaped(headers["metadata-version"][0], digit) {
      return Err(BadVersion);
    }
    HasDot(headers["metadata-version"][0], digit);
  }

  lemma HasDot(version: string, digit: char -> bool)
    requires VersionShaped(version, digit)
    ensures exists dot :: && 0 < dot < |version| - 1 && version[dot] == '.'
                          && forall i :: 0 <= i < |version| && i != dot ==> digit(version[i])
  {
    assert version[Find(version, '.')] == '.';
  }

  lemma {:induction false} FailureSticks(lines: seq<string>)
    ensures UnfoldFrom(None, lines) == None
  {
    if lines != [] {
      FailureSticks(lines[1..]);
    }
  }

  // --------------------------------------------------------------- printing, and main results

  function PrintHeader(header: Header): string {
    header.key + ": " + header.value
  }

  function Print(headers: Headers): (lines: seq<string>)
    ensures |lines| == |headers|
    ensures forall i :: 0 <= i < |headers| ==> lines[i] == PrintHeader(headers[i])
  {
    seq(|headers|, i requires 0 <= i < |headers| => PrintHeader(headers[i]))
  }

  predicate Printable(headers: Headers) {
    forall i :: 0 <= i < |headers| ==> ValidName(headers[i].key)
  }

  /** What reading gives for a printed header list: lower-case names, values without outer whitespace. */
  function Normal(headers: Headers): (n: Headers)
    ensures |n| == |headers|
    ensures forall i :: 0 <= i < |headers| ==> n[i] == Header(Lower(headers[i].key), Strip(headers[i].value))
  {
    seq(|headers|, i requires 0 <= i < |headers| => Header(Lower(headers[i].key), Strip(headers[i].value)))
  }

  lemma ColonAfterName(name: string, rest: string)
    requires ValidName(name)
    ensures var line := name + ":" + rest;
            && Find(line, ':') == |name| && line[..|name|] == name && line[|name| + 1..] == rest
            && !IsSpace(line[0])
  {
    hide Find;
    var line := name + ":" + rest;
    assert line[|name|] == ':' && line[0] == name[0];
    assert forall k :: 0 <= k < |name| ==> line[k] == name[k];
  }

  lemma FieldLine(name: string, rest: string)
    requires ValidName(name)
    ensures !Blank(name + ":" + rest)
    ensures Classify(name + ":" + rest) == Field(Header(Lower(name), Strip(rest)))
  {
    hide Find, Strip, Lower, ValidName;
    ColonAfterName(name, rest);
  }

  lemma PrintedLine(header: Header)
    requires ValidName(header.key)
    ensures !Blank(PrintHeader(header))
    ensures Classify(PrintHeader(header)) == Field(Header(Lower(header.key), Strip(header.value)))
  {
    hide Classify, Strip, Lower, ValidName;
    FieldLine(header.key, " " + header.value);
    StripSkips(" ", header.value);
    assert PrintHeader(header) == header.key + ":" + (" " + header.value);
  }

  ghost predicate NonBlank(lines: seq<string>) {
    forall i :: 0 <= i < |lines| ==> !Blank(lines[i])
  }

  lemma {:induction false} HeadOfNonBlank(lines: seq<string>, rest: seq<string>)
    requires NonBlank(lines)
    ensures Head(lines + rest) == lines + Head(rest)
  {
    if lines == [] {
      assert lines + rest == rest;
    } else {
      HeadOfNonBlank(lines[1..], rest);
      assert (lines + rest)[1..] == lines[1..] + rest;
    }
  }

  lemma {:induction false} UnfoldSplit(read: Option<Headers>, first: seq<string>, second: seq<string>)
    ensures UnfoldFrom(read, first + second) == UnfoldFrom(UnfoldFrom(read, first), second)
    decreases |first|
  {
    hide Absorb;
    if first == [] {
      assert first + second == second;
    } else {
      UnfoldSplit(Absorb(read, first[0]), first[1..], second);
      assert (first + second)[1..] == first[1..] + second;
    }
  }

  lemma AbsorbPrinted(read: Headers, header: Header)
    requires ValidName(header.key)
    ensures Absorb(Some(read), PrintHeader(header)) == Some(read + Normal([header]))
  {
    hide Classify, Strip, Lower, ValidName, PrintHeader;
    PrintedLine(header);
    assert Normal([header]) == [Header(Lower(header.key), Strip(header.value))];
  }

  lemma PrintFirst(headers: Headers)
    requires headers != [] && Printable(headers)
    ensures ValidName(headers[0].key) && Printable(headers[1..])
    ensures Print(headers) == [PrintHeader(headers[0])] + Print(headers[1..])
    ensures Normal(headers) == Normal([headers[0]]) + Normal(headers[1..])
  {
    hide Print, Normal, PrintHeader, Lower, Strip, ValidName;
    var first, rest := [headers[0]], headers[1..];
    assert forall i :: 0 < i < |headers| ==> headers[i] == rest[i - 1];
    assert Print(headers) == [PrintHeader(headers[0])] + Print(rest) by {
      hide Normal;
      forall i | 0 < i < |headers| ensures Print(headers)[i] == Print(rest)[i - 1] {
      }
    }
    assert Normal(headers) == Normal(first) + Normal(rest) by {
      forall i | 0 < i < |headers| ensures Normal(headers)[i] == Normal(rest)[i - 1] {
      }
    }
  }

  lemma UnfoldNext(read: Option<Headers>, line: string, rest: seq<string>)
    ensures UnfoldFrom(read, [line] + rest) == UnfoldFrom(Absorb(read, line), rest)
  {
    hide Absorb;
    assert ([line] + rest)[1..] == rest;
  }

  lemma {:induction false} UnfoldPrinted(read: Headers, headers: Headers)
    requires Printable(headers)
    ensures UnfoldFrom(Some(read), Print(headers)) == Some(read + Normal(headers))
    decreases |headers|
  {
    hide ValidName, PrintHeader, Absorb, Printable;
    if headers == [] {
      assert read + Normal(headers) == read;
    } else {
      PrintFirst(headers);
      UnfoldPrinted(read + Normal([headers[0]]), headers[1..]);
      PrintedStep(read, headers[0], headers[1..]);
    }
  }

  lemma PrintedStep(read: Headers, first: Header, rest: Headers)
    requires ValidName(first.key)
    requires UnfoldFrom(Some(read + Normal([first])), Print(rest)) == Some(read + Normal([first]) + Normal(rest))
    ensures UnfoldFrom(Some(read), [PrintHeader(first)] + Print(rest)) == Some(read + (Normal([first]) + Normal(rest)))
  {
    hide UnfoldFrom, Print, Normal, ValidName, PrintHeader, Absorb;
    AbsorbPrinted(read, first);
    UnfoldNext(Some(read), PrintHeader(first), Print(rest));
    assert read + (Normal([first]) + Normal(rest)) == (read + Normal([first])) + Normal(rest);
  }

  /** Reading inverts printing, whatever follows the first blank line. */
  lemma PrintedReadsBack(headers: Headers, blank: string, body: seq<string>)
    requires Printable(headers) && Blank(blank)
    ensures Unfold(Print(headers)) == Some(Normal(headers))
    ensures Unfold(Print(headers) + [blank] + body) == Some(Normal(headers))
  {
    forall i | 0 <= i < |headers| ensures !Blank(Print(headers)[i]) {
      PrintedLine(headers[i]);
    }
    UnfoldPrinted([], headers);
    HeadOfNonBlank(Print(headers), []);
    HeadOfNonBlank(Print(headers), [blank] + body);
    assert Print(headers) + [] == Print(headers) && Head([blank] + body) == [];
    assert Print(headers) + [blank] + body == Print(headers) + ([blank] + body);
    assert [] + Normal(headers) == Normal(headers);
  }

  /**
   * The same from text: values without line breaks, printed one header a line, are read back,
   * whatever text follows the first blank line.
   */
  lemma PrintedTextReadsBack(headers: Headers, blank: string, body: string)
    requires Printable(headers) && forall i :: 0 <= i < |headers| ==> OneLine(headers[i].value)
    requires Blank(blank) && OneLine(blank)
    ensures Unfold(SplitLines(JoinLines(Print(headers)))) == Some(Normal(headers))
    ensures Unfold(SplitLines(JoinLines(Print(headers)) + blank + "\n" + body)) == Some(Normal(headers))
  {
    hide Unfold, SplitLines, JoinLines, ValidName, OneLine;
    var lines := Print(headers);
    forall i | 0 <= i < |headers| ensures OneLine(lines[i]) {
      PrintedIsOneLine(headers[i]);
    }
    SplitJoined(lines, "");
    assert JoinLines(lines) + "" == JoinLines(lines);
    NoLines();
    SplitJoined(lines, blank + "\n" + body);
    FirstLine(blank, body);
    assert JoinLines(lines) + (blank + "\n" + body) == JoinLines(lines) + blank + "\n" + body;
    assert lines + ([blank] + SplitLines(body)) == lines + [blank] + SplitLines(body) && lines + [] == lines;
    PrintedReadsBack(headers, blank, SplitLines(body));
  }

  lemma NoLines()
    ensures SplitLines("") == []
  {
  }

  lemma PrintedIsOneLine(header: Header)
    requires ValidName(header.key) && OneLine(header.value)
    ensures OneLine(PrintHeader(header))
  {
    var line := PrintHeader(header);
    assert forall i :: 0 <= i < |line| ==>
      line[i] == if i < |header.key| then header.key[i] else if i < |header.key| + 2 then ": "[i - |header.key|]
                 else header.value[i - |header.key| - 2];
  }

  /** Nothing after the first blank line is read, in any file. */
  lemma {:induction false} BodyIsNotRead(lines: seq<string>, blank: string, body: seq<string>)
    requires Blank(blank)
    ensures Head(lines + [blank] + body) == Head(lines)
    ensures Unfold(lines + [blank] + body) == Unfold(lines)
  {
    if lines == [] {
      assert lines + [blank] + body == [blank] + body;
    } else {
      BodyIsNotRead(lines[1..], blank, body);
      assert (lines + [blank] + body)[1..] == lines[1..] + [blank] + body;
    }
  }

  // -------------------------------------------------------------------------------- folding

  /** Folding `first + " " + second` at that space keeps the value: neither side loses whitespace there. */
  predicate Foldable(first: string, second: string) {
    first != "" && !IsSpace(first[|first| - 1]) && second != "" && !IsSpace(second[0])
  }

  /** The two readings of a folded value agree exactly when it is foldable there. */
  lemma JoinStripped(first: string, second: string)
    ensures Strip(first + " " + second) == Strip(first) + " " + Strip(second) <==> Foldable(first, second)
  {
    var before1, after1 := StripParts(first);
    var before2, after2 := StripParts(second);
    hide Strip;
    if Blank(second) {
      BlankTail(first, second);
    } else if Blank(first) {
      assert first + " " + second == (first + " " + before2) + Strip(second) + after2;
      StripKeepsMiddle(first + " " + before2, Strip(second), after2);
    } else {
      var middle := Strip(first) + after1 + " " + before2 + Strip(second);
      assert first + " " + second == before1 + middle + after2;
      StripKeepsMiddle(before1, middle, after2);
      assert |middle| == |Strip(first) + " " + Strip(second)| + |after1| + |before2|;
      assert after1 == "" && before2 == "" ==> middle == Strip(first) + " " + Strip(second);
    }
  }

  lemma BlankTail(first: string, second: string)
    requires Blank(second)
    ensures Strip(first + " " + second) == Strip(first)
  {
    var before, after := StripParts(first);
    hide Strip;
    if !Blank(first) {
      assert first + " " + second == before + Strip(first) + (after + " " + second);
      StripKeepsMiddle(before, Strip(first), after + " " + second);
    } else {
      assert Blank(first + " " + second);
    }
  }

  function Folded(name: string, first: string, second: string): seq<string> {
    [name + ":" + (" " + first), " " + second]
  }

  function Whole(name: string, first: string, second: string): seq<string> {
    [name + ":" + (" " + (first + " " + second))]
  }

  lemma ContinuationLine(text: string)
    requires !Blank(text)
    ensures !Blank(" " + text) && Classify(" " + text) == Continuation(Strip(text))
  {
    StripSkips(" ", text);
  }

  lemma UnfoldOne(read: Headers, line: string, header: Header)
    requires Classify(line) == Field(header)
    ensures UnfoldFrom(Some(read), [line]) == Some(read + [header])
  {
    assert [line][1..] == [];
  }

  lemma UnfoldTwo(read: Headers, line: string, header: Header, next: string, text: string)
    requires Classify(line) == Field(header) && Classify(next) == Continuation(text)
    ensures UnfoldFrom(Some(read), [line, next]) == Some(read + [Header(header.key, header.value + " " + text)])
  {
    hide Classify;
    UnfoldOne(read, line, header);
    UnfoldSplit(Some(read), [line], [next]);
    assert [line] + [next] == [line, next] && [next][1..] == [];
    assert Extended(read + [header], text) == read + [Header(header.key, header.value + " " + text)];
  }

  lemma FoldedLines(read: Headers, name: string, first: string, second: string)
    requires ValidName(name) && !Blank(second)
    ensures NonBlank(Folded(name, first, second)) && NonBlank(Whole(name, first, second))
    ensures UnfoldFrom(Some(read), Folded(name, first, second))
         == Some(read + [Header(Lower(name), Strip(first) + " " + Strip(second))])
    ensures UnfoldFrom(Some(read), Whole(name, first, second))
         == Some(read + [Header(Lower(name), Strip(first + " " + second))])
  {
    hide Classify, Strip, Lower, ValidName, Blank, UnfoldFrom;
    FieldLine(name, " " + first);
    SpaceThen(first);
    FieldLine(name, " " + (first + " " + second));
    SpaceThen(first + " " + second);
    ContinuationLine(second);
    UnfoldTwo(read, name + ":" + (" " + first), Header(Lower(name), Strip(first)), " " + second, Strip(second));
    UnfoldOne(read, name + ":" + (" " + (first + " " + second)), Header(Lower(name), Strip(first + " " + second)));
  }

  lemma SpaceThen(s: string)
    ensures Strip(" " + s) == Strip(s)
  {
    StripSkips(" ", s);
  }

  lemma UnfoldNonBlank(lines: seq<string>)
    requires NonBlank(lines)
    ensures Head(lines) == lines
  {
    HeadOfNonBlank(lines, []);
    assert lines + [] == lines;
  }

  /**
   * Folding a value at one of its spaces, on its own, keeps the reading if and only if the value is
   * foldable there or nothing but whitespace is cut off, which no reading keeps.
   */
  lemma FoldingKeepsReading(name: string, first: string, second: string)
    requires ValidName(name)
    ensures Unfold(Folded(name, first, second)) == Unfold(Whole(name, first, second))
       <==> Foldable(first, second) || Blank(second)
  {
    hide Strip, Lower, Blank, Foldable, ValidName;
    var whole := Header(Lower(name), Strip(first + " " + second));
    assert [] + [whole] == [whole] && [whole][0] == whole;
    if Blank(second) {
      BlankFoldLines([], name, first, second);
      UnfoldNonBlank(Whole(name, first, second));
      assert Head([" " + second]) == [];
      assert Folded(name, first, second) == [name + ":" + (" " + first)] + [" " + second];
      HeadOfNonBlank([name + ":" + (" " + first)], [" " + second]);
    } else {
      FoldedLines([], name, first, second);
      UnfoldNonBlank(Folded(name, first, second));
      UnfoldNonBlank(Whole(name, first, second));
      JoinStripped(first, second);
      var folded := Header(Lower(name), Strip(first) + " " + Strip(second));
      assert [] + [folded] == [folded] && [folded][0] == folded;
    }
  }

  lemma BlankAlike(s: string)
    ensures Blank(" " + s) <==> Blank(s)
  {
    StripSkips(" ", s);
  }

  lemma FoldableIsText(first: string, second: string)
    requires Foldable(first, second)
    ensures !Blank(second)
  {
  }

  /** Cutting off whitespace: the first line reads like the whole, and the second is blank. */
  lemma BlankFoldLines(read: Headers, name: string, first: string, second: string)
    requires ValidName(name) && Blank(second)
    ensures NonBlank([name + ":" + (" " + first)]) && NonBlank(Whole(name, first, second)) && Blank(" " + second)
    ensures UnfoldFrom(Some(read), [name + ":" + (" " + first)]) == UnfoldFrom(Some(read), Whole(name, first, second))
         == Some(read + [Header(Lower(name), Strip(first))])
  {
    BlankAlike(second);
    hide Classify, Strip, Lower, ValidName, Blank, UnfoldFrom;
    FieldLine(name, " " + first);
    SpaceThen(first);
    FieldLine(name, " " + (first + " " + second));
    SpaceThen(first + " " + second);
    BlankTail(first, second);
    UnfoldOne(read, name + ":" + (" " + first), Header(Lower(name), Strip(first)));
    UnfoldOne(read, name + ":" + (" " + (first + " " + second)), Header(Lower(name), Strip(first)));
  }

  /** How much has been read: every line that is taken adds to it. */
  function Size(headers: Headers): nat {
    if headers == [] then 0
    else Size(headers[..|headers| - 1]) + 1 + |headers[|headers| - 1].value|
  }

  lemma LineAdds(read: Headers, line: string)
    ensures Absorb(Some(read), line).Some? ==> Size(Absorb(Some(read), line).value) > Size(read)
  {
    hide Classify;
    var next := Absorb(Some(read), line);
    if next.Some? {
      match Classify(line)
      case Field(header) => assert next.value[..|read|] == read;
      case Continuation(_) => assert next.value[..|read| - 1] == read[..|read| - 1];
    }
  }

  lemma {:induction false} LinesAdd(read: Headers, lines: seq<string>)
    ensures UnfoldFrom(Some(read), lines).Some? ==> Size(UnfoldFrom(Some(read), lines).value) >= Size(read) + |lines|
    decreases |lines|
  {
    if lines != [] {
      hide Absorb;
      LineAdds(read, lines[0]);
      var next := Absorb(Some(read), lines[0]);
      if next.Some? {
        LinesAdd(next.value, lines[1..]);
      } else {
        FailureSticks(lines[1..]);
      }
    }
  }

  /**
   * Inside a file, cutting off whitespace ends the headers there: the reading is kept if and only if
   * they ended there anyway.
   */
  lemma BlankFoldEndsHeaders(before: seq<string>, name: string, first: string, second: string, after: seq<string>)
    requires ValidName(name) && Blank(second)
    requires NonBlank(before) && Unfold(before).Some?
    ensures Unfold(before + Folded(name, first, second) + after) == Unfold(before + [name + ":" + (" " + first)])
    ensures Unfold(before + Folded(name, first, second) + after) == Unfold(before + Whole(name, first, second) + after)
       <==> Head(after) == []
  {
    hide Strip, Lower, Blank, ValidName, Whole, UnfoldFrom, Head, Absorb;
    var line := name + ":" + (" " + first);
    UnfoldNonBlank(before);
    var read := UnfoldFrom(Some([]), before).value;
    BlankFoldLines(read, name, first, second);
    assert before + Folded(name, first, second) + after == before + [line] + [" " + second] + after;
    BodyIsNotRead(before + [line], " " + second, after);
    UnfoldNonBlank(before + [line]);
    UnfoldSplit(Some([]), before, [line]);
    InContext(before, Whole(name, first, second), after);
    var whole := read + [Header(Lower(name), Strip(first))];
    LinesAdd(whole, Head(after));
    assert UnfoldFrom(Some(whole), []) == Some(whole) by { UnfoldNothing(whole); }
  }

  lemma UnfoldNothing(read: Headers)
    ensures UnfoldFrom(Some(read), []) == Some(read)
  {
  }

  /** Inside any file, folding at a foldable space changes nothing. */
  lemma FoldingInContext(before: seq<string>, name: string, first: string, second: string, after: seq<string>)
    requires ValidName(name) && Foldable(first, second)
    ensures Unfold(before + Folded(name, first, second) + after) == Unfold(before + Whole(name, first, second) + after)
  {
    hide Strip, Lower, Blank, Foldable, ValidName, Folded, Whole, UnfoldFrom, Head;
    FoldableIsText(first, second);
    var folded, whole := Folded(name, first, second), Whole(name, first, second);
    FoldedLines([], name, first, second);
    if blank :| 0 <= blank < |before| && Blank(before[blank]) {
      var h := before[..blank];
      BodyIsNotRead(h, before[blank], before[blank + 1..] + folded + after);
      BodyIsNotRead(h, before[blank], before[blank + 1..] + whole + after);
      assert before + folded + after == h + [before[blank]] + (before[blank + 1..] + folded + after);
      assert before + whole + after == h + [before[blank]] + (before[blank + 1..] + whole + after);
    } else {
      InContext(before, folded, after);
      InContext(before, whole, after);
      var read := UnfoldFrom(Some([]), before);
      if read.None? {
        FailureSticks(folded);
        FailureSticks(whole);
      } else {
        FoldedLines(read.value, name, first, second);
        JoinStripped(first, second);
      }
    }
  }

  lemma InContext(before: seq<string>, lines: seq<string>, after: seq<string>)
    requires NonBlank(before)
    requires NonBlank(lines)
    ensures Unfold(before + lines + after)
         == UnfoldFrom(UnfoldFrom(UnfoldFrom(Some([]), before), lines), Head(after))
  {
    HeadOfNonBlank(before + lines, after);
    UnfoldSplit(Some([]), before + lines, Head(after));
    UnfoldSplit(Some([]), before, lines);
  }

  /** A value with two spaces in a row is not foldable at the first of them. */
  lemma DoubleSpace()
    ensures Unfold(Folded("name", "x", " y")) != Unfold(Whole("name", "x", " y"))
  {
    assert " y"[1] == 'y' && !IsSpace('y') && !Blank(" y");
    FoldingKeepsReading("name", "x", " y");
  }

  /** Lower-case valid names, as every reading has. */
  predicate Canonical(headers: Headers) {
    Printable(headers) && forall i :: 0 <= i < |headers| ==> Lower(headers[i].key) == headers[i].key
  }

  /** Printing what was read and reading it again gives it back exactly when no value has outer whitespace. */
  lemma ReprintIsStable(headers: Headers)
    requires Canonical(headers)
    ensures Unfold(Print(headers)) == Some(headers) <==> forall i :: 0 <= i < |headers| ==> Trimmed(headers[i].value)
  {
    PrintedReadsBack(headers, "", []);
    hide Strip, Lower;
    if forall i :: 0 <= i < |headers| ==> Trimmed(headers[i].value) {
      assert Normal(headers) == headers;
    }
    if Normal(headers) == headers {
      forall i | 0 <= i < |headers| ensures Trimmed(headers[i].value) {
        assert Normal(headers)[i] == headers[i];
      }
    }
  }

  /** A header with no text of its own that is continued does read with a leading space. */
  lemma ContinuedEmptyHeader(name: string, text: string)
    requires ValidName(name) && text != "" && Trimmed(text)
    ensures Unfold([name + ":", " " + text]) == Some([Header(Lower(name), " " + text)])
  {
    hide Classify, Strip, Lower, ValidName, UnfoldFrom;
    NotBlankText(text);
    FieldLine(name, "");
    NoText(name);
    ContinuationLine(text);
    UnfoldNonBlank([name + ":", " " + text]);
    UnfoldTwo([], name + ":", Header(Lower(name), ""), " " + text, text);
    assert "" + " " == " ";
    assert [] + [Header(Lower(name), "" + " " + text)] == [Header(Lower(name), " " + text)];
  }

  lemma NotBlankText(text: string)
    requires text != "" && Trimmed(text)
    ensures !Blank(text)
  {
    assert !IsSpace(text[0]);
  }

  lemma NoText(name: string)
    ensures name + ":" + "" == name + ":" && Strip("") == ""
  {
  }

  // ------------------------------------------------------------------- in terms of characters

  predicate Indented(line: string) {
    line != "" && (line[0] == ' ' || line[0] == '\t')
  }

  predicate NameCharacter(c: char) {
    'a' <= c <= 'z' || 'A' <= c <= 'Z' || '0' <= c <= '9' || c == '-'
  }

  /** A name of letters, digits and hyphens that does not begin with a hyphen, then a colon. */
  predicate HeaderLine(line: string) {
    exists n :: && 0 < n < |line| && line[n] == ':' && line[0] != '-'
                && forall k :: 0 <= k < n ==> NameCharacter(line[k])
  }

  lemma ClassifiedExactly(line: string)
    ensures Classify(line).Continuation? <==> Indented(line)
    ensures Classify(line).Field? <==> HeaderLine(line)
  {
    hide Strip, Lower, Find;
    if HeaderLine(line) {
      var n :| && 0 < n < |line| && line[n] == ':' && line[0] != '-'
               && forall k :: 0 <= k < n ==> NameCharacter(line[k]);
      assert Find(line, ':') == n;
    }
  }

  lemma {:induction false} ReadableFrom(read: Headers, lines: seq<string>)
    ensures UnfoldFrom(Some(read), lines).Some?
       <==> && (read == [] && lines != [] ==> !Indented(lines[0]))
            && forall i :: 0 <= i < |lines| ==> Indented(lines[i]) || HeaderLine(lines[i])
    decreases |lines|
  {
    if lines != [] {
      hide Classify, HeaderLine, Indented;
      ClassifiedExactly(lines[0]);
      var next := Absorb(Some(read), lines[0]);
      if next.Some? {
        ReadableFrom(next.value, lines[1..]);
        assert forall i :: 0 < i < |lines| ==> lines[i] == lines[1..][i - 1];
      } else {
        FailureSticks(lines[1..]);
      }
    }
  }

  /**
   * Lines that are not blank are readable exactly when each is a header or begins with a space or a
   * tab, and the first does not: any other name, an empty one or a missing colon refuses the file.
   */
  lemma ReadableExactly(lines: seq<string>)
    requires NonBlank(lines)
    ensures Unfold(lines).Some?
       <==> && (lines != [] ==> !Indented(lines[0]))
            && forall i :: 0 <= i < |lines| ==> Indented(lines[i]) || HeaderLine(lines[i])
  {
    UnfoldNonBlank(lines);
    ReadableFrom([], lines);
  }

  /** The values of a key follow the order of the headers, and no other header adds to them. */
  lemma {:induction false} ValuesInOrder(a: Headers, b: Headers, key: string)
    ensures ValuesOf(a + b, key) == ValuesOf(a, key) + ValuesOf(b, key)
    ensures |b| == 1 ==> ValuesOf(b, key) == if b[0].key == key then [b[0].value] else []
    decreases |b|
  {
    if b == [] {
      assert a + b == a;
    } else {
      assert (a + b)[..|a + b| - 1] == a + b[..|b| - 1];
      ValuesInOrder(a, b[..|b| - 1], key);
    }
  }

  lemma {:induction false} OnlyValue(headers: Headers, at: nat, key: string)
    requires at < |headers| && forall i :: 0 <= i < |headers| ==> (headers[i].key == key <==> i == at)
    ensures ValuesOf(headers, key) == [headers[at].value]
  {
    if at < |headers| - 1 {
      OnlyValue(headers[..|headers| - 1], at, key);
    } else {
      NoValue(headers[..|headers| - 1], key);
    }
  }

  lemma {:induction false} NoValue(headers: Headers, key: string)
    requires forall i :: 0 <= i < |headers| ==> headers[i].key != key
    ensures ValuesOf(headers, key) == []
  {
    if headers != [] {
      NoValue(headers[..|headers| - 1], key);
    }
  }

  /** One header as a file holds it: a name of the alphabet and text without outer spaces or controls. */
  predicate Ordinary(h: Header) {
    && h.key != "" && h.key[0] != '-' && (forall i :: 0 <= i < |h.key| ==> NameCharacter(h.key[i]))
    && (forall i :: 0 <= i < |h.value| ==> ' ' <= h.value[i] <= '~')
    && (h.value != "" ==> h.value[0] != ' ' && h.value[|h.value| - 1] != ' ')
  }

  lemma OrdinaryIsPrintable(h: Header)
    requires Ordinary(h)
    ensures ValidName(h.key) && OneLine(h.value) && Strip(h.value) == h.value
  {
    assert Trimmed(h.value);
  }

  lemma LowerNames()
    ensures Lower("Metadata-Version") == "metadata-version" && Lower("Name") == "name" && Lower("Version") == "version"
  {
    assert forall s :: |s| == 4 && s[0] == 'n' && s[1] == 'a' && s[2] == 'm' && s[3] == 'e' ==> s == "name";
    assert Lower("Version") == "version";
    assert Lower("Metadata-Version") == "metadata-version";
  }

  /**
   * Any file of ordinary headers with one `Metadata-Version` of the shape digits, dot, digits, one
   * `Name` and one `Version` is accepted, and gives every header back in order.
   */
  lemma OrdinaryIsAccepted(headers: Headers, lines: seq<string>, m: nat, n: nat, v: nat, major: string, minor: string,
                           digit: char -> bool)
    requires forall i :: 0 <= i < |headers| ==> Ordinary(headers[i])
    requires |lines| == |headers|
    requires forall i :: 0 <= i < |headers| ==> lines[i] == headers[i].key + ": " + headers[i].value
    requires m < |headers| && headers[m].key == "Metadata-Version" && headers[m].value == major + "." + minor
    requires n < |headers| && headers[n].key == "Name" && v < |headers| && headers[v].key == "Version"
    requires forall i :: 0 <= i < |headers| && i !in {m, n, v} ==>
               Lower(headers[i].key) !in {"metadata-version", "name", "version"}
    requires major != "" && minor != "" && forall c :: '0' <= c <= '9' ==> digit(c)
    requires forall i :: 0 <= i < |major + minor| ==> '0' <= (major + minor)[i] <= '9'
    ensures var read := Unfold(SplitLines(JoinLines(lines)));
            && read.Some? && Acceptable(read.value, digit) && |read.value| == |headers|
            && (forall i :: 0 <= i < |headers| ==> read.value[i] == Header(Lower(headers[i].key), headers[i].value))
            && ValuesOf(read.value, "metadata-version") == [headers[m].value]
            && ValuesOf(read.value, "name") == [headers[n].value]
            && ValuesOf(read.value, "version") == [headers[v].value]
  {
    hide Unfold, SplitLines, JoinLines, Ordinary, Acceptable, ValuesOf, Lower;
    OrdinaryIsRead(headers, lines);
    VersionOfDigits(major, minor, digit);
    LowerNames();
    SinglesAreAccepted(Unfold(SplitLines(JoinLines(lines))).value, m, n, v, digit);
  }

  lemma OrdinaryIsRead(headers: Headers, lines: seq<string>)
    requires forall i :: 0 <= i < |headers| ==> Ordinary(headers[i])
    requires |lines| == |headers|
    requires forall i :: 0 <= i < |headers| ==> lines[i] == headers[i].key + ": " + headers[i].value
    ensures var read := Unfold(SplitLines(JoinLines(lines)));
            && read.Some? && |read.value| == |headers|
            && forall i :: 0 <= i < |headers| ==> read.value[i] == Header(Lower(headers[i].key), headers[i].value)
  {
    PrintedShape(headers, lines);
    hide Unfold, SplitLines, JoinLines, ValidName, OneLine, Strip, Lower, Ordinary, Print, PrintHeader;
    forall i | 0 <= i < |headers|
      ensures ValidName(headers[i].key) && OneLine(headers[i].value) && Strip(headers[i].value) == headers[i].value
    {
      OrdinaryIsPrintable(headers[i]);
    }
    assert Blank("") && OneLine("") by { NothingIsBlank(); }
    PrintedTextReadsBack(headers, "", "");
  }

  lemma NothingIsBlank()
    ensures Blank("") && OneLine("")
  {
  }

  lemma SinglesAreAccepted(read: Headers, m: nat, n: nat, v: nat, digit: char -> bool)
    requires m < |read| && n < |read| && v < |read|
    requires read[m].key == "metadata-version" && read[n].key == "name" && read[v].key == "version"
    requires forall i :: 0 <= i < |read| && i !in {m, n, v} ==>
               read[i].key !in {"metadata-version", "name", "version"}
    requires VersionShaped(read[m].value, digit)
    ensures Acceptable(read, digit)
    ensures ValuesOf(read, "metadata-version") == [read[m].value]
    ensures ValuesOf(read, "name") == [read[n].value] && ValuesOf(read, "version") == [read[v].value]
  {
    hide ValuesOf, VersionShaped;
    assert |"metadata-version"| == 16 && |"name"| == 4 && |"version"| == 7;
    OnlyValues(read, "metadata-version", "name", "version", m, n, v);
  }

  lemma OnlyValues(read: Headers, a: string, b: string, c: string, m: nat, n: nat, v: nat)
    requires m < |read| && n < |read| && v < |read| && a != b && a != c && b != c
    requires read[m].key == a && read[n].key == b && read[v].key == c
    requires forall i :: 0 <= i < |read| && i !in {m, n, v} ==> read[i].key !in {a, b, c}
    ensures ValuesOf(read, a) == [read[m].value]
    ensures ValuesOf(read, b) == [read[n].value] && ValuesOf(read, c) == [read[v].value]
  {
    hide ValuesOf;
    OnlyValue(read, m, a);
    OnlyValue(read, n, b);
    OnlyValue(read, v, c);
  }

  lemma PrintedShape(headers: Headers, lines: seq<string>)
    requires |lines| == |headers|
    requires forall i :: 0 <= i < |headers| ==> lines[i] == headers[i].key + ": " + headers[i].value
    ensures lines == Print(headers)
  {
  }

  lemma VersionOfDigits(major: string, minor: string, digit: char -> bool)
    requires major != "" && minor != "" && forall c :: '0' <= c <= '9' ==> digit(c)
    requires forall i :: 0 <= i < |major + minor| ==> '0' <= (major + minor)[i] <= '9'
    ensures VersionShaped(major + "." + minor, digit)
  {
    var version := major + "." + minor;
    assert forall i :: 0 <= i < |major| ==> version[i] == (major + minor)[i];
    assert forall i :: |major| < i < |version| ==> version[i] == (major + minor)[i - 1];
    assert version[|major|] == '.' && Find(version, '.') == |major|;
  }
}
