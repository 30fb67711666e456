// The hash lock of public wheels: requirement blocks, each followed by its wheel hashes. The
// reference definitions are about lines without their breaks.
module PublicLock {
  import opened PythonText
  import opened Sequences
  import opened Wrappers

  const ONLY_BINARY := "--only-binary=:all:"
  const HASH_PREFIX := "--hash=sha256:"

  // ----------------------------------------------------------------------------- single lines

  datatype Line = Skipped | Requirement(name: string, version: string) | Hash(digest: string) | Unrecognised

  /** `[a-z0-9-]+` */
  predicate ValidName(s: string) {
    s != "" && forall i :: 0 <= i < |s| ==> IsLower(s[i]) || IsDigit(s[i]) || s[i] == '-'
  }

  /** `[0-9][A-Za-z0-9.!+_-]*` */
  predicate ValidVersion(s: string) {
    && s != "" && IsDigit(s[0])
    && forall i :: 0 <= i < |s| ==> IsLower(s[i]) || IsUpper(s[i]) || IsDigit(s[i]) || s[i] in ".!+_-"
  }

  /** `[0-9a-f]{64}` */
  predicate ValidDigest(s: string) {
    |s| == 64 && forall i :: 0 <= i < 64 ==> IsDigit(s[i]) || 'a' <= s[i] <= 'f'
  }

  /** `\s+\\` to the end of the line. */
  predicate Continues(s: string) {
    |s| >= 2 && s[|s| - 1] == '\\' && Blank(s[..|s| - 1])
  }

  function ReadRequirement(line: string): Option<(string, string)> {
    var equals := Find(line, '=');
    if equals + 2 < |line| && line[equals + 1] == '=' && line[|line| - 1] == '\\' && ValidName(line[..equals]) then
      match ReadVersion(line[equals + 2..|line| - 1])
      case Some(version) => Some((line[..equals], version))
      case None => None
    else None
  }

  /** A version with white space after it. */
  function ReadVersion(body: string): Option<string> {
    var version := body[..|body| - TrailingSpaces(body)];
    if TrailingSpaces(body) > 0 && ValidVersion(version) then Some(version) else None
  }

  function ReadHash(line: string): Option<string> {
    var n := LeadingSpaces(line);
    var rest := line[n..];
    if n > 0 && HASH_PREFIX <= rest && |rest| >= 14 + 64 && ValidDigest(rest[14..78])
       && (rest[78..] == "" || Continues(rest[78..]))
    then Some(rest[14..78]) else None
  }

  function Classify(line: string): Line {
    if line == "" || line[0] == '#' || line == ONLY_BINARY then Skipped
    else
      match ReadRequirement(line)
      case Some((name, version)) => Requirement(name, version)
      case None =>
        match ReadHash(line)
        case Some(digest) => Hash(digest)
        case None => Unrecognised
  }

  // ------------------------------------------------------------- the lines, in terms of characters

  predicate SkippedForm(line: string) {
    line == "" || line[0] == '#' || line == "--only-binary=:all:"
  }

  predicate PackageName(name: string) {
    && name != ""
    && forall i :: 0 <= i < |name| ==> 'a' <= name[i] <= 'z' || '0' <= name[i] <= '9' || name[i] == '-'
  }

  predicate VersionText(version: string) {
    && version != "" && '0' <= version[0] <= '9'
    && forall i :: 0 <= i < |version| ==>
         || 'a' <= version[i] <= 'z' || 'A' <= version[i] <= 'Z' || '0' <= version[i] <= '9'
         || version[i] == '.' || version[i] == '!' || version[i] == '+' || version[i] == '_' || version[i] == '-'
  }

  predicate HexDigest(digest: string) {
    |digest| == 64 && forall i :: 0 <= i < 64 ==> '0' <= digest[i] <= '9' || 'a' <= digest[i] <= 'f'
  }

  /** `name==version`, white space, and a backslash. */
  ghost predicate RequirementForm(line: string, name: string, version: string) {
    && PackageName(name) && VersionText(version)
    && exists gap :: gap != "" && Blank(gap) && line == name + "==" + version + gap + "\\"
  }

  /** White space, `--hash=sha256:`, 64 hexadecimal digits, and perhaps white space and a backslash. */
  ghost predicate HashForm(line: string, digest: string) {
    HexDigest(digest) && exists indent, tail :: HashParts(line, digest, indent, tail)
  }

  ghost predicate HashParts(line: string, digest: string, indent: string, tail: string) {
    && indent != "" && Blank(indent) && line == indent + "--hash=sha256:" + digest + tail
    && (tail == "" || exists gap :: gap != "" && Blank(gap) && tail == gap + "\\")
  }

  lemma AlphabetsAgree(s: string)
    ensures ValidName(s) <==> PackageName(s)
    ensures ValidVersion(s) <==> VersionText(s)
    ensures ValidDigest(s) <==> HexDigest(s)
  {
  }

  lemma TailsAgree(tail: string)
    ensures Continues(tail) <==> exists gap :: gap != "" && Blank(gap) && tail == gap + "\\"
  {
    if Continues(tail) {
      var gap := tail[..|tail| - 1];
      assert tail == gap + "\\";
    }
    if gap :| gap != "" && Blank(gap) && tail == gap + "\\" {
      assert tail[..|tail| - 1] == gap;
    }
  }

  ghost predicate RequirementLineForm(line: string) {
    exists name, version :: RequirementForm(line, name, version)
  }

  ghost predicate HashLineForm(line: string) {
    exists digest :: HashForm(line, digest)
  }

  lemma RequirementRead(line: string, name: string, version: string, gap: string)
    requires ValidName(name) && ValidVersion(version) && gap != "" && Blank(gap)
    requires line == name + "==" + version + gap + "\\"
    ensures ReadRequirement(line) == Some((name, version)) && Classify(line) == Requirement(name, version)
  {
    hide Find, ValidName, ValidVersion, Blank, Classify, ReadVersion;
    assert line == name + "==" + (version + gap + "\\");
    NameBeforeEquals(name, version + gap + "\\");
    assert line[|name| + 2..|line| - 1] == version + gap;
    VersionBeforeGap(version, gap);
    RequirementClassified(line);
  }

  lemma RequirementClassified(line: string)
    requires ReadRequirement(line).Some?
    ensures Classify(line) == Requirement(ReadRequirement(line).value.0, ReadRequirement(line).value.1)
  {
    hide ReadVersion, ReadHash;
    assert line[|line| - 1] == '\\' && ONLY_BINARY[|ONLY_BINARY| - 1] == ':';
    assert line[..Find(line, '=')][0] == line[0];
  }

  lemma VersionBeforeGap(version: string, gap: string)
    requires ValidVersion(version) && gap != "" && Blank(gap)
    ensures ReadVersion(version + gap) == Some(version)
  {
    hide TrailingSpaces;
    var body := version + gap;
    assert body[|version| - 1] == version[|version| - 1] && !IsSpace(body[|version| - 1]);
    assert forall i :: 0 <= i < |gap| ==> body[|version| + i] == gap[i];
    assert TrailingSpaces(body) == |gap| && body[..|body| - |gap|] == version;
  }

  lemma VersionHasGap(body: string)
    requires ReadVersion(body).Some?
    ensures ValidVersion(ReadVersion(body).value)
    ensures exists gap :: gap != "" && Blank(gap) && body == ReadVersion(body).value + gap
  {
    hide TrailingSpaces, IsSpace, ValidVersion;
    var n := |body| - TrailingSpaces(body);
    assert Blank(body[n..]) && body == body[..n] + body[n..];
  }

  lemma LineParts(line: string, equals: nat)
    requires equals + 2 < |line| && line[equals] == '=' && line[equals + 1] == '=' && line[|line| - 1] == '\\'
    ensures line == line[..equals] + "==" + line[equals + 2..|line| - 1] + "\\"
  {
  }

  lemma RequirementHasForm(line: string)
    requires ReadRequirement(line).Some?
    ensures RequirementForm(line, ReadRequirement(line).value.0, ReadRequirement(line).value.1)
  {
    hide Find, ReadVersion, ValidName, ValidVersion, PackageName, VersionText, Blank;
    var (name, version) := ReadRequirement(line).value;
    var body := line[|name| + 2..|line| - 1];
    LineParts(line, |name|);
    VersionHasGap(body);
    AlphabetsAgree(name);
    AlphabetsAgree(version);
    var gap :| gap != "" && Blank(gap) && body == version + gap;
    Regrouped(line, name, version, gap, body);
  }

  lemma Regrouped(line: string, name: string, version: string, gap: string, body: string)
    requires line == name + "==" + body + "\\" && body == version + gap
    ensures line == name + "==" + version + gap + "\\"
  {
  }

  lemma RequirementFormRead(line: string, name: string, version: string)
    ensures Classify(line) == Requirement(name, version) <==> RequirementForm(line, name, version)
  {
    if RequirementForm(line, name, version) {
      var gap :| gap != "" && Blank(gap) && line == name + "==" + version + gap + "\\";
      hide Classify, ValidName, ValidVersion, ReadRequirement;
      AlphabetsAgree(name);
      AlphabetsAgree(version);
      RequirementRead(line, name, version, gap);
    }
    if Classify(line) == Requirement(name, version) {
      hide ReadRequirement, ReadHash, RequirementForm;
      RequirementHasForm(line);
    }
  }

  lemma HashRead(line: string, digest: string, indent: string, tail: string)
    requires ValidDigest(digest) && indent != "" && Blank(indent) && (tail == "" || Continues(tail))
    requires line == indent + HASH_PREFIX + digest + tail
    ensures Classify(line) == Hash(digest)
  {
    hide LeadingSpaces, ReadRequirement, Blank, Continues;
    var rest := HASH_PREFIX + digest + tail;
    assert line == indent + rest && rest[0] == '-';
    IndentSkipped(indent, rest);
    NotARequirement(line);
    assert rest[14..78] == digest && rest[78..] == tail && HASH_PREFIX == rest[..14];
    assert line[0] == indent[0] && IsSpace(indent[0]) by {
      FirstIsSpace(indent);
    }
    assert ONLY_BINARY[0] == '-';
  }

  lemma FirstIsSpace(indent: string)
    requires indent != "" && Blank(indent)
    ensures IsSpace(indent[0])
  {
  }

  lemma IndentSkipped(indent: string, rest: string)
    requires Blank(indent) && rest != "" && !IsSpace(rest[0])
    ensures LeadingSpaces(indent + rest) == |indent| && (indent + rest)[|indent|..] == rest
  {
    hide LeadingSpaces;
    var line := indent + rest;
    assert line[|indent|] == rest[0] && forall i :: 0 <= i < |indent| ==> line[i] == indent[i];
  }

  lemma HashHasForm(line: string)
    requires ReadHash(line).Some?
    ensures HashForm(line, ReadHash(line).value)
  {
    hide LeadingSpaces, ValidDigest, HexDigest, Continues;
    var n := LeadingSpaces(line);
    var rest, digest := line[n..], ReadHash(line).value;
    AlphabetsAgree(digest);
    TailsAgree(rest[78..]);
    assert rest == HASH_PREFIX + digest + rest[78..];
    assert HashParts(line, digest, line[..n], rest[78..]);
  }

  lemma HashFormRead(line: string, digest: string)
    ensures Classify(line) == Hash(digest) <==> HashForm(line, digest)
  {
    if HashForm(line, digest) {
      var indent, tail :| HashParts(line, digest, indent, tail);
      hide Classify, ValidDigest, Continues;
      AlphabetsAgree(digest);
      TailsAgree(tail);
      HashRead(line, digest, indent, tail);
    }
    if Classify(line) == Hash(digest) {
      hide ReadRequirement, ReadHash, HashForm;
      HashHasForm(line);
    }
  }

  /** A line skipped is one of the three, and a line that is nothing else refuses the file. */
  lemma SkippedFormRead(line: string)
    ensures Classify(line).Skipped? <==> SkippedForm(line)
    ensures Classify(line).Unrecognised? <==>
              !SkippedForm(line) && !RequirementLineForm(line) && !HashLineForm(line)
  {
    hide ReadRequirement, ReadHash, RequirementForm, HashForm;
    forall name, version ensures Classify(line) == Requirement(name, version)
        <==> RequirementForm(line, name, version) {
      RequirementFormRead(line, name, version);
    }
    forall digest ensures Classify(line) == Hash(digest) <==> HashForm(line, digest) {
      HashFormRead(line, digest);
    }
  }

  // -------------------------------------------------------------------------------- the blocks

  datatype Block = Block(name: string, version: string, hashes: seq<string>)

  function Absorb(blocks: Option<seq<Block>>, line: string): Option<seq<Block>> {
    if blocks == None then None
    else
      match Classify(line)
      case Skipped => blocks
      case Requirement(name, version) => Some(blocks.value + [Block(name, version, [])])
      case Hash(digest) => if blocks.value == [] then None else Some(WithHash(blocks.value, digest))
      case Unrecognised => None
  }

  function WithHash(blocks: seq<Block>, digest: string): seq<Block>
    requires blocks != []
  {
    var last := blocks[|blocks| - 1];
    blocks[|blocks| - 1 := last.(hashes := last.hashes + [digest])]
  }

  /** The requirement blocks of a file in order, when each line has a place. */
  function GroupFrom(blocks: Option<seq<Block>>, lines: seq<string>): Option<seq<Block>>
    decreases |lines|
  {
    if lines == [] then blocks else GroupFrom(Absorb(blocks, lines[0]), lines[1..])
  }

  function Group(lines: seq<string>): Option<seq<Block>> {
    GroupFrom(Some([]), lines)
  }

  ghost predicate UniqueNames(blocks: seq<Block>) {
    forall i, j :: 0 <= i < j < |blocks| ==> blocks[i].name != blocks[j].name
  }

  /** Every block has hashes and no hash twice, and no package has two blocks. */
  ghost predicate Hashed(blocks: seq<Block>) {
    (forall b :: b in blocks ==> b.hashes != [] && Distinct(b.hashes)) && UniqueNames(blocks)
  }

  datatype Pin = Pin(version: string, hashes: set<string>)

  function PinOf(b: Block): Pin {
    Pin(b.version, set h | h in b.hashes)
  }

  function PinsOf(blocks: seq<Block>): map<string, Pin> {
    if blocks == [] then map[]
    else
      var last := blocks[|blocks| - 1];
      PinsOf(blocks[..|blocks| - 1])[last.name := PinOf(last)]
  }

  /** What the file as a whole must pin. */
  predicate Complete(pins: map<string, Pin>) {
    "greenlet" in pins && pins["greenlet"].version == "3.5.4" && |pins| == 31
  }

  ghost predicate Accepted(lines: seq<string>) {
    && ONLY_BINARY in lines
    && Group(lines).Some? && Group(lines).value != [] && Hashed(Group(lines).value)
    && Complete(PinsOf(Group(lines).value))
  }

  /** A line is skipped, begins a block, or is a hash with a block before it. */
  ghost predicate Placed(lines: seq<string>, i: nat)
    requires i < |lines|
  {
    || SkippedForm(lines[i]) || RequirementLineForm(lines[i])
    || (HashLineForm(lines[i]) && exists j :: 0 <= j < i && RequirementLineForm(lines[j]))
  }

  lemma GroupLast(lines: seq<string>)
    requires lines != []
    ensures Group(lines) == Absorb(Group(lines[..|lines| - 1]), lines[|lines| - 1])
  {
    hide Absorb;
    var front, last := lines[..|lines| - 1], lines[|lines| - 1];
    GroupSplit(Some([]), front, [last]);
    assert lines == front + [last] && [last][1..] == [];
    FailureSticks([last]);
  }

  lemma AbsorbedExactly(blocks: seq<Block>, line: string)
    ensures Absorb(Some(blocks), line).Some? <==>
              SkippedForm(line) || RequirementLineForm(line) || (HashLineForm(line) && blocks != [])
    ensures Absorb(Some(blocks), line).Some? ==>
              (Absorb(Some(blocks), line).value == [] <==> blocks == [] && !RequirementLineForm(line))
  {
    hide Classify, RequirementForm, HashForm, SkippedForm;
    SkippedFormRead(line);
    match Classify(line)
    case Requirement(name, version) => RequirementFormRead(line, name, version);
    case Hash(digest) =>
      HashFormRead(line, digest);
      forall name, version ensures !RequirementForm(line, name, version) {
        RequirementFormRead(line, name, version);
      }
    case _ =>
      forall name, version ensures !RequirementForm(line, name, version) {
        RequirementFormRead(line, name, version);
      }
  }

  ghost predicate AllPlaced(lines: seq<string>) {
    forall i :: 0 <= i < |lines| ==> Placed(lines, i)
  }

  ghost predicate NoneRequires(lines: seq<string>) {
    forall i :: 0 <= i < |lines| ==> !RequirementLineForm(lines[i])
  }

  /** The lines form blocks exactly when each has a place; there is no block exactly without a requirement. */
  lemma {:induction false} GroupedExactly(lines: seq<string>)
    ensures Group(lines).Some? <==> AllPlaced(lines)
    ensures Group(lines).Some? ==> (Group(lines).value == [] <==> NoneRequires(lines))
    decreases |lines|
  {
    if lines != [] {
      hide Absorb, GroupFrom, SkippedForm, RequirementLineForm, HashLineForm, Group, AllPlaced, NoneRequires;
      var front, last := lines[..|lines| - 1], lines[|lines| - 1];
      GroupedExactly(front);
      GroupLast(lines);
      LastPlaced(lines);
      if Group(front).Some? {
        AbsorbedExactly(Group(front).value, last);
      } else {
        NothingAbsorbed(last);
      }
    }
  }

  lemma LastPlaced(lines: seq<string>)
    requires lines != []
    ensures var front, last := lines[..|lines| - 1], lines[|lines| - 1];
            && (NoneRequires(lines) <==> NoneRequires(front) && !RequirementLineForm(last))
            && (AllPlaced(lines) <==>
                  && AllPlaced(front)
                  && (SkippedForm(last) || RequirementLineForm(last) || (HashLineForm(last) && !NoneRequires(front))))
  {
    var front, n := lines[..|lines| - 1], |lines| - 1;
    hide SkippedForm, RequirementLineForm, HashLineForm;
    assert forall i :: 0 <= i < n ==> front[i] == lines[i];
    forall i | 0 <= i < n ensures Placed(lines, i) <==> Placed(front, i) {
    }
    assert Placed(lines, n)
      <==> SkippedForm(lines[n]) || RequirementLineForm(lines[n]) || (HashLineForm(lines[n]) && !NoneRequires(front));
    hide Placed;
    if AllPlaced(lines) {
      forall i | 0 <= i < n ensures Placed(front, i) {
        assert Placed(lines, i);
      }
    }
  }

  lemma NothingAbsorbed(line: string)
    ensures Absorb(None, line) == None
  {
  }

  /** Comments, empty lines and the option change nothing, wherever they stand. */
  lemma SkippedChangesNothing(before: seq<string>, line: string, after: seq<string>)
    requires SkippedForm(line)
    ensures Group(before + [line] + after) == Group(before + after)
  {
    hide Classify, SkippedForm;
    SkippedFormRead(line);
    GroupSplit(Some([]), before + [line], after);
    GroupSplit(Some([]), before, [line]);
    GroupSplit(Some([]), before, after);
    assert [line][1..] == [];
    FailureSticks([line]);
  }

  // --------------------------------------------------------------------------------- the reader

  datatype Refusal = NotWheelsOnly | NoHash | DuplicatePackage | DuplicateHash | UnrecognisedLine | EndsWithoutHash
                   | GreenletUnpinned | ClosureDiffers

  /** The blocks read so far can no longer become hashed ones. */
  ghost predicate Spoilt(blocks: seq<Block>) {
    || (exists i :: 0 <= i < |blocks| - 1 && blocks[i].hashes == [])
    || (exists i :: 0 <= i < |blocks| && !Distinct(blocks[i].hashes))
    || !UniqueNames(blocks)
  }

  ghost predicate Continued(before: seq<Block>, after: seq<Block>) {
    && |before| <= |after|
    && forall i :: 0 <= i < |before| ==>
         && after[i].name == before[i].name && before[i].hashes <= after[i].hashes
         && (i < |before| - 1 ==> after[i] == before[i])
  }

  lemma AbsorbContinues(blocks: seq<Block>, line: string)
    ensures var next := Absorb(Some(blocks), line);
            next.Some? ==> Continued(blocks, next.value)
  {
    hide Classify;
  }

  lemma ContinuedThrough(a: seq<Block>, b: seq<Block>, c: seq<Block>)
    requires Continued(a, b) && Continued(b, c)
    ensures Continued(a, c)
  {
  }

  lemma {:induction false} GroupContinues(blocks: seq<Block>, lines: seq<string>)
    ensures var after := GroupFrom(Some(blocks), lines);
            after.Some? ==> Continued(blocks, after.value)
    decreases |lines|
  {
    if lines != [] {
      AbsorbContinues(blocks, lines[0]);
      hide Absorb, Continued;
      var next := Absorb(Some(blocks), lines[0]);
      if next.Some? {
        GroupContinues(next.value, lines[1..]);
        var after := GroupFrom(next, lines[1..]);
        if after.Some? {
          ContinuedThrough(blocks, next.value, after.value);
        }
      } else {
        FailureSticks(lines[1..]);
      }
    }
  }

  lemma {:induction false} FailureSticks(lines: seq<string>)
    ensures GroupFrom(None, lines) == None
    decreases |lines|
  {
    if lines != [] {
      FailureSticks(lines[1..]);
    }
  }

  /** A spoilt beginning refuses the whole file. */
  lemma SpoiltForGood(blocks: seq<Block>, lines: seq<string>)
    requires Spoilt(blocks)
    ensures var after := GroupFrom(Some(blocks), lines);
            after == None || !Hashed(after.value)
  {
    var after := GroupFrom(Some(blocks), lines);
    GroupContinues(blocks, lines);
    if after.Some? {
      if i :| 0 <= i < |blocks| - 1 && blocks[i].hashes == [] {
        assert after.value[i] in after.value;
      } else if i :| 0 <= i < |blocks| && !Distinct(blocks[i].hashes) {
        var j, k :| 0 <= j < k < |blocks[i].hashes| && blocks[i].hashes[j] == blocks[i].hashes[k];
        assert after.value[i].hashes[j] == after.value[i].hashes[k];
        assert after.value[i] in after.value;
      } else {
        var j, k :| 0 <= j < k < |blocks| && blocks[j].name == blocks[k].name;
        assert after.value[j].name == after.value[k].name;
      }
    }
  }

  /** The reader's variables, against the blocks read so far. */
  ghost predicate Tracks(pins: map<string, Pin>, current: Option<string>, version: string, hashes: set<string>,
                         blocks: seq<Block>)
  {
    && !Spoilt(blocks)
    && if blocks == [] then current == None && pins == map[]
       else
         var last := blocks[|blocks| - 1];
         && current == Some(last.name) && Pin(version, hashes) == PinOf(last)
         && pins == PinsOf(blocks[..|blocks| - 1])
  }

  lemma {:induction false} PinnedNames(blocks: seq<Block>, name: string)
    ensures name in PinsOf(blocks) <==> exists i :: 0 <= i < |blocks| && blocks[i].name == name
  {
    if blocks != [] {
      var earlier := blocks[..|blocks| - 1];
      PinnedNames(earlier, name);
      if i :| 0 <= i < |blocks| && blocks[i].name == name && i < |earlier| {
        assert earlier[i].name == name;
      }
    }
  }

  lemma NewBlock(blocks: seq<Block>, name: string, version: string)
    requires !Spoilt(blocks)
    ensures Spoilt(blocks + [Block(name, version, [])])
       <==> || (blocks != [] && blocks[|blocks| - 1].hashes == [])
            || (exists i :: 0 <= i < |blocks| && blocks[i].name == name)
  {
    var longer := blocks + [Block(name, version, [])];
    if blocks != [] && blocks[|blocks| - 1].hashes == [] {
      assert longer[|blocks| - 1].hashes == [];
    }
    if i :| 0 <= i < |blocks| && blocks[i].name == name {
      assert longer[i].name == longer[|blocks|].name;
    }
  }

  lemma NewHash(blocks: seq<Block>, digest: string)
    requires blocks != [] && !Spoilt(blocks)
    ensures Spoilt(WithHash(blocks, digest)) <==> digest in blocks[|blocks| - 1].hashes
    ensures PinOf(WithHash(blocks, digest)[|blocks| - 1])
         == Pin(blocks[|blocks| - 1].version, PinOf(blocks[|blocks| - 1]).hashes + {digest})
  {
    var n := |blocks| - 1;
    var old_, new_ := blocks[n].hashes, WithHash(blocks, digest)[n].hashes;
    assert new_[|old_|] == digest && forall i :: 0 <= i < |old_| ==> new_[i] == old_[i];
    if digest in old_ {
      var i :| 0 <= i < |old_| && old_[i] == digest;
      assert new_[i] == new_[|old_|];
    }
  }

  method AddLine(line: string, pins: map<string, Pin>, current: Option<string>, version: string, hashes: set<string>,
                 ghost blocks: seq<Block>)
    returns (refusal: Option<Refusal>, pins': map<string, Pin>, current': Option<string>, version': string,
             hashes': set<string>, ghost blocks': seq<Block>)
    requires Tracks(pins, current, version, hashes, blocks)
    ensures refusal == None ==>
              Absorb(Some(blocks), line) == Some(blocks') && Tracks(pins', current', version', hashes', blocks')
    ensures refusal.Some? ==> Absorb(Some(blocks), line) == None || Spoilt(Absorb(Some(blocks), line).value)
    ensures refusal != Some(NotWheelsOnly)
  {
    hide Classify, Distinct, UniqueNames, PinsOf, Spoilt;
    refusal, pins', current', version', hashes', blocks' := None, pins, current, version, hashes, blocks;
    match Classify(line)
    case Skipped =>
    case Unrecognised => refusal := Some(UnrecognisedLine);
    case Requirement(name, newVersion) =>
      NewBlock(blocks, name, newVersion);
      if current.Some? {
        if hashes == {} {
          NoHashes(blocks[|blocks| - 1]);
          refusal := Some(NoHash);
          return;
        }
        NoHashes(blocks[|blocks| - 1]);
        pins' := pins[current.value := Pin(version, hashes)];
        PinsStep(blocks);
      }
      PinnedNames(blocks, name);
      NoPins(blocks);
      if name in pins' || Some(name) == current {
        refusal := Some(DuplicatePackage);
        return;
      }
      current', version', hashes' := Some(name), newVersion, {};
      blocks' := blocks + [Block(name, newVersion, [])];
      assert blocks'[..|blocks|] == blocks;
    case Hash(digest) =>
      if current == None {
        refusal := Some(UnrecognisedLine);
        return;
      }
      NewHash(blocks, digest);
      if digest in hashes {
        refusal := Some(DuplicateHash);
        return;
      }
      hashes' := hashes + {digest};
      blocks' := WithHash(blocks, digest);
      assert blocks'[..|blocks| - 1] == blocks[..|blocks| - 1];
  }

  lemma NoHashes(b: Block)
    ensures PinOf(b).hashes == {} <==> b.hashes == []
  {
    if b.hashes != [] {
      assert b.hashes[0] in PinOf(b).hashes;
    }
  }

  lemma PinsStep(blocks: seq<Block>)
    requires blocks != []
    ensures PinsOf(blocks) == PinsOf(blocks[..|blocks| - 1])[blocks[|blocks| - 1].name := PinOf(blocks[|blocks| - 1])]
  {
  }

  lemma NoPins(blocks: seq<Block>)
    ensures blocks == [] ==> PinsOf(blocks) == map[]
    ensures blocks != [] ==> exists i :: 0 <= i < |blocks| && blocks[i].name == blocks[|blocks| - 1].name
  {
    if blocks != [] {
      assert blocks[|blocks| - 1].name == blocks[|blocks| - 1].name;
    }
  }

  method ReadPublicLock(text: string) returns (r: Result<map<string, Pin>, Refusal>)
    ensures r.Ok? <==> Accepted(SplitLines(text))
    ensures r.Ok? ==> r.value == PinsOf(Group(SplitLines(text)).value)
    ensures r == Err(NotWheelsOnly) <==> "--only-binary=:all:" !in SplitLines(text)
    ensures r.Ok? ==> AllPlaced(SplitLines(text))
    ensures r.Ok? ==>
              && |r.value| == 31 && "greenlet" in r.value && r.value["greenlet"].version == "3.5.4"
              && forall name :: name in r.value ==>
                   && PackageName(name) && VersionText(r.value[name].version) && r.value[name].hashes != {}
                   && forall h :: h in r.value[name].hashes ==> HexDigest(h)
  {
    hide Absorb, GroupFrom, Distinct, UniqueNames, PinsOf, Spoilt, Hashed, SplitLines;
    hide Placed, PackageName, VersionText, HexDigest;
    var lines := SplitLines(text);
    if ONLY_BINARY !in lines {
      return Err(NotWheelsOnly);
    }
    var pins: map<string, Pin> := map[];
    var current: Option<string>, version, hashes: set<string> := None, "", {};
    ghost var blocks: seq<Block> := [];
    NothingSpoilt();
    for k := 0 to |lines|
      invariant Group(lines) == GroupFrom(Some(blocks), lines[k..])
      invariant Tracks(pins, current, version, hashes, blocks)
    {
      var refusal;
      ghost var before := blocks;
      GroupStep(blocks, lines[k..]);
      assert lines[k..][1..] == lines[k + 1..];
      refusal, pins, current, version, hashes, blocks := AddLine(lines[k], pins, current, version, hashes, blocks);
      if refusal.Some? {
        FailureSticks(lines[k + 1..]);
        if Absorb(Some(before), lines[k]).Some? {
          SpoiltForGood(Absorb(Some(before), lines[k]).value, lines[k + 1..]);
        }
        return Err(refusal.value);
      }
    }
    GroupDone(blocks, lines[|lines|..]);
    if current == None {
      return Err(EndsWithoutHash);
    }
    NoHashes(blocks[|blocks| - 1]);
    UnspoiltIsHashed(blocks);
    if hashes == {} {
      return Err(EndsWithoutHash);
    }
    pins := pins[current.value := Pin(version, hashes)];
    PinsStep(blocks);
    if "greenlet" !in pins || pins["greenlet"].version != "3.5.4" {
      return Err(GreenletUnpinned);
    }
    if |pins| != 31 {
      return Err(ClosureDiffers);
    }
    GroupedExactly(lines);
    AcceptedPins(lines);
    r := Ok(pins);
  }

  /** What an accepted file pins, in terms of characters. */
  lemma AcceptedPins(lines: seq<string>)
    requires Group(lines).Some? && Hashed(Group(lines).value)
    ensures var pins := PinsOf(Group(lines).value);
            forall name :: name in pins ==>
              && PackageName(name) && VersionText(pins[name].version) && pins[name].hashes != {}
              && forall h :: h in pins[name].hashes ==> HexDigest(h)
  {
    hide GroupFrom, PinsOf, ValidName, ValidVersion, ValidDigest, PackageName, VersionText, HexDigest, Distinct,
        UniqueNames;
    var blocks := Group(lines).value;
    NothingPrintable();
    GroupIsPrintable([], lines);
    OnePinPerBlock(blocks);
    forall name | name in PinsOf(blocks)
      ensures && PackageName(name) && VersionText(PinsOf(blocks)[name].version) && PinsOf(blocks)[name].hashes != {}
              && forall h :: h in PinsOf(blocks)[name].hashes ==> HexDigest(h)
    {
      var b :| b in blocks && b.name == name;
      NoHashes(b);
      AlphabetsAgree(name);
      AlphabetsAgree(b.version);
      forall h | h in PinOf(b).hashes ensures HexDigest(h) {
        AlphabetsAgree(h);
      }
    }
  }

  lemma NothingSpoilt()
    ensures Tracks(map[], None, "", {}, [])
  {
  }

  lemma GroupStep(blocks: seq<Block>, lines: seq<string>)
    requires lines != []
    ensures GroupFrom(Some(blocks), lines) == GroupFrom(Absorb(Some(blocks), lines[0]), lines[1..])
  {
  }

  lemma GroupDone(blocks: seq<Block>, lines: seq<string>)
    requires lines == []
    ensures GroupFrom(Some(blocks), lines) == Some(blocks)
  {
  }

  lemma UnspoiltIsHashed(blocks: seq<Block>)
    requires blocks != [] && !Spoilt(blocks)
    ensures Hashed(blocks) <==> blocks[|blocks| - 1].hashes != []
  {
    assert blocks[|blocks| - 1] in blocks;
  }

  // ---------------------------------------------------------------------------------- printing

  predicate PrintableBlock(b: Block) {
    && ValidName(b.name) && ValidVersion(b.version)
    && forall j :: 0 <= j < |b.hashes| ==> ValidDigest(b.hashes[j])
  }

  predicate Printable(blocks: seq<Block>) {
    forall i :: 0 <= i < |blocks| ==> PrintableBlock(blocks[i])
  }

  function RequirementLine(name: string, version: string): string {
    name + "==" + version + " \\"
  }

  function HashLine(digest: string, last: bool): string {
    "    " + HASH_PREFIX + digest + if last then "" else " \\"
  }

  function PrintHashes(hashes: seq<string>): seq<string> {
    seq(|hashes|, i requires 0 <= i < |hashes| => HashLine(hashes[i], i == |hashes| - 1))
  }

  function PrintBlock(b: Block): seq<string> {
    [RequirementLine(b.name, b.version)] + PrintHashes(b.hashes)
  }

  function PrintBlocks(blocks: seq<Block>): seq<string> {
    if blocks == [] then [] else PrintBlocks(blocks[..|blocks| - 1]) + PrintBlock(blocks[|blocks| - 1])
  }

  function Print(blocks: seq<Block>): seq<string> {
    [ONLY_BINARY] + PrintBlocks(blocks)
  }

  lemma NameBeforeEquals(name: string, rest: string)
    requires ValidName(name)
    ensures var line := name + "==" + rest;
            Find(line, '=') == |name| && line[..|name|] == name && line[|name| + 2..] == rest
            && line[|name| + 1] == '=' && line[0] != '#'
  {
    hide Find;
    var line := name + "==" + rest;
    assert line[|name|] == '=' && line[0] == name[0];
    assert forall k :: 0 <= k < |name| ==> line[k] == name[k];
  }

  lemma PrintedRequirement(name: string, version: string)
    requires ValidName(name) && ValidVersion(version)
    ensures Classify(RequirementLine(name, version)) == Requirement(name, version)
  {
    hide Classify, ValidName, ValidVersion;
    assert " \\" == " " + "\\";
    assert RequirementLine(name, version) == name + "==" + version + " " + "\\";
    RequirementRead(RequirementLine(name, version), name, version, " ");
  }

  lemma NotARequirement(line: string)
    requires line != "" && IsSpace(line[0])
    ensures ReadRequirement(line) == None
  {
    var equals := Find(line, '=');
    assert equals > 0 ==> line[..equals][0] == line[0];
  }

  lemma PrintedHash(digest: string, last: bool)
    requires ValidDigest(digest)
    ensures Classify(HashLine(digest, last)) == Hash(digest)
  {
    hide Classify, ValidDigest;
    assert Continues(" \\") by { assert " \\"[..1] == " "; }
    HashRead(HashLine(digest, last), digest, "    ", if last then "" else " \\");
  }

  lemma {:induction false} GroupSplit(blocks: Option<seq<Block>>, first: seq<string>, second: seq<string>)
    ensures GroupFrom(blocks, first + second) == GroupFrom(GroupFrom(blocks, first), second)
    decreases |first|
  {
    if first == [] {
      assert first + second == second;
    } else {
      GroupSplit(Absorb(blocks, first[0]), first[1..], second);
      assert (first + second)[1..] == first[1..] + second;
    }
  }

  /** Reading printed hash lines adds the hashes to the last block, in order. */
  lemma {:induction false} GroupHashes(blocks: seq<Block>, last: Block, hashes: seq<string>, lines: seq<string>)
    requires |lines| == |hashes|
    requires forall i :: 0 <= i < |hashes| ==> Classify(lines[i]) == Hash(hashes[i])
    ensures GroupFrom(Some(blocks + [last]), lines) == Some(blocks + [last.(hashes := last.hashes + hashes)])
    decreases |lines|
  {
    hide Classify;
    if lines == [] {
      assert last.hashes + hashes == last.hashes;
    } else {
      var longer := last.(hashes := last.hashes + [hashes[0]]);
      assert WithHash(blocks + [last], hashes[0]) == blocks + [longer];
      GroupHashes(blocks, longer, hashes[1..], lines[1..]);
      assert last.hashes + hashes == last.hashes + [hashes[0]] + hashes[1..];
    }
  }

  lemma GroupBlock(blocks: seq<Block>, b: Block)
    requires PrintableBlock(b)
    ensures GroupFrom(Some(blocks), PrintBlock(b)) == Some(blocks + [b])
  {
    PrintedRequirement(b.name, b.version);
    var lines := PrintHashes(b.hashes);
    forall i | 0 <= i < |b.hashes| ensures Classify(lines[i]) == Hash(b.hashes[i]) {
      PrintedHash(b.hashes[i], i == |b.hashes| - 1);
    }
    hide Classify, RequirementLine, PrintHashes;
    var begun := Block(b.name, b.version, []);
    GroupHashes(blocks, begun, b.hashes, lines);
    assert [] + b.hashes == b.hashes;
    assert ([RequirementLine(b.name, b.version)] + lines)[1..] == lines;
  }

  lemma LastBlock(blocks: seq<Block>)
    requires blocks != [] && Printable(blocks)
    ensures Printable(blocks[..|blocks| - 1]) && PrintableBlock(blocks[|blocks| - 1])
    ensures blocks[..|blocks| - 1] + [blocks[|blocks| - 1]] == blocks
  {
    hide PrintableBlock;
  }

  lemma {:induction false} GroupPrinted(blocks: seq<Block>)
    requires Printable(blocks)
    ensures GroupFrom(Some([]), PrintBlocks(blocks)) == Some(blocks)
  {
    if blocks != [] {
      hide GroupFrom, Printable, PrintableBlock, PrintBlock;
      var earlier, last := blocks[..|blocks| - 1], blocks[|blocks| - 1];
      assert PrintBlocks(blocks) == PrintBlocks(earlier) + PrintBlock(last);
      LastBlock(blocks);
      hide PrintBlocks;
      GroupPrinted(earlier);
      GroupBlock(earlier, last);
      GroupSplit(Some([]), PrintBlocks(earlier), PrintBlock(last));
    }
  }

  /** Reading inverts printing, block by block. */
  lemma PrintedReadsBack(blocks: seq<Block>)
    requires Printable(blocks)
    ensures Group(Print(blocks)) == Some(blocks)
  {
    GroupPrinted(blocks);
    assert Print(blocks)[1..] == PrintBlocks(blocks);
    assert Classify(ONLY_BINARY) == Skipped;
  }

  lemma ClassifiedIsValid(line: string)
    ensures match Classify(line)
            case Requirement(name, version) => ValidName(name) && ValidVersion(version)
            case Hash(digest) => ValidDigest(digest)
            case _ => true
  {
  }

  lemma {:induction false} GroupIsPrintable(blocks: seq<Block>, lines: seq<string>)
    requires Printable(blocks)
    ensures var after := GroupFrom(Some(blocks), lines);
            after.Some? ==> Printable(after.value)
    decreases |lines|
  {
    if lines != [] {
      ClassifiedIsValid(lines[0]);
      hide Classify, ValidName, ValidVersion, ValidDigest;
      var next := Absorb(Some(blocks), lines[0]);
      if next.Some? {
        GroupIsPrintable(next.value, lines[1..]);
      } else {
        FailureSticks(lines[1..]);
      }
    }
  }

  /** Printing the blocks of any accepted file gives an accepted file with the same blocks and pins. */
  lemma AcceptedReprints(lines: seq<string>)
    requires Accepted(lines)
    ensures var printed := Print(Group(lines).value);
            Accepted(printed) && Group(printed) == Group(lines)
  {
    hide GroupFrom, PinsOf, Hashed, Printable;
    NothingPrintable();
    GroupIsPrintable([], lines);
    PrintedReadsBack(Group(lines).value);
    assert Print(Group(lines).value)[0] == ONLY_BINARY;
  }

  lemma NothingPrintable()
    ensures Printable([])
  {
  }

  /** In an accepted file each block is one pin, with its version and all its hashes; there are no others. */
  lemma {:induction false} OnePinPerBlock(blocks: seq<Block>)
    requires UniqueNames(blocks)
    ensures |PinsOf(blocks)| == |blocks|
    ensures forall b :: b in blocks ==> b.name in PinsOf(blocks) && PinsOf(blocks)[b.name] == PinOf(b)
    ensures forall name :: name in PinsOf(blocks) ==> exists b :: b in blocks && b.name == name
  {
    if blocks != [] {
      var earlier, last := blocks[..|blocks| - 1], blocks[|blocks| - 1];
      OnePinPerBlock(earlier);
      PinnedNames(earlier, last.name);
      assert last.name !in PinsOf(earlier);
      assert PinsOf(blocks).Keys == PinsOf(earlier).Keys + {last.name};
      forall b | b in blocks ensures b.name in PinsOf(blocks) && PinsOf(blocks)[b.name] == PinOf(b) {
        assert b in earlier || b == last;
      }
      forall name | name in PinsOf(blocks) ensures exists b :: b in blocks && b.name == name {
        if name != last.name {
          var b :| b in earlier && b.name == name;
          assert b in blocks;
        } else {
          assert last in blocks;
        }
      }
    }
  }

  // ------------------------------------------------------------------------------- pin maps

  /** What a lock may hold: 31 packages, greenlet at its version, and wheel hashes for each. */
  ghost predicate ValidPins(pins: map<string, Pin>) {
    Complete(pins) && PinsPrintable(pins)
  }

  ghost predicate PinsPrintable(pins: map<string, Pin>) {
    forall name :: name in pins ==>
      && ValidName(name) && ValidVersion(pins[name].version) && pins[name].hashes != {}
      && forall h :: h in pins[name].hashes ==> ValidDigest(h)
  }

  lemma DistinctCons(h: string, rest: seq<string>)
    requires Distinct(rest) && h !in rest
    ensures Distinct([h] + rest)
    ensures (set x | x in [h] + rest) == {h} + (set x | x in rest)
  {
    assert forall x :: x in [h] + rest <==> x == h || x in rest;
  }

  lemma {:induction false} Listed(hashes: set<string>) returns (list: seq<string>)
    ensures Distinct(list) && (set h | h in list) == hashes
  {
    list := [];
    if hashes != {} {
      hide Distinct;
      var h :| h in hashes;
      var rest := Listed(hashes - {h});
      assert h !in rest by {
        assert h !in (set x | x in rest);
      }
      DistinctCons(h, rest);
      list := [h] + rest;
    }
  }

  /** One more block, for a name not pinned yet. */
  lemma OneMoreBlock(earlier: seq<Block>, last: Block)
    requires Hashed(earlier) && Printable(earlier) && PrintableBlock(last)
    requires last.name !in PinsOf(earlier) && last.hashes != [] && Distinct(last.hashes)
    ensures var blocks := earlier + [last];
            Hashed(blocks) && Printable(blocks) && PinsOf(blocks) == PinsOf(earlier)[last.name := PinOf(last)]
  {
    hide PrintableBlock, Distinct, PinsOf, PinOf;
    var blocks := earlier + [last];
    PinnedNames(earlier, last.name);
    assert forall b :: b in blocks <==> b in earlier || b == last;
    assert UniqueNames(blocks);
    hide UniqueNames;
    assert blocks[..|blocks| - 1] == earlier && blocks[|blocks| - 1] == last;
    PinsStep(blocks);
  }

  lemma OnePinLess(pins: map<string, Pin>, name: string, list: seq<string>)
    requires PinsPrintable(pins) && name in pins && (set h | h in list) == pins[name].hashes
    ensures PinsPrintable(pins - {name}) && pins == (pins - {name})[name := pins[name]]
    ensures PrintableBlock(Block(name, pins[name].version, list)) && list != []
    ensures PinOf(Block(name, pins[name].version, list)) == pins[name]
  {
    hide ValidName, ValidVersion, ValidDigest;
    assert forall i :: 0 <= i < |list| ==> list[i] in (set h | h in list);
  }

  lemma {:induction false} BlocksFor(pins: map<string, Pin>) returns (blocks: seq<Block>)
    requires PinsPrintable(pins)
    ensures PinsOf(blocks) == pins && Hashed(blocks) && Printable(blocks)
    decreases |pins|
  {
    blocks := [];
    if pins != map[] {
      hide PinsPrintable, Printable, PrintableBlock, Distinct, Hashed, PinsOf, PinOf;
      var name :| name in pins;
      var list := Listed(pins[name].hashes);
      OnePinLess(pins, name, list);
      var earlier := BlocksFor(pins - {name});
      var last := Block(name, pins[name].version, list);
      OneMoreBlock(earlier, last);
      blocks := earlier + [last];
    }
  }

  lemma PrintedAreLines(b: Block)
    requires PrintableBlock(b)
    ensures forall i :: 0 <= i < |PrintBlock(b)| ==> OneLine(PrintBlock(b)[i])
  {
    hide OneLine, ValidName, ValidVersion, ValidDigest, RequirementLine, HashLine;
    RequirementIsOneLine(b.name, b.version);
    forall i | 0 <= i < |b.hashes| ensures OneLine(PrintHashes(b.hashes)[i]) {
      HashIsOneLine(b.hashes[i], i == |b.hashes| - 1);
    }
  }

  lemma OneLineConcat(a: string, b: string)
    requires OneLine(a) && OneLine(b)
    ensures OneLine(a + b)
  {
  }

  lemma RequirementIsOneLine(name: string, version: string)
    requires ValidName(name) && ValidVersion(version)
    ensures OneLine(RequirementLine(name, version))
  {
    assert OneLine(name) && OneLine("==") && OneLine(version) && OneLine(" \\");
    hide OneLine;
    OneLineConcat(name, "==");
    OneLineConcat(name + "==", version);
    OneLineConcat(name + "==" + version, " \\");
  }

  lemma HashIsOneLine(digest: string, last: bool)
    requires ValidDigest(digest)
    ensures OneLine(HashLine(digest, last))
  {
    var tail := if last then "" else " \\";
    assert OneLine("    ") && OneLine(HASH_PREFIX) && OneLine(digest) && OneLine(tail);
    hide OneLine;
    OneLineConcat("    ", HASH_PREFIX);
    OneLineConcat("    " + HASH_PREFIX, digest);
    OneLineConcat("    " + HASH_PREFIX + digest, tail);
  }

  lemma {:induction false} BlocksAreLines(blocks: seq<Block>)
    requires Printable(blocks)
    ensures forall i :: 0 <= i < |PrintBlocks(blocks)| ==> OneLine(PrintBlocks(blocks)[i])
  {
    if blocks != [] {
      hide OneLine, Printable, PrintBlock;
      LastBlock(blocks);
      BlocksAreLines(blocks[..|blocks| - 1]);
      PrintedAreLines(blocks[|blocks| - 1]);
    }
  }

  /** The same from the text of the file. */
  lemma PrintedTextReadsBack(blocks: seq<Block>)
    requires Printable(blocks)
    ensures SplitLines(JoinLines(Print(blocks))) == Print(blocks)
    ensures Group(SplitLines(JoinLines(Print(blocks)))) == Some(blocks)
  {
    hide SplitLines, JoinLines, GroupFrom, Printable, PrintBlocks;
    PrintedReadsBack(blocks);
    BlocksAreLines(blocks);
    assert OneLine(ONLY_BINARY);
    hide OneLine;
    SplitJoined(Print(blocks), "");
    NoLines();
    assert JoinLines(Print(blocks)) + "" == JoinLines(Print(blocks)) && Print(blocks) + [] == Print(blocks);
  }

  lemma NoLines()
    ensures SplitLines("") == []
  {
  }

  /** Every valid pin map can be printed so that reading the text gives it back. */
  lemma PinMapReadsBack(pins: map<string, Pin>)
    requires ValidPins(pins)
    ensures exists text :: Accepted(SplitLines(text)) && PinsOf(Group(SplitLines(text)).value) == pins
  {
    hide GroupFrom, PinsOf, Hashed, Printable, PinsPrintable, SplitLines, JoinLines;
    var blocks := BlocksFor(pins);
    PrintedTextReadsBack(blocks);
    NoPins(blocks);
    var text := JoinLines(Print(blocks));
    assert Print(blocks)[0] == ONLY_BINARY;
    assert Accepted(SplitLines(text)) && PinsOf(Group(SplitLines(text)).value) == pins;
  }
}
