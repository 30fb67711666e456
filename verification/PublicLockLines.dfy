// What an accepted hash lock says, line by line: each requirement line is one pin, holding exactly
// the digests of the hash lines up to the next requirement.
module PublicLockLines {
  import opened PublicLock
  import opened Sequences
  import opened Wrappers

  /** No requirement line stands strictly between the two places. */
  ghost predicate OneBlock(lines: seq<string>, i: nat, j: nat) {
    forall k :: i < k < j && k < |lines| ==> !RequirementLineForm(lines[k])
  }

  /** Some line strictly between the two places has this digest. */
  ghost predicate DigestWithin(lines: seq<string>, i: nat, j: nat, digest: string) {
    exists k :: i < k < j && k < |lines| && HashForm(lines[k], digest)
  }

  ghost predicate RepeatedWithin(lines: seq<string>, i: nat, j: nat) {
    exists k, l, digest ::
      i < k < l < j && l < |lines| && HashForm(lines[k], digest) && HashForm(lines[l], digest)
  }

  /** The block that a requirement line begins, as far as it has been read. */
  ghost predicate BlockSoFar(lines: seq<string>, i: nat, j: nat, name: string, version: string, b: Block) {
    && b.name == name && b.version == version
    && (forall digest :: digest in b.hashes <==> DigestWithin(lines, i, j, digest))
    && (RepeatedWithin(lines, i, j) ==> !Distinct(b.hashes))
  }

  lemma GroupTo(lines: seq<string>, j: nat)
    requires j < |lines|
    ensures Group(lines[..j + 1]) == Absorb(Group(lines[..j]), lines[j])
  {
    hide Absorb, GroupFrom;
    GroupLast(lines[..j + 1]);
    assert lines[..j + 1][..j] == lines[..j];
  }

  lemma GroupBefore(lines: seq<string>, j: nat)
    requires j <= |lines| && Group(lines).Some?
    ensures Group(lines[..j]).Some?
    ensures GroupFrom(Group(lines[..j]), lines[j..]) == Group(lines)
  {
    hide Absorb;
    assert lines == lines[..j] + lines[j..];
    GroupSplit(Some([]), lines[..j], lines[j..]);
    if Group(lines[..j]) == None {
      FailureSticks(lines[j..]);
    }
  }

  lemma BlockBegins(lines: seq<string>, i: nat, name: string, version: string)
    requires i < |lines| && Group(lines[..i]).Some? && RequirementForm(lines[i], name, version)
    ensures Group(lines[..i + 1]) == Some(Group(lines[..i]).value + [Block(name, version, [])])
    ensures BlockSoFar(lines, i, i + 1, name, version, Block(name, version, []))
  {
    hide Classify, RequirementForm, HashForm, GroupFrom;
    RequirementFormRead(lines[i], name, version);
    GroupTo(lines, i);
  }

  /** What one more line, not a requirement, does to the last block. */
  lemma BlockStep(lines: seq<string>, i: nat, j: nat, name: string, version: string, blocks: seq<Block>)
    requires i < j < |lines| && !RequirementLineForm(lines[j]) && blocks != []
    requires Absorb(Some(blocks), lines[j]).Some?
    requires BlockSoFar(lines, i, j, name, version, blocks[|blocks| - 1])
    ensures var next := Absorb(Some(blocks), lines[j]).value;
            |next| == |blocks| && BlockSoFar(lines, i, j + 1, name, version, next[|next| - 1])
  {
    hide Classify, RequirementForm, HashForm, SkippedForm, Distinct;
    SkippedFormRead(lines[j]);
    var last := blocks[|blocks| - 1];
    match Classify(lines[j])
    case Requirement(n, v) => RequirementFormRead(lines[j], n, v);
    case Hash(d) =>
      forall digest ensures HashForm(lines[j], digest) <==> digest == d {
        HashFormRead(lines[j], digest);
      }
      OneMoreDigest(lines, i, j, d, last.hashes);
    case Skipped =>
      forall digest ensures !HashForm(lines[j], digest) {
        HashFormRead(lines[j], digest);
      }
      NoMoreDigest(lines, i, j);
  }

  lemma NoMoreDigest(lines: seq<string>, i: nat, j: nat)
    requires i < j < |lines| && forall digest :: !HashForm(lines[j], digest)
    ensures forall digest :: DigestWithin(lines, i, j + 1, digest) <==> DigestWithin(lines, i, j, digest)
    ensures RepeatedWithin(lines, i, j + 1) <==> RepeatedWithin(lines, i, j)
  {
    hide HashForm;
  }

  lemma OneMoreDigest(lines: seq<string>, i: nat, j: nat, d: string, hashes: seq<string>)
    requires i < j < |lines| && forall digest :: HashForm(lines[j], digest) <==> digest == d
    requires forall digest :: digest in hashes <==> DigestWithin(lines, i, j, digest)
    requires RepeatedWithin(lines, i, j) ==> !Distinct(hashes)
    ensures forall digest :: digest in hashes + [d] <==> DigestWithin(lines, i, j + 1, digest)
    ensures RepeatedWithin(lines, i, j + 1) ==> !Distinct(hashes + [d])
  {
    hide HashForm;
    forall digest ensures digest in hashes + [d] <==> DigestWithin(lines, i, j + 1, digest) {
      if digest == d {
        assert HashForm(lines[j], d);
      } else {
        assert DigestWithin(lines, i, j + 1, digest) <==> DigestWithin(lines, i, j, digest);
      }
    }
    if RepeatedWithin(lines, i, j + 1) {
      if RepeatedWithin(lines, i, j) {
        StaysRepeated(hashes, d);
      } else {
        var k, l, digest :| i < k < l < j + 1 && HashForm(lines[k], digest) && HashForm(lines[l], digest);
        assert DigestWithin(lines, i, j, d);
        Repeats(hashes, d);
      }
    }
  }

  lemma StaysRepeated(hashes: seq<string>, d: string)
    requires !Distinct(hashes)
    ensures !Distinct(hashes + [d])
  {
    var a, b :| 0 <= a < b < |hashes| && hashes[a] == hashes[b];
    assert (hashes + [d])[a] == (hashes + [d])[b];
  }

  lemma Repeats(hashes: seq<string>, d: string)
    requires d in hashes
    ensures !Distinct(hashes + [d])
  {
    var a :| 0 <= a < |hashes| && hashes[a] == d;
    assert (hashes + [d])[a] == (hashes + [d])[|hashes|];
  }

  lemma {:induction false} BlockGrows(lines: seq<string>, i: nat, j: nat, name: string, version: string)
    requires i < j <= |lines| && Group(lines[..j]).Some? && RequirementForm(lines[i], name, version)
    requires OneBlock(lines, i, j)
    ensures Group(lines[..i]).Some?
    ensures var blocks := Group(lines[..j]).value;
            && |blocks| == |Group(lines[..i]).value| + 1
            && BlockSoFar(lines, i, j, name, version, blocks[|blocks| - 1])
    decreases j
  {
    hide RequirementForm, GroupFrom, BlockSoFar, RequirementLineForm, Absorb;
    if j == i + 1 {
      PrefixGroups(lines, i, j);
      BlockBegins(lines, i, name, version);
    } else {
      PrefixGroups(lines, j - 1, j);
      BlockGrows(lines, i, j - 1, name, version);
      GroupTo(lines, j - 1);
      BlockStep(lines, i, j - 1, name, version, Group(lines[..j - 1]).value);
    }
  }

  lemma PrefixGroups(lines: seq<string>, i: nat, j: nat)
    requires i <= j <= |lines| && Group(lines[..j]).Some?
    ensures Group(lines[..i]).Some?
  {
    GroupBefore(lines[..j], i);
    assert lines[..j][..i] == lines[..i];
  }

  /** Where a block ends: at the next requirement line or with the file. */
  ghost predicate EndsAt(lines: seq<string>, i: nat, j: nat) {
    i < j <= |lines| && OneBlock(lines, i, j) && (j == |lines| || RequirementLineForm(lines[j]))
  }

  /** The block that the requirement line at `i` begins, in the whole file. */
  lemma BlockOf(lines: seq<string>, i: nat, j: nat, name: string, version: string) returns (at: nat)
    requires Group(lines).Some? && EndsAt(lines, i, j) && RequirementForm(lines[i], name, version)
    ensures Group(lines[..i]).Some? && at == |Group(lines[..i]).value| && at < |Group(lines).value|
    ensures BlockSoFar(lines, i, j, name, version, Group(lines).value[at])
  {
    hide RequirementForm, GroupFrom, BlockSoFar, Absorb, Continued, OneBlock;
    GroupBefore(lines, j);
    BlockGrows(lines, i, j, name, version);
    at := |Group(lines[..i]).value|;
    if j == |lines| {
      assert lines[..j] == lines;
    } else {
      var n, v :| RequirementForm(lines[j], n, v);
      BlockBegins(lines, j, n, v);
      GroupBefore(lines, j + 1);
      GroupContinues(Group(lines[..j + 1]).value, lines[j + 1..]);
      KeptBefore(Group(lines[..j + 1]).value, Group(lines).value, at);
    }
  }

  lemma KeptBefore(before: seq<Block>, after: seq<Block>, at: nat)
    requires Continued(before, after) && at < |before| - 1
    ensures at < |after| && after[at] == before[at]
  {
  }

  /** Every requirement line is one pin: its version, and exactly the digests up to the next one. */
  lemma PinOfLine(lines: seq<string>, i: nat, j: nat, name: string, version: string)
    requires Accepted(lines) && EndsAt(lines, i, j) && RequirementForm(lines[i], name, version)
    ensures var pins := PinsOf(Group(lines).value);
            && name in pins && pins[name].version == version
            && (forall digest :: digest in pins[name].hashes <==> DigestWithin(lines, i, j, digest))
    ensures exists digest :: DigestWithin(lines, i, j, digest)
    ensures !RepeatedWithin(lines, i, j)
  {
    hide GroupFrom, PinsOf, Distinct, UniqueNames, Complete, EndsAt, DigestWithin, RepeatedWithin, RequirementForm;
    var blocks := Group(lines).value;
    var at := BlockOf(lines, i, j, name, version);
    assert blocks[at] in blocks;
    OnePinPerBlock(blocks);
    assert blocks[at].hashes[0] in blocks[at].hashes;
  }

  /** No package has two requirement lines. */
  lemma OneLineEach(lines: seq<string>, i: nat, j: nat, k: nat, l: nat, name: string, version: string, other: string)
    requires Group(lines).Some? && EndsAt(lines, i, j) && EndsAt(lines, k, l) && i < k
    requires RequirementForm(lines[i], name, version) && RequirementForm(lines[k], name, other)
    ensures !Accepted(lines)
  {
    hide GroupFrom, PinsOf, Distinct, Complete, OneBlock, DigestWithin, RepeatedWithin, RequirementForm, Absorb,
        Continued;
    var at := BlockOf(lines, i, j, name, version);
    var at' := BlockOf(lines, k, l, name, other);
    BlockBegins(lines, i, name, version);
    var first := Group(lines[..i + 1]).value;
    assert lines[..k] == lines[..i + 1] + lines[i + 1..k];
    GroupSplit(Some([]), lines[..i + 1], lines[i + 1..k]);
    GroupContinues(first, lines[i + 1..k]);
    LongerAfter(first, Group(lines[..k]).value);
    assert at < at' && Group(lines).value[at].name == Group(lines).value[at'].name;
  }

  lemma LongerAfter(before: seq<Block>, after: seq<Block>)
    requires Continued(before, after)
    ensures |before| <= |after|
  {
  }
}
