// Promoting a candidate descriptor: a receipt's measured heads license one new entry at the end of
// the ledger, and then the candidate's bytes replace the accepted file. The two writes are not
// atomic, and the process may stop before, during or between them.
module PromotionLedger {
  import opened Documents
  import opened PythonText
  import opened Wrappers

  type Bytes = seq<int>

  type Document = map<string, Value>

  /** SHA-256 and the parsers, which nothing here depends on beyond their being functions. */
  datatype Tools = Tools(digest: Bytes -> string, parse: Bytes -> Option<Document>, show: Value -> string)

  /** `licensed` holds what a promotion made here records; entries written by hand may lack it. */
  datatype Entry = Entry(descriptor: string, supersedes: string, licensed: Option<Licence>)

  datatype Licence = Licence(promotedAt: string, measured: multiset<string>, receipt: string,
                             sections: set<string>, carried: map<(string, string), Option<Value>>)

  datatype Request = Request(promotedAt: string, candidate: Option<Bytes>, receipt: Option<Bytes>, carryWhy: string)

  datatype Refusal =
    | BadDate | MissingFile | Unreadable | LedgerEmpty | ChainBroken | AlreadyAccepted | AlreadyPromoted
    | NoMeasuredHeads | NoDeclaredHeads | HeadsMismatch | NothingChanged | CarryReasonMissing

  // -------------------------------------------------------------------------------- the heads

  /** `raw.split(",")` */
  function Split(raw: string): seq<string>
    decreases |raw|
  {
    var comma := Find(raw, ',');
    if comma == |raw| then [raw] else [raw[..comma]] + Split(raw[comma + 1..])
  }

  /** The non-empty parts, stripped; a sorted tuple of heads is compared as a multiset. */
  function StrippedParts(parts: seq<string>): multiset<string> {
    if parts == [] then multiset{}
    else
      var part := Strip(parts[0]);
      (if part == "" then multiset{} else multiset{part}) + StrippedParts(parts[1..])
  }

  function ShownAll(tools: Tools, items: seq<Value>): seq<string> {
    seq(|items|, i requires 0 <= i < |items| => if items[i].Text? then items[i].text else tools.show(items[i]))
  }

  function ReceiptHeads(tools: Tools, receipt: Document): Option<multiset<string>> {
    var heads :=
      match Get<Value>(receipt, "migration_heads")
      case Some(Text(raw)) => StrippedParts(Split(raw))
      case Some(List(items)) => StrippedParts(ShownAll(tools, items))
      case _ => multiset{};
    if heads == multiset{} then None else Some(heads)
  }

  /** Declared heads are stripped but none is dropped. */
  function StrippedAll(parts: seq<string>): multiset<string> {
    if parts == [] then multiset{} else multiset{Strip(parts[0])} + StrippedAll(parts[1..])
  }

  function DeclaredHeads(tools: Tools, descriptor: Document): Option<multiset<string>> {
    match Get<Value>(descriptor, "migration")
    case Some(Table(migration)) =>
      (match Get<Value>(migration, "expected_heads")
       case Some(List(items)) => if items == [] then None else Some(StrippedAll(ShownAll(tools, items)))
       case Some(Text(text)) =>
         // A text is iterated character by character.
         if text == "" then None else Some(StrippedAll(seq(|text|, i requires 0 <= i < |text| => [text[i]])))
       case _ => None)
    case _ => None
  }

  /** Heads joined by commas. */
  function Joined(heads: seq<string>): string {
    if |heads| == 0 then "" else if |heads| == 1 then heads[0] else heads[0] + "," + Joined(heads[1..])
  }

  /** A head as the migration tool writes it: not empty, no outer white space, no comma. */
  predicate PlainHead(head: string) {
    head != "" && Trimmed(head) && forall i :: 0 <= i < |head| ==> head[i] != ','
  }

  lemma {:induction false} JoinedSplits(heads: seq<string>)
    requires heads != [] && forall i :: 0 <= i < |heads| ==> PlainHead(heads[i])
    ensures Split(Joined(heads)) == heads
    decreases |heads|
  {
    var raw, first := Joined(heads), heads[0];
    assert forall i :: 0 <= i < |first| ==> raw[i] == first[i];
    if |heads| == 1 {
      assert Find(raw, ',') == |raw|;
    } else {
      JoinedSplits(heads[1..]);
      assert raw[|first|] == ',' && Find(raw, ',') == |first|;
      assert raw[..|first|] == first && raw[|first| + 1..] == Joined(heads[1..]);
    }
  }

  lemma {:induction false} PlainPartsKept(heads: seq<string>)
    requires forall i :: 0 <= i < |heads| ==> PlainHead(heads[i])
    ensures StrippedParts(heads) == StrippedAll(heads) == multiset(heads)
    decreases |heads|
  {
    if heads != [] {
      PlainPartsKept(heads[1..]);
      assert heads == [heads[0]] + heads[1..];
    }
  }

  ghost predicate StripsTo(parts: seq<string>, head: string) {
    exists i :: 0 <= i < |parts| && Strip(parts[i]) == head
  }

  lemma StripsToFirst(parts: seq<string>, head: string)
    requires parts != []
    ensures StripsTo(parts, head) <==> Strip(parts[0]) == head || StripsTo(parts[1..], head)
  {
    hide Strip;
    if i :| 0 <= i < |parts[1..]| && Strip(parts[1..][i]) == head {
      assert Strip(parts[i + 1]) == head;
    }
    if i :| 0 <= i < |parts| && Strip(parts[i]) == head {
      assert i == 0 || Strip(parts[1..][i - 1]) == head;
    }
  }

  /** Parts are stripped; a receipt drops those with nothing left, a descriptor keeps them. */
  lemma {:induction false} PartsExactly(parts: seq<string>, head: string)
    ensures head in StrippedParts(parts) <==> head != "" && StripsTo(parts, head)
    ensures head in StrippedAll(parts) <==> StripsTo(parts, head)
    ensures |StrippedAll(parts)| == |parts|
    decreases |parts|
  {
    if parts != [] {
      hide Strip, StripsTo;
      PartsExactly(parts[1..], head);
      StripsToFirst(parts, head);
    }
  }

  /** A receipt's heads are read back from one text, joined by commas, and from a list. */
  lemma ReceiptHeadsReadBack(tools: Tools, receipt: Document, heads: seq<string>)
    requires heads != [] && forall i :: 0 <= i < |heads| ==> PlainHead(heads[i])
    requires "migration_heads" in receipt
    ensures receipt["migration_heads"] == Text(Joined(heads)) ==> ReceiptHeads(tools, receipt) == Some(multiset(heads))
    ensures receipt["migration_heads"] == List(seq(|heads|, i requires 0 <= i < |heads| => Text(heads[i]))) ==>
              ReceiptHeads(tools, receipt) == Some(multiset(heads))
  {
    hide PlainHead, StrippedParts, StrippedAll, Split, Joined;
    JoinedSplits(heads);
    PlainPartsKept(heads);
    assert heads[0] in multiset(heads);
    var items := seq(|heads|, i requires 0 <= i < |heads| => Text(heads[i]));
    assert ShownAll(tools, items) == heads;
  }

  /** A descriptor's declared heads are read back from its list. */
  lemma DeclaredHeadsReadBack(tools: Tools, descriptor: Document, migration: map<string, Value>, heads: seq<string>)
    requires heads != [] && forall i :: 0 <= i < |heads| ==> PlainHead(heads[i])
    requires "migration" in descriptor && descriptor["migration"] == Table(migration)
    requires "expected_heads" in migration
    requires migration["expected_heads"] == List(seq(|heads|, i requires 0 <= i < |heads| => Text(heads[i])))
    ensures DeclaredHeads(tools, descriptor) == Some(multiset(heads))
  {
    hide PlainHead, StrippedParts, StrippedAll;
    PlainPartsKept(heads);
    var items := seq(|heads|, i requires 0 <= i < |heads| => Text(heads[i]));
    assert ShownAll(tools, items) == heads;
  }

  /** Without heads on either side there is nothing to compare. */
  lemma NoHeads(tools: Tools, document: Document)
    ensures "migration_heads" !in document ==> ReceiptHeads(tools, document) == None
    ensures "migration" !in document ==> DeclaredHeads(tools, document) == None
  {
  }

  // ---------------------------------------------------------------------------- the new entry

  /** `_at(document, "section.key")` */
  function At(document: Document, section: string, key: string): Option<Value> {
    match Get<Value>(document, section)
    case Some(Table(fields)) => Get<Value>(fields, key)
    case _ => None
  }

  const APPLICATION_HALF := {("image", "reference"), ("image", "source_revision"), ("assembly", "manifest_digest")}

  /** The application half that stays as it was. */
  function Carried(accepted: Document, candidate: Document): map<(string, string), Option<Value>> {
    map at | at in APPLICATION_HALF && Same(At(accepted, at.0, at.1), At(candidate, at.0, at.1)) ::
        At(accepted, at.0, at.1)
  }

  /** What moved in the application half needs no refusal: its section is among the changed ones. */
  lemma MovedKeysAreDeclared(accepted: Document, candidate: Document, at: (string, string))
    requires at in APPLICATION_HALF
    ensures at in Carried(accepted, candidate) || at.0 in ChangedFields(accepted, candidate)
  {
    if Same(Get(accepted, at.0), Get(candidate, at.0)) {
      SameSectionSameKeys(accepted, candidate, at.0, at.1);
    }
  }

  lemma SameSectionSameKeys(accepted: Document, candidate: Document, section: string, key: string)
    requires Same(Get(accepted, section), Get(candidate, section))
    ensures Same(At(accepted, section, key), At(candidate, section, key))
  {
    match (Get<Value>(accepted, section), Get<Value>(candidate, section))
    case (Some(Table(fields)), Some(Table(fields'))) => NoChangedFields(fields, fields');
    case _ =>
  }

  /** Which keys of the application half are carried: those of three whose values compare equal on both sides. */
  lemma CarriedExactly(accepted: Document, candidate: Document, section: string, key: string,
                       before: map<string, Value>, after: map<string, Value>)
    requires section in accepted && accepted[section] == Table(before)
    requires section in candidate && candidate[section] == Table(after)
    ensures (section, key) in Carried(accepted, candidate) <==>
              && (section, key) in {("image", "reference"), ("image", "source_revision"),
                  ("assembly", "manifest_digest")}
              && Same(Get(before, key), Get(after, key))
    ensures (section, key) in Carried(accepted, candidate) ==>
              Carried(accepted, candidate)[(section, key)] == Get(before, key)
  {
  }

  /** Four digits, two, two, with hyphens between them. */
  predicate IsoDate(date: string) {
    && |date| == 10 && date[4] == '-' && date[7] == '-'
    && forall i :: 0 <= i < 10 && i != 4 && i != 7 ==> IsDigit(date[i])
  }

  /** The candidate's own document, read as the promotion reads it. */
  predicate Declares(tools: Tools, bytes: Bytes, heads: multiset<string>) {
    tools.parse(bytes).Some? && DeclaredHeads(tools, tools.parse(bytes).value) == Some(heads)
  }

  lemma SectionsExactly(accepted: Document, candidate: Document)
    ensures forall section :: section in ChangedFields(accepted, candidate)
                         <==> !Same(Get(accepted, section), Get(candidate, section))
  {
  }

  datatype LedgerFile = Torn | Promotions(entries: seq<Entry>)

  /** When a promotion is licensed, given the accepted file and the ledger. */
  predicate Licensed(tools: Tools, accepted: Bytes, ledger: LedgerFile, q: Request) {
    && IsoDate(q.promotedAt)
    && q.candidate.Some? && q.receipt.Some? && ledger.Promotions? && ledger.entries != []
    && tools.parse(accepted).Some? && tools.parse(q.candidate.value).Some? && tools.parse(q.receipt.value).Some?
    && var acceptedDoc, candidateDoc := tools.parse(accepted).value, tools.parse(q.candidate.value).value;
    && ledger.entries[|ledger.entries| - 1].descriptor == tools.digest(accepted)
    && (forall i :: 0 <= i < |ledger.entries| ==> ledger.entries[i].descriptor != tools.digest(q.candidate.value))
    && ReceiptHeads(tools, tools.parse(q.receipt.value).value).Some?
    && ReceiptHeads(tools, tools.parse(q.receipt.value).value) == DeclaredHeads(tools, candidateDoc)
    && ChangedFields(acceptedDoc, candidateDoc) != {}
    && (Carried(acceptedDoc, candidateDoc) != map[] ==> q.carryWhy != "")
  }

  /**
   * What licenses a promotion: the date, the files, the chain, the heads, a change, and a reason for what is
   * carried.
   */
  lemma LicensedExactly(tools: Tools, accepted: Bytes, entries: seq<Entry>, q: Request, candidate: Bytes,
                        receipt: Bytes,
                        was: Document, will: Document, measured: Document)
    requires q.candidate == Some(candidate) && q.receipt == Some(receipt)
    requires tools.parse(accepted) == Some(was) && tools.parse(candidate) == Some(will)
    requires tools.parse(receipt) == Some(measured)
    ensures Licensed(tools, accepted, Promotions(entries), q) <==>
              && |q.promotedAt| == 10 && q.promotedAt[4] == '-' && q.promotedAt[7] == '-'
              && (forall i :: i in {0, 1, 2, 3, 5, 6, 8, 9} ==> '0' <= q.promotedAt[i] <= '9')
              && entries != [] && entries[|entries| - 1].descriptor == tools.digest(accepted)
              && (forall e :: e in entries ==> e.descriptor != tools.digest(candidate))
              && ReceiptHeads(tools, measured).Some? && ReceiptHeads(tools, measured) == DeclaredHeads(tools, will)
              && (exists section :: !Same(Get(was, section), Get(will, section)))
              && (q.carryWhy == "" ==> forall at :: at !in Carried(was, will))
  {
    hide ReceiptHeads, DeclaredHeads, Carried, ChangedFields;
    SectionsExactly(was, will);
    assert ChangedFields(was, will) == {} <==> forall section :: section !in ChangedFields(was, will);
    assert Carried(was, will) == map[] <==> forall at :: at !in Carried(was, will);
  }

  /** Nothing is licensed while a file is missing or unreadable. */
  lemma UnreadableIsRefused(tools: Tools, accepted: Bytes, ledger: LedgerFile, q: Request)
    requires || q.candidate == None || q.receipt == None || ledger == Torn || tools.parse(accepted) == None
             || tools.parse(q.candidate.value) == None || tools.parse(q.receipt.value) == None
    ensures !Licensed(tools, accepted, ledger, q)
  {
  }

  /** The entry a licensed promotion appends. */
  function NewEntry(tools: Tools, accepted: Bytes, ledger: LedgerFile, q: Request): Entry
    requires Licensed(tools, accepted, ledger, q)
  {
    var acceptedDoc, candidateDoc := tools.parse(accepted).value, tools.parse(q.candidate.value).value;
    Entry(tools.digest(q.candidate.value), tools.digest(accepted),
          Some(Licence(q.promotedAt, ReceiptHeads(tools, tools.parse(q.receipt.value).value).value,
                       tools.digest(q.receipt.value), ChangedFields(acceptedDoc, candidateDoc),
                       Carried(acceptedDoc, candidateDoc))))
  }

  /**
   * How applying ends: before or within the write of the ledger, between the writes, or with some
   * bytes in the accepted file. The copy reads the candidate file anew, and may also stop within.
   */
  datatype Fate = BeforeLedger | WhileWritingLedger | BetweenWrites | Copied(left: Bytes)

  class Deployment {
    var accepted: Bytes
    var ledger: LedgerFile

    constructor (accepted: Bytes, ledger: LedgerFile)
      ensures this.accepted == accepted && this.ledger == ledger
    {
      this.accepted, this.ledger := accepted, ledger;
    }

    method BuildEntry(tools: Tools, q: Request) returns (r: Result<Entry, Refusal>)
      ensures r.Ok? <==> Licensed(tools, accepted, ledger, q)
      ensures r.Ok? ==> r.value == NewEntry(tools, accepted, ledger, q)
      ensures r == Err(ChainBroken) ==> !InStep(tools, State(accepted, ledger))
      ensures r == Err(BadDate) <==>
                !(|q.promotedAt| == 10 && q.promotedAt[4] == '-' && q.promotedAt[7] == '-'
                  && forall i :: i in {0, 1, 2, 3, 5, 6, 8, 9} ==> '0' <= q.promotedAt[i] <= '9')
      ensures r.Ok? ==>
                && q.candidate.Some? && q.receipt.Some?
                && tools.parse(accepted).Some? && tools.parse(q.candidate.value).Some?
                && var was, will := tools.parse(accepted).value, tools.parse(q.candidate.value).value;
                && r.value.descriptor == tools.digest(q.candidate.value) && r.value.supersedes == tools.digest(accepted)
                && r.value.licensed.Some? && r.value.licensed.value.promotedAt == q.promotedAt
                && r.value.licensed.value.receipt == tools.digest(q.receipt.value)
                && Some(r.value.licensed.value.measured) == DeclaredHeads(tools, will)
                && (forall section :: section in r.value.licensed.value.sections
                                 <==> !Same(Get(was, section), Get(will, section)))
                && r.value.licensed.value.carried == Carried(was, will)
    {
      hide ReceiptHeads, DeclaredHeads, Carried, ChangedFields;
      if !IsoDate(q.promotedAt) {
        return Err(BadDate);
      }
      var acceptedDoc := tools.parse(accepted);
      if acceptedDoc == None {
        return Err(Unreadable);
      }
      if q.candidate == None {
        return Err(MissingFile);
      }
      var candidateDoc := tools.parse(q.candidate.value);
      if candidateDoc == None {
        return Err(Unreadable);
      }
      if q.receipt == None {
        return Err(MissingFile);
      }
      var receipt := tools.parse(q.receipt.value);
      if receipt == None || ledger == Torn {
        return Err(Unreadable);
      }
      var promotions := ledger.entries;
      if promotions == [] {
        return Err(LedgerEmpty);
      }
      var superseded := tools.digest(accepted);
      var candidateDigest := tools.digest(q.candidate.value);
      if promotions[|promotions| - 1].descriptor != superseded {
        return Err(ChainBroken);
      }
      if candidateDigest == superseded {
        return Err(AlreadyAccepted);
      }
      if exists i | 0 <= i < |promotions| :: promotions[i].descriptor == candidateDigest {
        return Err(AlreadyPromoted);
      }
      var measured := ReceiptHeads(tools, receipt.value);
      if measured == None {
        return Err(NoMeasuredHeads);
      }
      var declared := DeclaredHeads(tools, candidateDoc.value);
      if declared == None {
        return Err(NoDeclaredHeads);
      }
      if measured != declared {
        return Err(HeadsMismatch);
      }
      var sections := ChangedFields(acceptedDoc.value, candidateDoc.value);
      if sections == {} {
        return Err(NothingChanged);
      }
      var carried := Carried(acceptedDoc.value, candidateDoc.value);
      if carried != map[] && q.carryWhy == "" {
        return Err(CarryReasonMissing);
      }
      SectionsExactly(acceptedDoc.value, candidateDoc.value);
      r := Ok(Entry(candidateDigest, superseded,
                    Some(Licence(q.promotedAt, measured.value, tools.digest(q.receipt.value), sections, carried))));
    }

    /**
     * `main` with `--apply`: append to the ledger as it is read again, which another promotion may
     * have written meanwhile, then copy the candidate over the accepted file.
     */
    method Apply(tools: Tools, q: Request, found: Option<LedgerFile>, fate: Fate) returns (refusal: Option<Refusal>)
      modifies this
      ensures refusal == None <==> Licensed(tools, old(accepted), old(ledger), q)
      ensures State(accepted, ledger) == Next(tools, State(old(accepted), old(ledger)), Promote(q, found, fate))
    {
      var entry := BuildEntry(tools, q);
      if entry.Err? {
        return Some(entry.error);
      }
      refusal := None;
      if found.Some? {
        ledger := found.value;
      }
      if fate == BeforeLedger || ledger == Torn {
        return;
      }
      var entries := ledger.entries;
      ledger := Torn;
      if fate == WhileWritingLedger {
        return;
      }
      ledger := Promotions(entries + [entry.value]);
      if fate == BetweenWrites {
        return;
      }
      accepted := fate.left;
    }
  }

  // -------------------------------------------------------------------------------------- runs

  datatype State = State(accepted: Bytes, ledger: LedgerFile)

  /**
   * Promotions, with the ledger that another one left between building the entry and appending it,
   * and operators putting bytes in place of the accepted file.
   */
  datatype Step = Promote(request: Request, found: Option<LedgerFile>, fate: Fate) | Replace(bytes: Bytes)

  function Next(tools: Tools, s: State, step: Step): State {
    match step
    case Replace(bytes) => s.(accepted := bytes)
    case Promote(q, found, fate) =>
      if !Licensed(tools, s.accepted, s.ledger, q) then s
      else
        var present := if found.Some? then s.(ledger := found.value) else s;
        if fate == BeforeLedger || present.ledger == Torn then present
        else if fate == WhileWritingLedger then present.(ledger := Torn)
        else
          var entry := NewEntry(tools, s.accepted, s.ledger, q);
          var written := present.(ledger := Promotions(present.ledger.entries + [entry]));
          if fate == BetweenWrites then written else written.(accepted := fate.left)
  }

  function Run(tools: Tools, s: State, steps: seq<Step>): State
    decreases |steps|
  {
    if steps == [] then s else Next(tools, Run(tools, s, steps[..|steps| - 1]), steps[|steps| - 1])
  }

  ghost predicate Linked(entries: seq<Entry>) {
    forall i :: 0 < i < |entries| ==> entries[i].supersedes == entries[i - 1].descriptor
  }

  ghost predicate UniqueDescriptors(entries: seq<Entry>) {
    forall i, j :: 0 <= i < j < |entries| ==> entries[i].descriptor != entries[j].descriptor
  }

  /** Some candidate with the entry's digest declares the heads the entry records as measured. */
  ghost predicate HonestlyLicensed(tools: Tools, entry: Entry) {
    && entry.licensed.Some?
    && exists bytes :: tools.digest(bytes) == entry.descriptor && Declares(tools, bytes, entry.licensed.value.measured)
  }

  /** The ledger, while it can be read, extends the given one by honest links. */
  ghost predicate Extends(tools: Tools, start: seq<Entry>, ledger: LedgerFile) {
    ledger.Promotions? ==>
      && start <= ledger.entries && Linked(ledger.entries) && UniqueDescriptors(ledger.entries)
      && forall i :: |start| <= i < |ledger.entries| ==> HonestlyLicensed(tools, ledger.entries[i])
  }

  predicate Alone(step: Step) {
    step.Promote? ==> step.found == None
  }

  /**
   * Over every run of promotions that do not overlap, with every crash: the chain stays linked and
   * distinct, and every new entry is honest.
   */
  lemma {:induction false} ChainKept(tools: Tools, s: State, steps: seq<Step>)
    requires s.ledger.Promotions? && Linked(s.ledger.entries) && UniqueDescriptors(s.ledger.entries)
    requires forall i :: 0 <= i < |steps| ==> Alone(steps[i])
    ensures Extends(tools, s.ledger.entries, Run(tools, s, steps).ledger)
    decreases |steps|
  {
    if steps != [] {
      var earlier := steps[..|steps| - 1];
      forall i | 0 <= i < |earlier| ensures Alone(earlier[i]) {
        assert earlier[i] == steps[i];
      }
      ChainKept(tools, s, earlier);
      StepKeepsChain(tools, s.ledger.entries, Run(tools, s, steps[..|steps| - 1]), steps[|steps| - 1]);
    }
  }

  lemma StepKeepsChain(tools: Tools, start: seq<Entry>, s: State, step: Step)
    requires Extends(tools, start, s.ledger) && Alone(step)
    ensures Extends(tools, start, Next(tools, s, step).ledger)
  {
    hide ReceiptHeads, DeclaredHeads, Carried, ChangedFields;
    if step.Promote? && Licensed(tools, s.accepted, s.ledger, step.request) {
      var entry := NewEntry(tools, s.accepted, s.ledger, step.request);
      assert Declares(tools, step.request.candidate.value, entry.licensed.value.measured);
      assert HonestlyLicensed(tools, entry);
    }
  }

  lemma Appended(tools: Tools, s: State, q: Request, found: Option<LedgerFile>)
    requires Licensed(tools, s.accepted, s.ledger, q) && (found.Some? ==> found.value.Promotions?)
    ensures s.ledger.Promotions?
    ensures var present := if found.Some? then found.value else s.ledger;
            Next(tools, s, Promote(q, found, BetweenWrites)).ledger ==
              Promotions(present.entries + [NewEntry(tools, s.accepted, s.ledger, q)])
  {
    hide NewEntry, ReceiptHeads, DeclaredHeads, Carried, ChangedFields;
  }

  /**
   * Appended to a ledger that changed meanwhile, an entry keeps the chain exactly when the last entry
   * found is still the one it supersedes and no entry found has its descriptor.
   */
  lemma AppendKeepsExactly(tools: Tools, s: State, q: Request, found: seq<Entry>)
    requires Licensed(tools, s.accepted, s.ledger, q) && Linked(found) && UniqueDescriptors(found)
    ensures var after := Next(tools, s, Promote(q, Some(Promotions(found)), BetweenWrites)).ledger;
            && after.Promotions?
            && (Linked(after.entries) && UniqueDescriptors(after.entries) <==>
                  && (found != [] ==> found[|found| - 1].descriptor == tools.digest(s.accepted))
                  && (forall i :: 0 <= i < |found| ==> found[i].descriptor != tools.digest(q.candidate.value)))
  {
    NewEntryNames(tools, s, q);
    Appended(tools, s, q, Some(Promotions(found)));
    hide Licensed, NewEntry, Next, Linked, UniqueDescriptors;
    AppendExactly(found, NewEntry(tools, s.accepted, s.ledger, q));
  }

  lemma AppendExactly(found: seq<Entry>, entry: Entry)
    requires Linked(found) && UniqueDescriptors(found)
    ensures Linked(found + [entry]) <==> (found != [] ==> found[|found| - 1].descriptor == entry.supersedes)
    ensures UniqueDescriptors(found + [entry])
       <==> forall i :: 0 <= i < |found| ==> found[i].descriptor != entry.descriptor
  {
    var after := found + [entry];
    if Linked(after) && found != [] {
      assert after[|found|].supersedes == after[|found| - 1].descriptor;
    }
    if UniqueDescriptors(after) {
      forall i | 0 <= i < |found| ensures found[i].descriptor != entry.descriptor {
        assert after[i].descriptor != after[|found|].descriptor;
      }
    }
  }

  /** Two promotions built from one state and appended one after the other always fork the chain. */
  lemma OverlapForks(tools: Tools, s: State, q: Request, q': Request)
    requires Licensed(tools, s.accepted, s.ledger, q) && Licensed(tools, s.accepted, s.ledger, q')
    requires Linked(s.ledger.entries) && UniqueDescriptors(s.ledger.entries)
    ensures var first := Next(tools, s, Promote(q, None, BetweenWrites)).ledger;
            var both := Next(tools, s, Promote(q', Some(first), BetweenWrites)).ledger;
            first.Promotions? && Linked(first.entries) && both.Promotions? && !Linked(both.entries)
  {
    hide Licensed, NewEntry, Next, Linked, UniqueDescriptors;
    NewEntryNames(tools, s, q);
    NewEntryNames(tools, s, q');
    LicensedIsNew(tools, s, q);
    Appended(tools, s, q, None);
    Appended(tools, s, q', Some(Next(tools, s, Promote(q, None, BetweenWrites)).ledger));
    var e, e' := NewEntry(tools, s.accepted, s.ledger, q), NewEntry(tools, s.accepted, s.ledger, q');
    AppendExactly(s.ledger.entries, e);
    NotLinked(s.ledger.entries + [e], e');
  }

  lemma NotLinked(found: seq<Entry>, entry: Entry)
    requires found != [] && found[|found| - 1].descriptor != entry.supersedes
    ensures !Linked(found + [entry])
  {
    var after := found + [entry];
    assert after[|found|].supersedes != after[|found| - 1].descriptor;
  }

  lemma LicensedIsNew(tools: Tools, s: State, q: Request)
    requires Licensed(tools, s.accepted, s.ledger, q)
    ensures s.ledger.Promotions? && s.ledger.entries != [] && q.candidate.Some?
    ensures s.ledger.entries[|s.ledger.entries| - 1].descriptor == tools.digest(s.accepted)
    ensures tools.digest(q.candidate.value) != tools.digest(s.accepted)
  {
    hide ReceiptHeads, DeclaredHeads, Carried, ChangedFields;
  }

  /** The last entry names the accepted file. */
  predicate InStep(tools: Tools, s: State) {
    && s.ledger.Promotions? && s.ledger.entries != []
    && s.ledger.entries[|s.ledger.entries| - 1].descriptor == tools.digest(s.accepted)
  }

  /** The last entry names the accepted file exactly when what the copy left has the candidate's digest. */
  lemma CopiedInStep(tools: Tools, s: State, q: Request, left: Bytes)
    requires Licensed(tools, s.accepted, s.ledger, q)
    ensures var after := Next(tools, s, Promote(q, None, Copied(left)));
            && (InStep(tools, after) <==> tools.digest(left) == tools.digest(q.candidate.value))
            && after.ledger == Promotions(s.ledger.entries + [NewEntry(tools, s.accepted, s.ledger, q)])
            && after.accepted == left
  {
    hide Licensed, NewEntry;
    NewEntryNames(tools, s, q);
  }

  lemma NewEntryNames(tools: Tools, s: State, q: Request)
    requires Licensed(tools, s.accepted, s.ledger, q)
    ensures s.ledger.Promotions? && q.candidate.Some?
    ensures var entry := NewEntry(tools, s.accepted, s.ledger, q);
            entry.descriptor == tools.digest(q.candidate.value) && entry.supersedes == tools.digest(s.accepted)
  {
    hide ReceiptHeads, DeclaredHeads, Carried, ChangedFields;
  }

  /** No operator puts bytes in place that the last entry names. */
  predicate Unrepaired(tools: Tools, s: State, step: Step) {
    step.Replace? ==> !InStep(tools, s.(accepted := step.bytes))
  }

  /**
   * Out of step, whatever the crash that caused it, no promotion changes anything, through any
   * number of attempts and wrong repairs, until a file that the last entry names is in place.
   */
  lemma {:induction false} RefusedUntilRepaired(tools: Tools, s: State, steps: seq<Step>, q: Request)
    requires !InStep(tools, s)
    requires forall i :: 0 <= i < |steps| ==> Unrepaired(tools, s, steps[i])
    ensures var after := Run(tools, s, steps);
            after.ledger == s.ledger && !InStep(tools, after) && !Licensed(tools, after.accepted, after.ledger, q)
    decreases |steps|
  {
    hide ReceiptHeads, DeclaredHeads, Carried, ChangedFields;
    if steps != [] {
      var earlier, last := steps[..|steps| - 1], steps[|steps| - 1];
      assert Unrepaired(tools, s, last);
      forall i | 0 <= i < |earlier| ensures Unrepaired(tools, s, earlier[i]) {
        assert earlier[i] == steps[i];
      }
      RefusedUntilRepaired(tools, s, earlier, if last.Promote? then last.request else q);
    }
  }

  /** A crash between the two writes is such a state, repaired exactly by a file with the candidate's digest. */
  lemma CrashBetweenWrites(tools: Tools, s: State, q: Request, bytes: Bytes)
    requires Licensed(tools, s.accepted, s.ledger, q)
    ensures var crashed := Next(tools, s, Promote(q, None, BetweenWrites));
            && !InStep(tools, crashed)
            && (InStep(tools, Next(tools, crashed, Replace(bytes)))
                <==> tools.digest(bytes) == tools.digest(q.candidate.value))
            && Next(tools, crashed, Replace(bytes)) == Next(tools, s, Promote(q, None, Copied(bytes)))
  {
    hide ReceiptHeads, DeclaredHeads, Carried, ChangedFields;
    assert s.ledger.entries[|s.ledger.entries| - 1].descriptor == tools.digest(s.accepted);
  }
}
