// The drift gate over whole lock files: apart from the kernel entry and one declared movement,
// nothing may change. The problems found are kept as a set; their order and wording are not.
module LockDrift {
  import opened Documents
  import opened Wrappers

  type Entry = map<string, Value>

  /** `str(entry.get(field))`, for texts the text itself. */
  type Shown = Option<Value> -> string

  /** `metadata` is empty when the lock has none; `tables` are the other top-level keys. */
  datatype Lock = Lock(packages: seq<Entry>, metadata: map<string, Value>, tables: map<string, Value>)

  datatype Key = Key(name: string, version: string)

  type Entries = map<Key, Entry>

  datatype Delta = Delta(name: string, before: string, after: string)

  /** The acquired bundle a declared movement is bound to, and what comparing its wheel's metadata found. */
  datatype Binding = NoBundle | NoDigests | Wheels(count: nat) | Compared(agrees: bool)

  const KERNEL := "dotmac-kernel"
  const INDEX_URL := "https://registry.dotmac.io/api/packages/dotmac/pypi/simple"
  const KERNEL_MUTABLE_FIELDS := {"version", "files"}
  const DEPENDENCY_MUTABLE_FIELDS := KERNEL_MUTABLE_FIELDS + {"dependencies"}

  // ---------------------------------------------------------------------------- the entries

  function KeyOf(entry: Entry, show: Shown): Key {
    Key(show(Get(entry, "name")), show(Get(entry, "version")))
  }

  /** Every entry is found under its key, and every key has one entry. */
  ghost predicate Indexed(packages: seq<Entry>, show: Shown, found: Entries) {
    && (forall i :: 0 <= i < |packages| ==>
          KeyOf(packages[i], show) in found && found[KeyOf(packages[i], show)] == packages[i])
    && (forall k :: k in found ==> found[k] in packages && KeyOf(found[k], show) == k)
  }

  ghost predicate DuplicateKey(packages: seq<Entry>, show: Shown) {
    exists i, j :: 0 <= i < j < |packages| && KeyOf(packages[i], show) == KeyOf(packages[j], show)
  }

  /** `_entries`, or a refusal for two entries with one key or for no entries at all. */
  method ReadEntries(packages: seq<Entry>, show: Shown) returns (r: Option<Entries>)
    ensures r == None <==> packages == [] || DuplicateKey(packages, show)
    ensures r.Some? ==> Indexed(packages, show, r.value)
  {
    hide KeyOf;
    var found: Entries := map[];
    for i := 0 to |packages|
      invariant Indexed(packages[..i], show, found)
      invariant forall j, k :: 0 <= j < k < i ==> KeyOf(packages[j], show) != KeyOf(packages[k], show)
    {
      var entry := packages[i];
      var key := KeyOf(entry, show);
      if key in found {
        var j :| 0 <= j < i && packages[..i][j] == found[key];
        assert KeyOf(packages[j], show) == KeyOf(packages[i], show);
        return None;
      }
      found := found[key := entry];
      assert packages[..i + 1] == packages[..i] + [entry];
    }
    assert packages[..|packages|] == packages;
    assert packages == [] <==> found == map[] by {
      if packages != [] {
        assert KeyOf(packages[0], show) in found;
      }
    }
    r := if found == map[] then None else Some(found);
  }

  // --------------------------------------------------------------------------- the problems

  datatype Problem =
    | Appeared(key: Key) | Disappeared(key: Key) | Changed(key: Key, fields: set<string>)
    | EntryCount(name: string, before: nat, after: nat) | DidNotMove(name: string)
    | FieldChanged(name: string, field: string) | ForeignSource(name: string)
    | NotDeclaredFrom(version: string) | NotDeclaredTo(version: string) | Unbound(binding: Binding)
    | MetadataChanged(field: string) | ContentHashMissing | ContentHashUnchanged | TableChanged(table: string)

  function Named(entries: Entries, name: string): Entries {
    map k | k in entries && k.name == name :: entries[k]
  }

  function Except(entries: Entries, names: set<string>): Entries {
    map k | k in entries && k.name !in names :: entries[k]
  }

  predicate SourceIsForeign(after: Entry) {
    && Get(after, "source").Some? && after["source"].Table?
    && Get(after["source"].fields, "url") != Some(Text(INDEX_URL))
  }

  function MovedProblems(name: string, before: Entry, after: Entry, mutable: set<string>): set<Problem> {
    (set f | f in ChangedFields(before, after) && f !in mutable :: FieldChanged(name, f))
    + if SourceIsForeign(after) then {ForeignSource(name)} else {}
  }

  method OnlyEntry(entries: Entries) returns (key: Key, entry: Entry)
    requires |entries| == 1
    ensures entries == map[key := entry]
  {
    key :| key in entries;
    entry := entries[key];
    OneKey(entries, key);
  }

  lemma OneKey(entries: Entries, key: Key)
    requires |entries| == 1 && key in entries
    ensures entries.Keys == {key} && entries == map[key := entries[key]]
  {
    assert |entries.Keys - {key}| == 0;
    assert entries.Keys == {key} + (entries.Keys - {key});
  }

  /** Exactly one entry of the name on each side. */
  ghost predicate OneEach(old_: Entries, new_: Entries, name: string, oldKey: Key, newKey: Key) {
    && (forall k :: k in old_ && k.name == name <==> k == oldKey)
    && (forall k :: k in new_ && k.name == name <==> k == newKey)
  }

  /** Every field outside `mutable` compares equal on both sides. */
  ghost predicate SameBut(before: Entry, after: Entry, mutable: set<string>) {
    forall f :: f !in mutable ==> Same(Get(before, f), Get(after, f))
  }

  ghost predicate KernelFrame(old_: Entries, new_: Entries, unmovedIsPermitted: bool) {
    exists o, n :: OneEach(old_, new_, KERNEL, o, n)
      && if o == n && Alike(old_[o], new_[n]) then unmovedIsPermitted
         else SameBut(old_[o], new_[n], KERNEL_MUTABLE_FIELDS) && !SourceIsForeign(new_[n])
  }

  ghost predicate DeltaFrame(old_: Entries, new_: Entries, delta: Delta, binding: Binding)
  {
    var o, n := Key(delta.name, delta.before), Key(delta.name, delta.after);
    && OneEach(old_, new_, delta.name, o, n)
    && !Alike(old_[o], new_[n])
    && SameBut(old_[o], new_[n], DEPENDENCY_MUTABLE_FIELDS) && !SourceIsForeign(new_[n])
    && binding == Compared(true)
  }

  function Excluded(delta: Option<Delta>): set<string> {
    {KERNEL} + if delta.Some? then {delta.value.name} else {}
  }

  ghost predicate MetadataFrame(before: map<string, Value>, after: map<string, Value>) {
    && (forall f :: f != "content-hash" ==> Same(Get(before, f), Get(after, f)))
    && Truthy(Get(before, "content-hash")) && Truthy(Get(after, "content-hash"))
    && !Same(Get(before, "content-hash"), Get(after, "content-hash"))
  }

  /** All that a clean comparison allows. */
  ghost predicate Frame(before: Lock, after: Lock, old_: Entries, new_: Entries, delta: Option<Delta>,
                        binding: Binding)
  {
    && (forall k: Key :: k.name !in Excluded(delta) ==>
          (k in old_ <==> k in new_) && (k in old_ && k in new_ ==> Alike(old_[k], new_[k])))
    && KernelFrame(old_, new_, delta.Some?)
    && (delta.Some? ==> DeltaFrame(old_, new_, delta.value, binding))
    && MetadataFrame(before.metadata, after.metadata)
    && Alike(before.tables, after.tables)
  }

  method KernelEntryProblems(old_: Entries, new_: Entries, unmovedIsPermitted: bool) returns (problems: set<Problem>)
    ensures problems == {} <==> KernelFrame(old_, new_, unmovedIsPermitted)
  {
    var oldKernel, newKernel := Named(old_, KERNEL), Named(new_, KERNEL);
    forall o, n | OneEach(old_, new_, KERNEL, o, n) ensures |newKernel| == 1 && |oldKernel| == 1 {
      OneEachCounts(old_, new_, KERNEL, o, n);
    }
    if |newKernel| != 1 || |oldKernel| != 1 {
      return {EntryCount(KERNEL, |oldKernel|, |newKernel|)};
    }
    var o, before := OnlyEntry(oldKernel);
    var n, after := OnlyEntry(newKernel);
    OneEachFound(old_, new_, KERNEL, o, before, n, after);
    if o == n && Alike(before, after) {
      problems := if unmovedIsPermitted then {} else {DidNotMove(KERNEL)};
    } else {
      problems := MovedProblems(KERNEL, before, after, KERNEL_MUTABLE_FIELDS);
      NoMovedProblems(KERNEL, before, after, KERNEL_MUTABLE_FIELDS);
    }
    if problems == {} {
      assert OneEach(old_, new_, KERNEL, o, n);
    }
  }

  lemma OneEachCounts(old_: Entries, new_: Entries, name: string, o: Key, n: Key)
    requires OneEach(old_, new_, name, o, n)
    ensures |Named(old_, name)| == 1 && |Named(new_, name)| == 1
  {
    assert Named(old_, name).Keys == {o} && Named(new_, name).Keys == {n};
  }

  lemma OneEachFound(old_: Entries, new_: Entries, name: string, o: Key, before: Entry, n: Key, after: Entry)
    requires Named(old_, name) == map[o := before] && Named(new_, name) == map[n := after]
    ensures OneEach(old_, new_, name, o, n) && old_[o] == before && new_[n] == after
    ensures forall o', n' :: OneEach(old_, new_, name, o', n') ==> o' == o && n' == n
  {
    assert o in Named(old_, name) && n in Named(new_, name);
    forall k | k in old_ && k.name == name ensures k == o {
      assert k in Named(old_, name);
    }
    forall k | k in new_ && k.name == name ensures k == n {
      assert k in Named(new_, name);
    }
  }

  lemma NoMovedProblems(name: string, before: Entry, after: Entry, mutable: set<string>)
    ensures MovedProblems(name, before, after, mutable) == {}
       <==> SameBut(before, after, mutable) && !SourceIsForeign(after)
  {
    var problems := MovedProblems(name, before, after, mutable);
    forall f | f in ChangedFields(before, after) && f !in mutable ensures FieldChanged(name, f) in problems {
    }
    if SourceIsForeign(after) {
      assert ForeignSource(name) in problems;
    }
  }

  method DeclaredDeltaProblems(old_: Entries, new_: Entries, delta: Delta, binding: Binding)
    returns (problems: set<Problem>)
    ensures problems == {} <==> DeltaFrame(old_, new_, delta, binding)
  {
    var oldEntries, newEntries := Named(old_, delta.name), Named(new_, delta.name);
    forall o, n | OneEach(old_, new_, delta.name, o, n) ensures |newEntries| == 1 && |oldEntries| == 1 {
      OneEachCounts(old_, new_, delta.name, o, n);
    }
    if |oldEntries| != 1 || |newEntries| != 1 {
      return {EntryCount(delta.name, |oldEntries|, |newEntries|)};
    }
    var o, before := OnlyEntry(oldEntries);
    var n, after := OnlyEntry(newEntries);
    OneEachFound(old_, new_, delta.name, o, before, n, after);
    problems := {};
    if o.version != delta.before {
      problems := problems + {NotDeclaredFrom(o.version)};
    }
    if n.version != delta.after {
      problems := problems + {NotDeclaredTo(n.version)};
    }
    assert problems == {} <==> o == Key(delta.name, delta.before) && n == Key(delta.name, delta.after);
    if Alike(before, after) {
      problems := problems + {DidNotMove(delta.name)};
      return;
    }
    NoMovedProblems(delta.name, before, after, DEPENDENCY_MUTABLE_FIELDS);
    problems := problems + MovedProblems(delta.name, before, after, DEPENDENCY_MUTABLE_FIELDS);
    if binding != Compared(true) {
      problems := problems + {Unbound(binding)};
    }
  }

  /** `drift_problems`; `None` when either lock's entries are refused. */
  method DriftProblems(before: Lock, after: Lock, delta: Option<Delta>, binding: Binding, show: Shown)
    returns (r: Option<set<Problem>>, ghost old_: Entries, ghost new_: Entries)
    ensures r == None <==> before.packages == [] || DuplicateKey(before.packages, show)
                           || after.packages == [] || DuplicateKey(after.packages, show)
    ensures r.Some? ==> Indexed(before.packages, show, old_) && Indexed(after.packages, show, new_)
    ensures r.Some? ==> (r.value == {} <==> Frame(before, after, old_, new_, delta, binding))
    ensures r.Some? ==>
              (r.value == {} <==>
                 && (forall k: Key ::
                       k.name != "dotmac-kernel" && (delta.Some? ==> k.name != delta.value.name) ==>
                         (k in old_ <==> k in new_) && (k in old_ ==> Alike(old_[k], new_[k])))
                 && KernelFrame(old_, new_, delta.Some?)
                 && (delta.Some? ==> DeltaFrame(old_, new_, delta.value, binding))
                 && MetadataFrame(before.metadata, after.metadata)
                 && forall table :: Same(Get(before.tables, table), Get(after.tables, table)))
  {
    hide KernelFrame, DeltaFrame, MetadataFrame, Indexed, DuplicateKey, OtherProblems, TableProblems, Equal;
    old_, new_ := map[], map[];
    var o := ReadEntries(before.packages, show);
    var n := ReadEntries(after.packages, show);
    if o == None || n == None {
      return None, old_, new_;
    }
    old_, new_ := o.value, n.value;
    var problems := OtherProblems(o.value, n.value, Excluded(delta));
    NoOtherProblems(o.value, n.value, Excluded(delta));
    var kernel := KernelEntryProblems(o.value, n.value, delta.Some?);
    problems := problems + kernel;
    if delta.Some? {
      var declared := DeclaredDeltaProblems(o.value, n.value, delta.value, binding);
      problems := problems + declared;
    }
    var metadata := MetadataProblems(before.metadata, after.metadata);
    problems := problems + metadata;
    problems := problems + TableProblems(before.tables, after.tables);
    NoTableProblems(before.tables, after.tables);
    NoChangedFields(before.tables, after.tables);
    r := Some(problems);
  }

  function TableProblems(before: map<string, Value>, after: map<string, Value>): set<Problem> {
    set t | t in ChangedFields(before, after) :: TableChanged(t)
  }

  lemma NoTableProblems(before: map<string, Value>, after: map<string, Value>)
    ensures TableProblems(before, after) == {} <==> Alike(before, after)
  {
    NoChangedFields(before, after);
    forall t | t in ChangedFields(before, after) ensures TableChanged(t) in TableProblems(before, after) {
    }
  }

  function AppearedKeys(old_: Entries, new_: Entries): set<Problem> {
    set k | k in new_ && k !in old_ :: Appeared(k)
  }

  function DisappearedKeys(old_: Entries, new_: Entries): set<Problem> {
    set k | k in old_ && k !in new_ :: Disappeared(k)
  }

  function ChangedKeys(old_: Entries, new_: Entries): set<Problem> {
    set k | k in old_ && k in new_ && ChangedFields(old_[k], new_[k]) != {} ::
        Changed(k, ChangedFields(old_[k], new_[k]))
  }

  /** Everything outside the excluded names: what appeared, what disappeared, and which fields changed. */
  function OtherProblems(old_: Entries, new_: Entries, excluded: set<string>): set<Problem> {
    var oldOther, newOther := Except(old_, excluded), Except(new_, excluded);
    AppearedKeys(oldOther, newOther) + DisappearedKeys(oldOther, newOther) + ChangedKeys(oldOther, newOther)
  }

  /** A package is reported exactly when it was added, removed, or does not compare equal field by field. */
  lemma OtherProblemsNamed(old_: Entries, new_: Entries, excluded: set<string>, k: Key)
    ensures Appeared(k) in OtherProblems(old_, new_, excluded) <==> k.name !in excluded && k in new_ && k !in old_
    ensures Disappeared(k) in OtherProblems(old_, new_, excluded) <==> k.name !in excluded && k in old_ && k !in new_
    ensures (exists fields :: Changed(k, fields) in OtherProblems(old_, new_, excluded))
       <==> k.name !in excluded && k in old_ && k in new_ && !Alike(old_[k], new_[k])
  {
    var o, n := Except(old_, excluded), Except(new_, excluded);
    assert (k in o <==> k.name !in excluded && k in old_) && (k in n <==> k.name !in excluded && k in new_);
    KeyReported(o, n, k);
    hide AppearedKeys, DisappearedKeys, ChangedKeys, Except;
    forall fields ensures Changed(k, fields) in OtherProblems(old_, new_, excluded)
        <==> Changed(k, fields) in ChangedKeys(o, n) {
      OnlyItsKind(o, n, Changed(k, fields));
    }
    OnlyItsKind(o, n, Appeared(k));
    OnlyItsKind(o, n, Disappeared(k));
  }

  lemma KeyReported(o: Entries, n: Entries, k: Key)
    ensures Appeared(k) in AppearedKeys(o, n) <==> k in n && k !in o
    ensures Disappeared(k) in DisappearedKeys(o, n) <==> k in o && k !in n
    ensures (exists fields :: Changed(k, fields) in ChangedKeys(o, n)) <==> k in o && k in n && !Alike(o[k], n[k])
  {
    if k in o && k in n {
      NoChangedFields(o[k], n[k]);
      if !Alike(o[k], n[k]) {
        assert Changed(k, ChangedFields(o[k], n[k])) in ChangedKeys(o, n);
      }
    }
  }

  lemma OnlyItsKind(o: Entries, n: Entries, p: Problem)
    ensures p in AppearedKeys(o, n) ==> p.Appeared?
    ensures p in DisappearedKeys(o, n) ==> p.Disappeared?
    ensures p in ChangedKeys(o, n) ==> p.Changed?
  {
  }

  lemma NoOtherProblems(old_: Entries, new_: Entries, excluded: set<string>)
    ensures OtherProblems(old_, new_, excluded) == {}
       <==> forall k: Key :: k.name !in excluded ==>
           (k in old_ <==> k in new_) && (k in old_ && k in new_ ==> Alike(old_[k], new_[k]))
  {
    var problems := OtherProblems(old_, new_, excluded);
    forall p | p in problems ensures p.Appeared? || p.Disappeared? || p.Changed? {
      OnlyItsKind(Except(old_, excluded), Except(new_, excluded), p);
    }
    hide OtherProblems;
    forall k: Key
      ensures Appeared(k) in problems <==> k.name !in excluded && k in new_ && k !in old_
      ensures Disappeared(k) in problems <==> k.name !in excluded && k in old_ && k !in new_
      ensures (exists fields :: Changed(k, fields) in problems)
          <==> k.name !in excluded && k in old_ && k in new_ && !Alike(old_[k], new_[k])
    {
      OtherProblemsNamed(old_, new_, excluded, k);
    }
    if problem :| problem in problems {
      assert problem.Changed? ==> Changed(problem.key, problem.fields) in problems;
    }
  }

  method MetadataProblems(before: map<string, Value>, after: map<string, Value>) returns (problems: set<Problem>)
    ensures problems == {} <==> MetadataFrame(before, after)
  {
    var fields := set f | f in before.Keys + after.Keys && f != "content-hash" && !Same(Get(before, f), Get(after, f));
    problems := set f | f in fields :: MetadataChanged(f);
    if fields != {} {
      var f :| f in fields;
      assert MetadataChanged(f) in problems;
    }
    assert fields == {} <==> forall f :: f != "content-hash" ==> Same(Get(before, f), Get(after, f)) by {
      if fields == {} {
        forall f | f != "content-hash" ensures Same(Get(before, f), Get(after, f)) {
          assert f !in fields;
        }
      }
    }
    var oldHash, newHash := Get(before, "content-hash"), Get(after, "content-hash");
    if !Truthy(oldHash) || !Truthy(newHash) {
      problems := problems + {ContentHashMissing};
    } else if Same(oldHash, newHash) {
      problems := problems + {ContentHashUnchanged};
    }
  }

  // ------------------------------------------------------------ in terms of fields and addresses

  /** A source table, if there is one, gives the registry's address. */
  predicate FromRegistry(entry: Entry) {
    "source" in entry && entry["source"].Table? ==>
      && "url" in entry["source"].fields
      && entry["source"].fields["url"] == Text("https://registry.dotmac.io/api/packages/dotmac/pypi/simple")
  }

  lemma RegistryIsNotForeign(entry: Entry)
    ensures FromRegistry(entry) <==> !SourceIsForeign(entry)
  {
  }

  /** Which moves of the kernel's one entry are clean. */
  lemma KernelMoveExactly(old_: Entries, new_: Entries, o: Key, n: Key, unmovedIsPermitted: bool)
    requires forall k :: k in old_ && k.name == "dotmac-kernel" <==> k == o
    requires forall k :: k in new_ && k.name == "dotmac-kernel" <==> k == n
    ensures KernelFrame(old_, new_, unmovedIsPermitted) <==>
              if o == n && Alike(old_[o], new_[n]) then unmovedIsPermitted
              else
                && FromRegistry(new_[n])
                && forall f :: f != "version" && f != "files" ==> Same(Get(old_[o], f), Get(new_[n], f))
  {
    hide Equal, Same, FromRegistry, SourceIsForeign;
    RegistryIsNotForeign(new_[n]);
    assert OneEach(old_, new_, KERNEL, o, n);
    assert forall o', n' :: OneEach(old_, new_, KERNEL, o', n') ==> o' == o && n' == n;
    assert SameBut(old_[o], new_[n], KERNEL_MUTABLE_FIELDS)
      <==> forall f :: f != "version" && f != "files" ==> Same(Get(old_[o], f), Get(new_[n], f));
  }

  /** Which moves of a declared dependency's one entry are clean. */
  lemma DeclaredMoveExactly(old_: Entries, new_: Entries, o: Key, n: Key, delta: Delta, binding: Binding)
    requires forall k :: k in old_ && k.name == delta.name <==> k == o
    requires forall k :: k in new_ && k.name == delta.name <==> k == n
    ensures DeltaFrame(old_, new_, delta, binding) <==>
              && o.version == delta.before && n.version == delta.after && !Alike(old_[o], new_[n])
              && FromRegistry(new_[n]) && binding == Compared(true)
              && forall f :: f != "version" && f != "files" && f != "dependencies" ==>
                   Same(Get(old_[o], f), Get(new_[n], f))
  {
    hide Equal, Same, FromRegistry, SourceIsForeign;
    RegistryIsNotForeign(new_[n]);
    assert SameBut(old_[o], new_[n], DEPENDENCY_MUTABLE_FIELDS)
      <==> forall f :: f != "version" && f != "files" && f != "dependencies" ==>
             Same(Get(old_[o], f), Get(new_[n], f));
    if DeltaFrame(old_, new_, delta, binding) {
      assert o == Key(delta.name, delta.before) && n == Key(delta.name, delta.after);
    }
  }

  /** Which metadata moves are clean, when the content hashes are texts. */
  lemma HashMoveExactly(before: map<string, Value>, after: map<string, Value>, h: string, h': string)
    requires "content-hash" in before && before["content-hash"] == Text(h)
    requires "content-hash" in after && after["content-hash"] == Text(h')
    ensures MetadataFrame(before, after) <==>
              && h != "" && h' != "" && h != h'
              && forall f :: f != "content-hash" ==> Same(Get(before, f), Get(after, f))
  {
  }

  lemma HashIsNeeded(before: map<string, Value>, after: map<string, Value>)
    requires "content-hash" !in before || "content-hash" !in after
    ensures !MetadataFrame(before, after)
  {
  }

  // ----------------------------------------------------------------- chains of clean comparisons

  datatype Stage = Stage(lock: Lock, entries: Entries)

  datatype Move = Move(delta: Option<Delta>, binding: Binding)

  /** Each lock file, read into its entries, compared clean with the one before it. */
  ghost predicate Chain(stages: seq<Stage>, moves: seq<Move>, show: Shown) {
    && |stages| == |moves| + 1
    && (forall i :: 0 <= i < |stages| ==> Indexed(stages[i].lock.packages, show, stages[i].entries))
    && forall i :: 0 <= i < |moves| ==>
         Frame(stages[i].lock, stages[i + 1].lock, stages[i].entries, stages[i + 1].entries, moves[i].delta,
             moves[i].binding)
  }

  lemma ChainPrefix(stages: seq<Stage>, moves: seq<Move>, show: Shown)
    requires Chain(stages, moves, show) && moves != []
    ensures Chain(stages[..|stages| - 1], moves[..|moves| - 1], show)
  {
    hide Frame;
  }

  lemma SameButReflexive(entry: Entry, mutable: set<string>)
    ensures SameBut(entry, entry, mutable)
  {
    forall f ensures Same(Get(entry, f), Get(entry, f)) {
      SameReflexive(Get(entry, f));
    }
  }

  lemma SameButTransitive(a: Entry, b: Entry, c: Entry, mutable: set<string>)
    requires SameBut(a, b, mutable) && SameBut(b, c, mutable)
    ensures SameBut(a, c, mutable)
  {
    hide Same;
    forall f | f !in mutable ensures Same(Get(a, f), Get(c, f)) {
      SameTransitive(Get(a, f), Get(b, f), Get(c, f));
    }
  }

  /** The last comparison of a chain, and what it says about packages it does not exempt. */
  lemma LastMove(stages: seq<Stage>, moves: seq<Move>, show: Shown) returns (old_: Entries, new_: Entries, move: Move)
    requires Chain(stages, moves, show) && moves != []
    ensures var k := |moves| - 1; old_ == stages[k].entries && new_ == stages[k + 1].entries && move == moves[k]
    ensures KernelFrame(old_, new_, move.delta.Some?)
    ensures move.delta.Some? ==> DeltaFrame(old_, new_, move.delta.value, move.binding)
    ensures forall k: Key :: k.name !in Excluded(move.delta) ==>
              (k in old_ <==> k in new_) && (k in old_ && k in new_ ==> Alike(old_[k], new_[k]))
  {
    hide KernelFrame, DeltaFrame, MetadataFrame, Indexed, Equal;
    var k := |moves| - 1;
    old_, new_, move := stages[k].entries, stages[k + 1].entries, moves[k];
    assert Frame(stages[k].lock, stages[k + 1].lock, old_, new_, move.delta, move.binding);
  }

  /** Over any chain, a package that is never declared keeps its entry, and none appears or disappears. */
  lemma {:induction false} UndeclaredKept(stages: seq<Stage>, moves: seq<Move>, show: Shown, key: Key)
    requires Chain(stages, moves, show) && key.name != "dotmac-kernel"
    requires forall i :: 0 <= i < |moves| && moves[i].delta.Some? ==> moves[i].delta.value.name != key.name
    ensures var first, last := stages[0].entries, stages[|moves|].entries;
            (key in first <==> key in last) && (key in first && key in last ==> Alike(first[key], last[key]))
    decreases |moves|
  {
    hide KernelFrame, DeltaFrame, Frame, Indexed, Equal;
    var first := stages[0].entries;
    if moves == [] {
      if key in first {
        EqualReflexive(Table(first[key]));
      }
    } else {
      ChainPrefix(stages, moves, show);
      UndeclaredKept(stages[..|stages| - 1], moves[..|moves| - 1], show, key);
      var old_, new_, move := LastMove(stages, moves, show);
      assert key.name !in Excluded(move.delta);
      if key in first {
        EqualTransitive(Table(first[key]), Table(old_[key]), Table(new_[key]));
      }
    }
  }

  /** Such an entry is identical at the end exactly when no value in it became one of another kind. */
  lemma UndeclaredIdentical(stages: seq<Stage>, moves: seq<Move>, show: Shown, key: Key)
    requires Chain(stages, moves, show) && key.name != "dotmac-kernel"
    requires forall i :: 0 <= i < |moves| && moves[i].delta.Some? ==> moves[i].delta.value.name != key.name
    requires key in stages[0].entries
    ensures var first, last := stages[0].entries, stages[|moves|].entries;
            key in last && (first[key] == last[key] <==> SameKinds(Table(first[key]), Table(last[key])))
  {
    hide Equal, SameKinds, Frame, Indexed;
    UndeclaredKept(stages, moves, show, key);
    EqualIsIdentical(Table(stages[0].entries[key]), Table(stages[|moves|].entries[key]));
  }

  ghost predicate OnlyNamed(entries: Entries, name: string, key: Key) {
    forall k :: k in entries && k.name == name <==> k == key
  }

  lemma KernelStep(old_: Entries, new_: Entries, unmovedIsPermitted: bool, first: Key) returns (last: Key)
    requires KernelFrame(old_, new_, unmovedIsPermitted) && OnlyNamed(old_, KERNEL, first)
    ensures OnlyNamed(new_, KERNEL, last) && SameBut(old_[first], new_[last], KERNEL_MUTABLE_FIELDS)
  {
    hide Equal, Same;
    var o, n :| OneEach(old_, new_, KERNEL, o, n)
                && if o == n && Alike(old_[o], new_[n]) then unmovedIsPermitted
                   else SameBut(old_[o], new_[n], KERNEL_MUTABLE_FIELDS) && !SourceIsForeign(new_[n]);
    assert o == first;
    last := n;
    if Alike(old_[o], new_[n]) {
      AlikeIsSameBut(old_[o], new_[n], KERNEL_MUTABLE_FIELDS);
    }
  }

  /** Over any chain, the one kernel entry changes at most in its version and files. */
  lemma {:induction false} KernelKept(stages: seq<Stage>, moves: seq<Move>, show: Shown, first: Key) returns (last: Key)
    requires Chain(stages, moves, show) && OnlyNamed(stages[0].entries, KERNEL, first)
    ensures OnlyNamed(stages[|moves|].entries, KERNEL, last)
    ensures SameBut(stages[0].entries[first], stages[|moves|].entries[last], KERNEL_MUTABLE_FIELDS)
    decreases |moves|
  {
    hide KernelFrame, DeltaFrame, Frame, Indexed, SameBut;
    last := first;
    if moves == [] {
      SameButReflexive(stages[0].entries[first], KERNEL_MUTABLE_FIELDS);
    } else {
      ChainPrefix(stages, moves, show);
      var middle := KernelKept(stages[..|stages| - 1], moves[..|moves| - 1], show, first);
      var old_, new_, move := LastMove(stages, moves, show);
      last := KernelStep(old_, new_, move.delta.Some?, middle);
      SameButTransitive(stages[0].entries[first], old_[middle], new_[last], KERNEL_MUTABLE_FIELDS);
    }
  }

  /** Over any chain, a package with one entry keeps exactly one, and declared moves change three fields at most. */
  lemma {:induction false} DeclaredKept(stages: seq<Stage>, moves: seq<Move>, show: Shown, name: string, first: Key)
    returns (last: Key)
    requires Chain(stages, moves, show) && name != KERNEL && OnlyNamed(stages[0].entries, name, first)
    ensures OnlyNamed(stages[|moves|].entries, name, last)
    ensures SameBut(stages[0].entries[first], stages[|moves|].entries[last], DEPENDENCY_MUTABLE_FIELDS)
    decreases |moves|
  {
    hide KernelFrame, Frame, Indexed, SameBut, Equal;
    last := first;
    if moves == [] {
      SameButReflexive(stages[0].entries[first], DEPENDENCY_MUTABLE_FIELDS);
    } else {
      ChainPrefix(stages, moves, show);
      var middle := DeclaredKept(stages[..|stages| - 1], moves[..|moves| - 1], show, name, first);
      var old_, new_, move := LastMove(stages, moves, show);
      if move.delta.Some? && move.delta.value.name == name {
        last := Key(name, move.delta.value.after);
        assert middle == Key(name, move.delta.value.before);
      } else {
        last := middle;
        assert name !in Excluded(move.delta);
        AlikeIsSameBut(old_[middle], new_[middle], DEPENDENCY_MUTABLE_FIELDS);
      }
      SameButTransitive(stages[0].entries[first], old_[middle], new_[last], DEPENDENCY_MUTABLE_FIELDS);
    }
  }

  lemma AlikeIsSameBut(before: Entry, after: Entry, mutable: set<string>)
    requires Alike(before, after)
    ensures SameBut(before, after, mutable)
  {
    NoChangedFields(before, after);
  }

  // ------------------------------------------------------------------- equal, but not identical

  function Package(name: string, version: string, optional: Value): Entry {
    map["name" := Text(name), "version" := Text(version), "optional" := optional]
  }

  function LockWith(kernel: string, hash: string, optional: Value): Lock {
    Lock([Package(KERNEL, kernel, Flag(false)), Package("click", "8.1.7", optional)],
         map["content-hash" := Text(hash)], map[])
  }

  function EntriesWith(kernel: string, optional: Value): Entries {
    map[Key(KERNEL, kernel) := Package(KERNEL, kernel, Flag(false)),
        Key("click", "8.1.7") := Package("click", "8.1.7", optional)]
  }

  lemma IndexedWith(kernel: string, hash: string, optional: Value, show: Shown)
    requires forall text :: show(Some(Text(text))) == text
    ensures Indexed(LockWith(kernel, hash, optional).packages, show, EntriesWith(kernel, optional))
  {
    assert |KERNEL| != |"click"|;
    FieldNames();
  }

  lemma FieldNames()
    ensures "name" != "version" && "name" != "optional" && "version" != "optional"
  {
    assert |"name"| == 4 && |"version"| == 7 && |"optional"| == 8;
  }

  lemma KernelEntryWith(kernel: string, optional: Value)
    ensures var entries := EntriesWith(kernel, optional);
            && (forall k :: k in entries && k.name == KERNEL <==> k == Key(KERNEL, kernel))
            && entries[Key(KERNEL, kernel)] == Package(KERNEL, kernel, Flag(false))
  {
    assert |KERNEL| != |"click"|;
    hide Package;
  }

  lemma PackagesDiffer(version: string, version': string)
    ensures var before, after := Package(KERNEL, version, Flag(false)), Package(KERNEL, version', Flag(false));
            && FromRegistry(after)
            && forall f :: f != "version" ==> Same(Get(before, f), Get(after, f))
  {
    assert |"source"| == 6;
    FieldNames();
  }

  lemma KernelMoves(optional: Value, optional': Value)
    ensures KernelFrame(EntriesWith("1", optional), EntriesWith("2", optional'), false)
  {
    var o, n := Key(KERNEL, "1"), Key(KERNEL, "2");
    assert "1"[0] != "2"[0];
    KernelEntryWith("1", optional);
    KernelEntryWith("2", optional');
    PackagesDiffer("1", "2");
    hide EntriesWith, Package, Alike, Same, KernelFrame, FromRegistry;
    KernelMoveExactly(EntriesWith("1", optional), EntriesWith("2", optional'), o, n, false);
  }

  lemma ClickKept()
    ensures var old_, new_, k := EntriesWith("1", Flag(true)), EntriesWith("2", Number(1)), Key("click", "8.1.7");
            && k in old_ && k in new_ && Alike(old_[k], new_[k]) && old_[k] != new_[k]
            && forall k': Key :: k'.name != KERNEL && (k' in old_ || k' in new_) ==> k' == k
  {
    FieldNames();
    assert |KERNEL| != |"click"|;
    assert Package("click", "8.1.7", Flag(true))["optional"] != Package("click", "8.1.7", Number(1))["optional"];
  }

  lemma HashMoves()
    ensures MetadataFrame(map["content-hash" := Text("a")], map["content-hash" := Text("b")])
  {
    assert "a"[0] != "b"[0];
  }

  lemma OneBesideKernel(before: Lock, after: Lock, old_: Entries, new_: Entries, key: Key)
    requires KernelFrame(old_, new_, false) && MetadataFrame(before.metadata, after.metadata)
    requires before.tables == after.tables
    requires key in old_ && key in new_ && Alike(old_[key], new_[key])
    requires forall k: Key :: k.name != KERNEL && (k in old_ || k in new_) ==> k == key
    ensures Frame(before, after, old_, new_, None, NoBundle)
  {
    hide KernelFrame, MetadataFrame, Equal;
    EqualReflexive(Table(before.tables));
  }

  /** A clean comparison of locks in which another package is not identical: a flag became the number it equals. */
  lemma FlagForNumber(show: Shown)
    requires forall text :: show(Some(Text(text))) == text
    ensures var before, after := LockWith("1", "a", Flag(true)), LockWith("2", "b", Number(1));
            var old_, new_ := EntriesWith("1", Flag(true)), EntriesWith("2", Number(1));
            && Indexed(before.packages, show, old_) && Indexed(after.packages, show, new_)
            && Frame(before, after, old_, new_, None, NoBundle)
            && var k := Key("click", "8.1.7"); k in old_ && k in new_ && old_[k] != new_[k]
  {
    IndexedWith("1", "a", Flag(true), show);
    IndexedWith("2", "b", Number(1), show);
    KernelMoves(Flag(true), Number(1));
    ClickKept();
    HashMoves();
    hide KernelFrame, Indexed, Package, EntriesWith, MetadataFrame, Frame;
    OneBesideKernel(LockWith("1", "a", Flag(true)), LockWith("2", "b", Number(1)),
                    EntriesWith("1", Flag(true)), EntriesWith("2", Number(1)), Key("click", "8.1.7"));
  }
}
