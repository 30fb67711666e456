// The composed migration graph: the depth-first walk that collects a head set's exact ancestry
// and refuses unknown names and cycles.
module RevisionGraph {
  import opened Graphs
  import opened PythonText
  import opened Sequences
  import opened Wrappers

  /** One revision; both kinds of edge name their targets, a dependency possibly by a branch label. */
  datatype Revision = Revision(down: seq<string>, dependencies: seq<string>)

  /** The installed graph: canonical revisions, and what every known name resolves to. */
  datatype Script = Script(revisions: map<string, Revision>, names: map<string, string>, heads: set<string>)

  /** What Alembic guarantees of a loaded script directory. */
  predicate Loaded(s: Script) {
    && (forall name :: name in s.names ==> !Blank(name) && s.names[name] in s.revisions)
    && (forall id :: id in s.revisions ==> id in s.names && s.names[id] == id)
    && s.heads <= s.revisions.Keys
  }

  /** `script.get_revision(name)`, after the check for a malformed name. */
  function Resolve(s: Script, name: string): Option<string> {
    if !Blank(name) && name in s.names then Some(s.names[name]) else None
  }

  function EdgeNames(r: Revision): seq<string> {
    r.down + r.dependencies
  }

  /** The canonical parents of every revision. */
  function Parents(s: Script): (g: Graph<string>)
    ensures g.Keys == s.revisions.Keys
  {
    map id | id in s.revisions :: set name | name in EdgeNames(s.revisions[id]) && Resolve(s, name).Some? ::
        Resolve(s, name).value
  }

  predicate EdgesResolve(s: Script, id: string) {
    id in s.revisions && forall name :: name in EdgeNames(s.revisions[id]) ==> Resolve(s, name).Some?
  }

  // -------------------------------------------------------------- the reference definition

  /** A recorded head names its revision exactly. */
  predicate Exact(s: Script, head: string) {
    Resolve(s, head) == Some(head)
  }

  ghost predicate SoundFrom(s: Script, heads: set<string>) {
    && (forall h :: h in heads ==> Exact(s, h))
    && (forall x :: x in Closure(Parents(s), heads) ==> EdgesResolve(s, x) && !OnCycle(Parents(s), x))
  }

  /** The revisions reachable from the heads, when every name on the way is known and no cycle is met. */
  ghost function Ancestry(s: Script, heads: set<string>): Option<set<string>> {
    if SoundFrom(s, heads) then Some(Closure(Parents(s), heads)) else None
  }

  // --------------------------------------------------------------------------------- the walk

  datatype Refusal = Malformed | UnknownHead | CyclicAncestry

  /** Every refusal is about something reachable. */
  ghost predicate Defect(s: Script, root: string, refusal: Refusal) {
    match refusal
    case CyclicAncestry => exists x :: Reaches(Parents(s), root, x) && OnCycle(Parents(s), x)
    case _ => exists x :: x in s.revisions && Reaches(Parents(s), root, x) && !EdgesResolve(s, x)
  }

  /** Parents come before children, so nothing listed is on a cycle or leads outside the list. */
  ghost predicate Finished(s: Script, order: seq<string>) {
    forall i :: 0 <= i < |order| ==> EdgesResolve(s, order[i]) && Next(Parents(s), order[i]) <= Elements(order[..i])
  }

  function Elements(order: seq<string>): set<string> {
    set x | x in order
  }

  lemma FinishedClosed(s: Script, order: seq<string>)
    requires Finished(s, order)
    ensures Closed(Parents(s), Elements(order))
  {
    forall x | x in Elements(order) ensures Next(Parents(s), x) <= Elements(order) {
      var i :| 0 <= i < |order| && order[i] == x;
      assert Elements(order[..i]) <= Elements(order);
    }
  }

  lemma FinishedPrefix(s: Script, order: seq<string>, n: nat)
    requires Finished(s, order) && n <= |order|
    ensures Finished(s, order[..n])
  {
    forall i | 0 <= i < n
      ensures EdgesResolve(s, order[..n][i]) && Next(Parents(s), order[..n][i]) <= Elements(order[..n][..i])
    {
      assert order[..n][..i] == order[..i];
    }
  }

  lemma FinishedAcyclic(s: Script, order: seq<string>, x: string)
    requires Finished(s, order) && Distinct(order) && x in order
    ensures !OnCycle(Parents(s), x)
  {
    var i :| 0 <= i < |order| && order[i] == x;
    if y :| y in Next(Parents(s), x) && Reaches(Parents(s), y, x) {
      FinishedPrefix(s, order, i);
      FinishedClosed(s, order[..i]);
      assert y in Elements(order[..i]);
      ClosedKeeps(Parents(s), Elements(order[..i]), y, x);
    }
  }

  lemma FinishedExtends(s: Script, order: seq<string>, x: string)
    requires Finished(s, order) && EdgesResolve(s, x) && Next(Parents(s), x) <= Elements(order)
    ensures Finished(s, order + [x])
  {
    forall i | 0 <= i < |order + [x]|
      ensures EdgesResolve(s, (order + [x])[i]) && Next(Parents(s), (order + [x])[i]) <= Elements((order + [x])[..i])
    {
      assert (order + [x])[..i] == if i < |order| then order[..i] else order;
    }
  }

  /**
   * The state of a walk: the revisions being visited form a path of parent edges, outermost first,
   * and `order` lists the reached revisions in the order in which their visits finished.
   */
  ghost predicate Consistent(s: Script, reached: set<string>, visiting: set<string>, order: seq<string>,
                             stack: seq<string>)
  {
    && visiting == Elements(stack) && visiting <= s.revisions.Keys
    && (stack != [] ==> Path(Parents(s), stack))
    && reached == Elements(order) && Distinct(order) && Finished(s, order)
    && visiting !! reached
  }

  lemma ElementsAppend(order: seq<string>, x: string)
    ensures Elements(order + [x]) == Elements(order) + {x}
  {
    assert (order + [x])[|order|] == x && forall i :: 0 <= i < |order| ==> (order + [x])[i] == order[i];
  }

  lemma PathAppend(s: Script, stack: seq<string>, x: string)
    requires stack != [] && x in Next(Parents(s), stack[|stack| - 1])
    ensures Path(Parents(s), stack + [x]) <==> Path(Parents(s), stack)
  {
    var deeper := stack + [x];
    if Path(Parents(s), deeper) {
      forall i | 0 <= i < |stack| - 1 ensures stack[i + 1] in Next(Parents(s), stack[i]) {
        assert deeper[i + 1] in Next(Parents(s), deeper[i]);
      }
    }
  }

  /** Visiting a revision met neither among those being visited nor among those reached. */
  lemma Enter(s: Script, reached: set<string>, visiting: set<string>, order: seq<string>, stack: seq<string>,
              id: string)
    requires Loaded(s) && Consistent(s, reached, visiting, order, stack)
    requires id in s.revisions && id !in visiting && id !in reached
    requires stack != [] ==> id in Next(Parents(s), stack[|stack| - 1])
    ensures Consistent(s, reached, visiting + {id}, order, stack + [id])
  {
    ElementsAppend(stack, id);
    if stack != [] {
      PathAppend(s, stack, id);
    }
  }

  /** Leaving a revision all of whose parents are reached. */
  lemma Leave(s: Script, reached: set<string>, visiting: set<string>, order: seq<string>, stack: seq<string>,
              id: string)
    requires Loaded(s) && Consistent(s, reached, visiting, order, stack + [id])
    requires id in s.revisions && id !in Elements(stack)
    requires stack != [] ==> id in Next(Parents(s), stack[|stack| - 1])
    requires forall name :: name in EdgeNames(s.revisions[id]) ==>
        Resolve(s, name).Some? && Resolve(s, name).value in reached
    ensures Consistent(s, reached + {id}, visiting - {id}, order + [id], stack)
  {
    hide Path;
    ElementsAppend(stack, id);
    ElementsAppend(order, id);
    if stack != [] {
      PathAppend(s, stack, id);
    }
    FinishedExtends(s, order, id);
    DistinctAppend(order, id);
  }

  /** Meeting a revision that is still being visited closes a cycle. */
  lemma ClosesCycle(s: Script, stack: seq<string>, id: string)
    requires stack != [] && Path(Parents(s), stack) && id in stack && id in Next(Parents(s), stack[|stack| - 1])
    ensures Defect(s, stack[0], CyclicAncestry)
  {
    var i :| 0 <= i < |stack| && stack[i] == id;
    StackReaches(s, stack, i, |stack| - 1);
    StackReaches(s, stack, 0, |stack| - 1);
    assert OnCycle(Parents(s), stack[|stack| - 1]);
  }

  lemma StackReaches(s: Script, stack: seq<string>, i: nat, j: nat)
    requires Path(Parents(s), stack) && i <= j < |stack|
    ensures Reaches(Parents(s), stack[i], stack[j])
  {
    var p := stack[i..j + 1];
    forall k | 0 <= k < |p| - 1 ensures p[k + 1] in Next(Parents(s), p[k]) {
      assert stack[i + k + 1] in Next(Parents(s), stack[i + k]);
    }
    assert Path(Parents(s), p) && p[0] == stack[i] && p[|p| - 1] == stack[j];
  }

  lemma DeadEdge(s: Script, stack: seq<string>, name: string, refusal: Refusal)
    requires stack != [] && Path(Parents(s), stack) && stack[|stack| - 1] in s.revisions
    requires name in EdgeNames(s.revisions[stack[|stack| - 1]]) && Resolve(s, name) == None && !refusal.CyclicAncestry?
    ensures Defect(s, stack[0], refusal)
  {
    StackReaches(s, stack, 0, |stack| - 1);
    assert !EdgesResolve(s, stack[|stack| - 1]);
  }

  class AncestryWalk {
    const script: Script
    var reached: set<string>
    var visiting: set<string>
    ghost var order: seq<string>

    constructor (script: Script)
      requires Loaded(script)
      ensures this.script == script && order == [] && Valid([])
    {
      this.script := script;
      reached, visiting, order := {}, {}, [];
    }

    ghost predicate Valid(stack: seq<string>)
      reads this
    {
      Loaded(script) && Consistent(script, reached, visiting, order, stack)
    }

    method Visit(name: string, recordedHead: bool, ghost stack: seq<string>) returns (refusal: Option<Refusal>)
      requires Valid(stack)
      requires recordedHead <==> stack == []
      requires stack != [] ==> name in EdgeNames(script.revisions[stack[|stack| - 1]])
      modifies this
      ensures refusal == None ==>
                && Valid(stack) && old(reached) <= reached
                && Resolve(script, name).Some? && Resolve(script, name).value in reached
                && (recordedHead ==> Exact(script, name))
                && forall x :: x in reached && x !in old(reached) ==>
                    Reaches(Parents(script), Resolve(script, name).value, x)
      ensures refusal.Some? ==>
                if stack == [] then !Exact(script, name) || Defect(script, name, refusal.value)
                else Defect(script, stack[0], refusal.value)
      decreases script.revisions.Keys - visiting, 0
    {
      hide Reaches, OnCycle, Path, Defect, Finished, Distinct, Elements;
      refusal := None;
      var resolved := Resolve(script, name);
      if resolved == None {
        refusal := Some(if Blank(name) then Malformed else UnknownHead);
        if stack != [] {
          StackPath(stack);
          DeadEdge(script, stack, name, refusal.value);
        }
        return;
      }
      var canonical := resolved.value;
      if recordedHead && canonical != name {
        return Some(UnknownHead);
      }
      StackPath(stack);
      if stack != [] {
        ParentOf(script, stack[|stack| - 1], name);
      }
      if canonical in visiting {
        ClosesCycle(script, stack, canonical);
        return Some(CyclicAncestry);
      }
      if canonical in reached {
        return;
      }
      Enter(script, reached, visiting, order, stack, canonical);
      visiting := visiting + {canonical};
      ghost var deeper := stack + [canonical];
      refusal := VisitAll(canonical, deeper);
      if refusal.Some? {
        return;
      }
      Leave(script, reached, visiting, order, stack, canonical);
      ReachesSelf(Parents(script), canonical);
      visiting := visiting - {canonical};
      reached := reached + {canonical};
      order := order + [canonical];
    }

    /** What the walk keeps about its stack, as needed to report a defect. */
    lemma StackPath(stack: seq<string>)
      requires Valid(stack)
      ensures visiting == Elements(stack) && forall x :: x in visiting <==> x in stack
      ensures stack != [] ==> Path(Parents(script), stack) && stack[|stack| - 1] in script.revisions
    {
    }

    /** The edges of one revision, in both kinds. */
    method VisitAll(canonical: string, ghost stack: seq<string>) returns (refusal: Option<Refusal>)
      requires stack != [] && stack[|stack| - 1] == canonical && Valid(stack) && canonical in script.revisions
      modifies this
      ensures refusal == None ==>
                && Valid(stack) && old(reached) <= reached
                && (forall name :: name in EdgeNames(script.revisions[canonical]) ==>
                      Resolve(script, name).Some? && Resolve(script, name).value in reached)
      ensures refusal == None ==>
                forall x :: x in reached && x !in old(reached) ==> Reaches(Parents(script), canonical, x)
      ensures refusal.Some? ==> Defect(script, stack[0], refusal.value)
      decreases script.revisions.Keys - visiting, 1
    {
      hide Reaches, OnCycle, Path, Defect, Finished, Distinct, Elements;
      refusal := None;
      var parents := EdgeNames(script.revisions[canonical]);
      for k := 0 to |parents|
        invariant refusal == None && Valid(stack) && old(reached) <= reached && visiting == old(visiting)
        invariant forall j :: 0 <= j < k ==>
                    Resolve(script, parents[j]).Some? && Resolve(script, parents[j]).value in reached
        invariant forall x :: x in reached && x !in old(reached) ==> Reaches(Parents(script), canonical, x)
      {
        ghost var before := reached;
        refusal := Visit(parents[k], false, stack);
        if refusal.Some? {
          return;
        }
        ghost var parent := Resolve(script, parents[k]).value;
        ParentOf(script, canonical, parents[k]);
        forall x | x in reached && x !in before ensures Reaches(Parents(script), canonical, x) {
          ThroughParent(script, canonical, parent, x);
        }
      }
      forall name | name in parents
        ensures Resolve(script, name).Some? && Resolve(script, name).value in reached
      {
        var j :| 0 <= j < |parents| && parents[j] == name;
      }
    }
  }

  /** `_revision_ancestry`: visit every recorded head. */
  method RevisionAncestry(s: Script, heads: seq<string>) returns (r: Result<set<string>, Refusal>)
    requires Loaded(s)
    ensures r.Ok? <==> Ancestry(s, Elements(heads)).Some?
    ensures r.Ok? ==> r.value == Ancestry(s, Elements(heads)).value
    ensures r.Err? ==> exists h :: h in heads && (!Exact(s, h) || Defect(s, h, r.error))
    ensures r.Ok? ==> && Elements(heads) <= r.value && ClosedByFields(s, r.value) && AcyclicByFields(s, r.value)
                      && LeastByFields(s, Elements(heads), r.value)
  {
    hide Reaches, OnCycle, Path, Finished, Distinct, Closure, Ancestry, Defect;
    hide ClosedByFields, AcyclicByFields, LeastByFields;
    var walk := new AncestryWalk(s);
    assert walk.reached == {};
    for k := 0 to |heads|
      invariant walk.Valid([]) && walk.script == s
      invariant forall j :: 0 <= j < k ==> Exact(s, heads[j]) && heads[j] in walk.reached
      invariant forall x :: x in walk.reached ==> ReachedFrom(Parents(s), Elements(heads), x)
    {
      ghost var before := walk.reached;
      var refusal := walk.Visit(heads[k], true, []);
      if refusal.Some? {
        NoAncestry(s, Elements(heads), heads[k], refusal.value);
        return Err(refusal.value);
      }
      forall x | x in walk.reached && x !in before ensures ReachedFrom(Parents(s), Elements(heads), x) {
        assert heads[k] in Elements(heads) && Reaches(Parents(s), heads[k], x);
      }
    }
    IsAncestry(s, Elements(heads), walk.order);
    AncestryByFields(s, Elements(heads));
    r := Ok(walk.reached);
  }

  lemma NoAncestry(s: Script, heads: set<string>, head: string, refusal: Refusal)
    requires head in heads && (!Exact(s, head) || Defect(s, head, refusal))
    ensures Ancestry(s, heads) == None
  {
    if Exact(s, head) {
      forall x | Reaches(Parents(s), head, x) ensures x in Closure(Parents(s), heads) {
        ReachedIsNode(Parents(s), heads, head, x);
      }
    }
  }

  lemma IsAncestry(s: Script, heads: set<string>, order: seq<string>)
    requires Loaded(s) && Finished(s, order) && Distinct(order)
    requires forall h :: h in heads ==> Exact(s, h) && h in order
    requires forall x :: x in order ==> ReachedFrom(Parents(s), heads, x)
    ensures Ancestry(s, heads) == Some(Elements(order))
  {
    hide Reaches, OnCycle, Closure;
    FinishedClosed(s, order);
    IsClosure(Parents(s), heads, Elements(order));
    forall x | x in Elements(order) ensures EdgesResolve(s, x) && !OnCycle(Parents(s), x) {
      FinishedAcyclic(s, order, x);
    }
  }

  lemma ParentOf(s: Script, child: string, name: string)
    requires child in s.revisions && name in EdgeNames(s.revisions[child]) && Resolve(s, name).Some?
    ensures Resolve(s, name).value in Next(Parents(s), child)
  {
  }

  lemma ThroughParent(s: Script, child: string, parent: string, x: string)
    requires parent in Next(Parents(s), child) && Reaches(Parents(s), parent, x)
    ensures Reaches(Parents(s), child, x)
  {
    ReachesSelf(Parents(s), child);
    ReachesStep(Parents(s), child, child, parent);
    ReachesTrans(Parents(s), child, parent, x);
  }

  // ------------------------------------------------------------------- in terms of the two fields

  /** One revision is named by an edge of another. */
  predicate NamesParent(s: Script, child: string, name: string) {
    child in s.revisions && (name in s.revisions[child].down || name in s.revisions[child].dependencies)
  }

  /** A revision, with every down revision and every dependency known and in the set. */
  ghost predicate ParentsIn(s: Script, within: set<string>, x: string) {
    && x in s.revisions
    && (forall name :: name in s.revisions[x].down ==> name in s.names && s.names[name] in within)
    && (forall name :: name in s.revisions[x].dependencies ==> name in s.names && s.names[name] in within)
  }

  ghost predicate ClosedByFields(s: Script, within: set<string>) {
    forall x :: x in within ==> ParentsIn(s, within, x)
  }

  /** Contained in every set like that which holds the heads. */
  ghost predicate LeastByFields(s: Script, heads: set<string>, a: set<string>) {
    forall other: set<string> :: ClosedByFields(s, other) && heads <= other ==> a <= other
  }

  ghost predicate Follows(s: Script, child: string, parent: string) {
    exists name :: NamesParent(s, child, name) && name in s.names && s.names[name] == parent
  }

  /** Each revision of the sequence is named by an edge of the one before. */
  ghost predicate Lineage(s: Script, p: seq<string>) {
    forall i :: 0 <= i < |p| - 1 ==> Follows(s, p[i], p[i + 1])
  }

  /** No lineage comes back to where it began. */
  ghost predicate AcyclicByFields(s: Script, among: set<string>) {
    forall p: seq<string> :: |p| > 1 && p[0] in among && Lineage(s, p) ==> p[0] != p[|p| - 1]
  }

  lemma ParentsByFields(s: Script, x: string, y: string)
    requires Loaded(s)
    ensures y in Next(Parents(s), x) <==> Follows(s, x, y)
  {
    if name :| NamesParent(s, x, name) && name in s.names && s.names[name] == y {
      assert name in EdgeNames(s.revisions[x]) && Resolve(s, name) == Some(y);
    }
  }

  lemma LineageIsPath(s: Script, p: seq<string>)
    requires Loaded(s) && p != []
    ensures Lineage(s, p) <==> Path(Parents(s), p)
  {
    hide Parents, Loaded, Follows;
    forall x, y ensures y in Next(Parents(s), x) <==> Follows(s, x, y) {
      ParentsByFields(s, x, y);
    }
  }

  lemma ClosedAt(s: Script, t: set<string>, x: string)
    requires Loaded(s)
    ensures ParentsIn(s, t, x) <==> EdgesResolve(s, x) && Next(Parents(s), x) <= t
  {
    if x in s.revisions {
      var edges := EdgeNames(s.revisions[x]);
      assert forall name :: name in edges <==> name in s.revisions[x].down || name in s.revisions[x].dependencies;
      hide EdgeNames;
      assert forall name :: name in edges && name in s.names ==> s.names[name] in Next(Parents(s), x);
    }
  }

  lemma ClosedWithoutParents(s: Script, t: set<string>)
    requires Loaded(s)
    ensures ClosedByFields(s, t) <==> Closed(Parents(s), t) && forall x :: x in t ==> EdgesResolve(s, x)
  {
    hide Parents, Loaded, EdgesResolve, ParentsIn;
    forall x ensures ParentsIn(s, t, x) <==> EdgesResolve(s, x) && Next(Parents(s), x) <= t {
      ClosedAt(s, t, x);
    }
  }

  /** What an ancestry is, over the fields: closed, free of cycles, and least. */
  lemma AncestryByFields(s: Script, heads: set<string>)
    requires Loaded(s) && Ancestry(s, heads).Some?
    ensures var a := Ancestry(s, heads).value;
            heads <= a && ClosedByFields(s, a) && AcyclicByFields(s, a) && LeastByFields(s, heads, a)
  {
    hide Closure, OnCycle, Loaded, ClosedByFields, Parents, EdgesResolve, Exact;
    var g, a := Parents(s), Ancestry(s, heads).value;
    ClosureIsLeast(g, heads);
    ClosedWithoutParents(s, a);
    forall other: set<string> | ClosedByFields(s, other) && heads <= other
      ensures a <= other
    {
      ClosedWithoutParents(s, other);
    }
    forall p: seq<string> | |p| > 1 && p[0] in a && Lineage(s, p) ensures p[0] != p[|p| - 1] {
      NoWayBack(s, p);
      assert !OnCycle(g, p[0]);
    }
  }

  lemma NoWayBack(s: Script, p: seq<string>)
    requires Loaded(s) && |p| > 1 && Lineage(s, p)
    ensures p[0] == p[|p| - 1] ==> OnCycle(Parents(s), p[0])
  {
    hide Parents, Loaded, NamesParent, Lineage, Reaches;
    LineageIsPath(s, p);
    assert p[0 + 1] in Next(Parents(s), p[0]);
    PathSplits(Parents(s), p, 1);
  }

  /** An unknown down revision or dependency anywhere below a head refuses. */
  lemma UnknownNameRefused(s: Script, heads: set<string>, p: seq<string>, name: string)
    requires Loaded(s) && p != [] && p[0] in heads && Lineage(s, p)
    requires NamesParent(s, p[|p| - 1], name) && name !in s.names
    ensures Ancestry(s, heads) == None
  {
    hide Ancestry, Loaded, NamesParent, Follows, Lineage, ClosedByFields, AcyclicByFields, LeastByFields;
    if Ancestry(s, heads).Some? {
      AncestryByFields(s, heads);
      LineageStays(s, Ancestry(s, heads).value, p, |p| - 1);
      KnownByFields(s, Ancestry(s, heads).value, p[|p| - 1], name);
    }
  }

  /** And so does a lineage below a head that comes back to one of its revisions. */
  lemma ReturnRefused(s: Script, heads: set<string>, p: seq<string>, i: nat)
    requires Loaded(s) && p != [] && p[0] in heads && Lineage(s, p)
    requires i < |p| - 1 && p[i] == p[|p| - 1]
    ensures Ancestry(s, heads) == None
  {
    var back := p[i..];
    LineageSuffix(s, p, i);
    hide Ancestry, Loaded, Lineage, ClosedByFields, LeastByFields, AcyclicByFields;
    if Ancestry(s, heads).Some? {
      AncestryByFields(s, heads);
      LineageStays(s, Ancestry(s, heads).value, p, i);
      NoReturn(s, Ancestry(s, heads).value, back);
    }
  }

  lemma NoReturn(s: Script, a: set<string>, p: seq<string>)
    requires AcyclicByFields(s, a) && |p| > 1 && p[0] in a && Lineage(s, p)
    ensures p[0] != p[|p| - 1]
  {
  }

  lemma LineageSuffix(s: Script, p: seq<string>, i: nat)
    requires Lineage(s, p) && i < |p|
    ensures var back := p[i..]; Lineage(s, back) && back[0] == p[i] && back[|back| - 1] == p[|p| - 1]
  {
    hide Follows;
    var back := p[i..];
    forall j | 0 <= j < |back| - 1 ensures Follows(s, back[j], back[j + 1]) {
      assert Follows(s, p[i + j], p[i + j + 1]);
    }
  }

  lemma KnownByFields(s: Script, a: set<string>, x: string, name: string)
    requires ClosedByFields(s, a) && x in a && NamesParent(s, x, name)
    ensures name in s.names && s.names[name] in a
  {
  }

  lemma {:induction false} LineageStays(s: Script, a: set<string>, p: seq<string>, i: nat)
    requires ClosedByFields(s, a) && i < |p| && p[0] in a && Lineage(s, p)
    ensures p[i] in a
  {
    if i > 0 {
      LineageStays(s, a, p, i - 1);
      assert Follows(s, p[i - 1], p[i - 1 + 1]);
      var name :| NamesParent(s, p[i - 1], name) && name in s.names && s.names[name] == p[i];
      KnownByFields(s, a, p[i - 1], name);
    }
  }

  /**
   * Heads are accepted when they and all that they lead to are known revisions, and some rank falls
   * along every edge, so that no lineage comes back.
   */
  lemma RankedIsAccepted(s: Script, heads: set<string>, t: set<string>, rank: map<string, nat>)
    requires Loaded(s) && heads <= t && t <= rank.Keys && ClosedByFields(s, t)
    requires forall x, name :: x in t && NamesParent(s, x, name) && name in s.names && s.names[name] in t ==>
               rank[s.names[name]] < rank[x]
    ensures Ancestry(s, heads).Some?
  {
    hide Closure, Reaches, Parents, ClosedByFields, EdgesResolve, OnCycle;
    RanksFall(s, t, rank);
    ClosedWithoutParents(s, t);
    ClosureIsLeast(Parents(s), heads);
    KnownIsExact(s, heads, t);
    hide Loaded, Exact;
    forall x | x in Closure(Parents(s), heads) ensures !OnCycle(Parents(s), x) {
      RankedNoCycle(Parents(s), t, rank, x);
    }
  }

  lemma KnownIsExact(s: Script, heads: set<string>, t: set<string>)
    requires Loaded(s) && heads <= t && ClosedByFields(s, t)
    ensures forall h :: h in heads ==> Exact(s, h)
  {
  }

  lemma RankedNoCycle(g: Graph<string>, t: set<string>, rank: map<string, nat>, x: string)
    requires Closed(g, t) && t <= rank.Keys && x in t
    requires forall a, b :: a in t && b in Next(g, a) ==> b in t && rank[b] < rank[a]
    ensures !OnCycle(g, x)
  {
    hide Reaches;
    if y :| y in Next(g, x) && Reaches(g, y, x) {
      var lower := set z | z in t && rank[z] < rank[x];
      assert Closed(g, lower);
      ClosedKeeps(g, lower, y, x);
    }
  }

  lemma RanksFall(s: Script, t: set<string>, rank: map<string, nat>)
    requires Loaded(s) && t <= rank.Keys && ClosedByFields(s, t)
    requires forall x, name :: x in t && NamesParent(s, x, name) && name in s.names && s.names[name] in t ==>
               rank[s.names[name]] < rank[x]
    ensures forall x, y :: x in t && y in Next(Parents(s), x) ==> y in t && rank[y] < rank[x]
  {
    hide Parents;
    forall x, y | x in t && y in Next(Parents(s), x) ensures y in t && rank[y] < rank[x] {
      ParentsByFields(s, x, y);
    }
  }
}
