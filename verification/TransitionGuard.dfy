// The deploy guard: which recorded head sets may be upgraded from, before any DDL is issued.
module TransitionGuard {
  import opened Graphs
  import opened RevisionGraph
  import opened Sequences
  import opened Wrappers

  const BARRIER := "dc_0015_plan_purpose"

  /** What a one-use permission is bound to when it is issued. */
  datatype Binding = Binding(connection: nat, transaction: nat, source: set<string>, target: set<string>,
                             treeDigest: string)

  /** One deploy: what its connection and configuration show to the guard. */
  datatype Deploy = Deploy(
    postgresql: bool, connection: nat, transaction: nat, heads: seq<string>, userRelations: bool,
    effectiveHeads: set<string>, treeDigest: string, permission: Option<nat>)

  predicate Matches(b: Binding, d: Deploy) {
    && d.connection == b.connection && d.transaction == b.transaction
    && Elements(d.heads) == b.source && d.effectiveHeads == b.target && d.treeDigest == b.treeDigest
  }

  datatype Refusal =
    | NotPostgresql | BadTargetGraph | TargetLacksBarrier | DuplicateHeads | BadSourceHeads | FreshnessUnproven
    | HeadsOverlap | PermissionMissing | PermissionDrift | BarrierNotReached

  /** No head is an ancestor of another. */
  ghost predicate Incomparable(s: Script, heads: set<string>) {
    forall a, b :: a in heads && b in heads && a != b ==> !Reaches(Parents(s), a, b)
  }

  /** The source is versioned, with sound, distinct and incomparable heads, over a sound target graph. */
  ghost predicate Inspected(s: Script, d: Deploy) {
    && d.postgresql
    && Ancestry(s, s.heads).Some? && BARRIER in Ancestry(s, s.heads).value
    && d.heads != [] && Distinct(d.heads) && Ancestry(s, Elements(d.heads)).Some?
    && Incomparable(s, Elements(d.heads))
  }

  ghost predicate FreshInstall(s: Script, d: Deploy) {
    && d.postgresql
    && Ancestry(s, s.heads).Some? && BARRIER in Ancestry(s, s.heads).value
    && d.heads == [] && !d.userRelations
  }

  ghost predicate Permitted(d: Deploy, live: map<nat, Binding>) {
    d.permission.Some? && d.permission.value in live && Matches(live[d.permission.value], d)
  }

  ghost predicate Admissible(s: Script, d: Deploy, live: map<nat, Binding>) {
    || FreshInstall(s, d)
    || (Inspected(s, d) && if d.permission.Some? then Permitted(d, live)
                           else BARRIER in Ancestry(s, Elements(d.heads)).value)
  }

  /** The permissions issued in this process and not yet presented. */
  class PermissionTable {
    var live: map<nat, Binding>

    constructor ()
      ensures live == map[]
    {
      live := map[];
    }

    /** `_consume_transition_permission`: presenting a permission spends it, whether or not it matches. */
    method Consume(d: Deploy, permission: nat) returns (refusal: Option<Refusal>)
      modifies this
      ensures live == old(live) - {permission}
      ensures refusal == None <==> permission in old(live) && Matches(old(live)[permission], d)
      ensures refusal == Some(PermissionMissing) <==> permission !in old(live)
    {
      if permission !in live {
        return Some(PermissionMissing);
      }
      var issued := live[permission];
      live := live - {permission};
      if d.connection != issued.connection || d.transaction != issued.transaction
         || (set h | h in d.heads) != issued.source || d.treeDigest != issued.treeDigest
         || d.effectiveHeads != issued.target {
        return Some(PermissionDrift);
      }
      refusal := None;
    }

    method RequireDeployTransition(s: Script, d: Deploy) returns (refusal: Option<Refusal>)
      requires Loaded(s)
      modifies this
      ensures refusal == None <==> Admissible(s, d, old(live))
      ensures live == if Inspected(s, d) && d.permission.Some? then old(live) - {d.permission.value} else old(live)
      ensures refusal == None ==>
                && d.postgresql
                && Ancestry(s, s.heads).Some? && "dc_0015_plan_purpose" in Ancestry(s, s.heads).value
                && Ancestry(s, Elements(d.heads)).Some?
                && (d.heads == [] ==> !d.userRelations)
                && (forall i, j :: 0 <= i < j < |d.heads| ==> d.heads[i] != d.heads[j])
                && (forall a, b :: a in d.heads && b in d.heads && a != b ==> !Reaches(Parents(s), a, b))
      ensures refusal == None && d.heads != [] && d.permission == None ==>
                "dc_0015_plan_purpose" in Ancestry(s, Elements(d.heads)).value
      ensures refusal == None && d.heads != [] && d.permission.Some? ==>
                && d.permission.value in old(live)
                && var issued := old(live)[d.permission.value];
                && d.connection == issued.connection && d.transaction == issued.transaction
                && (set h | h in d.heads) == issued.source && d.effectiveHeads == issued.target
                && d.treeDigest == issued.treeDigest
      ensures (&& d.postgresql && Ancestry(s, s.heads).Some? && "dc_0015_plan_purpose" in Ancestry(s, s.heads).value
               && d.heads == [] && !d.userRelations) ==>
                refusal == None && live == old(live)
      ensures (&& d.postgresql && Ancestry(s, s.heads).Some? && "dc_0015_plan_purpose" in Ancestry(s, s.heads).value
               && d.heads != [] && (forall i, j :: 0 <= i < j < |d.heads| ==> d.heads[i] != d.heads[j])
               && (forall a, b :: a in d.heads && b in d.heads && a != b ==> !Reaches(Parents(s), a, b))
               && Ancestry(s, Elements(d.heads)).Some?
               && d.permission == None && "dc_0015_plan_purpose" in Ancestry(s, Elements(d.heads)).value) ==>
                refusal == None && live == old(live)
      ensures (&& Inspected(s, d) && d.permission.Some? && d.permission.value in old(live)
               && old(live)[d.permission.value] ==
                    Binding(d.connection, d.transaction, (set h | h in d.heads), d.effectiveHeads, d.treeDigest)) ==>
                refusal == None
    {
      hide Ancestry, Reaches;
      if !d.postgresql {
        return Some(NotPostgresql);
      }
      var targets := SetToSeq(s.heads);
      var target := RevisionAncestry(s, targets);
      if target.Err? {
        return Some(BadTargetGraph);
      }
      if BARRIER !in target.value {
        return Some(TargetLacksBarrier);
      }
      var distinct := AllDistinct(d.heads);
      if !distinct {
        return Some(DuplicateHeads);
      }
      var source := RevisionAncestry(s, d.heads);
      if source.Err? {
        return Some(BadSourceHeads);
      }
      if d.heads == [] {
        return if d.userRelations then Some(FreshnessUnproven) else None;
      }
      var overlap := HeadsOverlapInAncestry(s, d.heads);
      if overlap {
        return Some(HeadsOverlap);
      }
      if d.permission.Some? {
        refusal := Consume(d, d.permission.value);
        return;
      }
      refusal := if BARRIER in source.value then None else Some(BarrierNotReached);
    }
  }

  method SetToSeq(s: set<string>) returns (q: seq<string>)
    ensures Elements(q) == s
  {
    q := [];
    var rest := s;
    while rest != {}
      invariant rest <= s && Elements(q) == s - rest
      decreases rest
    {
      var x :| x in rest;
      rest := rest - {x};
      ElementsAppend(q, x);
      q := q + [x];
    }
  }

  /** `len(set(heads)) == len(heads)` */
  method AllDistinct(heads: seq<string>) returns (r: bool)
    ensures r <==> Distinct(heads)
  {
    var seen: set<string> := {};
    for k := 0 to |heads|
      invariant seen == Elements(heads[..k]) && Distinct(heads[..k])
    {
      if heads[k] in seen {
        var i :| 0 <= i < k && heads[..k][i] == heads[k];
        assert heads[i] == heads[k];
        return false;
      }
      assert heads[..k + 1] == heads[..k] + [heads[k]];
      ElementsAppend(heads[..k], heads[k]);
      DistinctAppend(heads[..k], heads[k]);
      seen := seen + {heads[k]};
    }
    assert heads[..|heads|] == heads;
    r := true;
  }

  function Others(heads: seq<string>, head: string): (o: seq<string>)
    ensures Elements(o) == Elements(heads) - {head}
  {
    if heads == [] then []
    else
      var o := Others(heads[..|heads| - 1], head);
      var last := heads[|heads| - 1];
      assert heads == heads[..|heads| - 1] + [last];
      ElementsAppend(heads[..|heads| - 1], last);
      ElementsAppend(o, last);
      if last == head then o else o + [last]
  }

  /** Each head against the ancestry of all the others. */
  method HeadsOverlapInAncestry(s: Script, heads: seq<string>) returns (overlap: bool)
    requires Loaded(s) && Ancestry(s, Elements(heads)).Some?
    ensures overlap <==> !Incomparable(s, Elements(heads))
  {
    hide Ancestry, Reaches;
    for k := 0 to |heads|
      invariant forall j, a :: 0 <= j < k && a in Elements(heads) && a != heads[j] ==> !Reaches(Parents(s), a, heads[j])
    {
      var others := Others(heads, heads[k]);
      AncestryOfFewer(s, Elements(heads), Elements(others));
      var ancestry := RevisionAncestry(s, others);
      InAncestry(s, Elements(others), heads[k]);
      if heads[k] in ancestry.value {
        return true;
      }
    }
    overlap := false;
  }

  lemma AncestryOfFewer(s: Script, heads: set<string>, fewer: set<string>)
    requires Ancestry(s, heads).Some? && fewer <= heads
    ensures Ancestry(s, fewer).Some?
  {
    hide Closure, Closed, OnCycle, EdgesResolve;
    ClosureIsLeast(Parents(s), heads);
    ClosureIsLeast(Parents(s), fewer);
    assert Closure(Parents(s), fewer) <= Closure(Parents(s), heads);
  }

  lemma InAncestry(s: Script, heads: set<string>, x: string)
    requires Ancestry(s, heads).Some?
    ensures x in Ancestry(s, heads).value <==> ReachedFrom(Parents(s), heads, x)
  {
    if h :| h in heads && Reaches(Parents(s), h, x) {
      ReachedIsNode(Parents(s), heads, h, x);
    }
  }

  // ------------------------------------------------------------------------------ consequences

  ghost predicate Maximal(s: Script, among: set<string>, x: string) {
    x in among && forall y :: y in among && y != x ==> !Reaches(Parents(s), y, x)
  }

  /** The admitted heads are exactly the maximal revisions of their own ancestry. */
  lemma IncomparableHeadsAreMaximal(s: Script, heads: set<string>, x: string)
    requires Ancestry(s, heads).Some? && Incomparable(s, heads)
    ensures x in heads <==> Maximal(s, Ancestry(s, heads).value, x)
  {
    hide Reaches, OnCycle;
    var g, ancestry := Parents(s), Ancestry(s, heads).value;
    ClosureIsLeast(g, heads);
    if x in heads {
      forall y | y in ancestry && y != x ensures !Reaches(g, y, x) {
        if Reaches(g, y, x) {
          InAncestry(s, heads, y);
          var h :| h in heads && Reaches(g, h, y);
          ReachesTrans(g, h, y, x);
          assert h == x;
          BackAndForth(g, x, y);
        }
      }
    }
    if Maximal(s, ancestry, x) {
      InAncestry(s, heads, x);
      var h :| h in heads && Reaches(g, h, x);
      assert h in ancestry;
    }
  }

  lemma BackAndForth(g: Graph<string>, x: string, y: string)
    requires x != y && Reaches(g, x, y) && Reaches(g, y, x)
    ensures OnCycle(g, x)
  {
    var first := ReachesFirst(g, x, y);
    ReachesTrans(g, first, y, x);
  }
}
