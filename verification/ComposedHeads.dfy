// The check, before commit, that every static head of the composed graph has been reached: a
// worklist over the names that edges give, which are not made canonical on the way.
module ComposedHeads {
  import opened Graphs
  import opened PythonText
  import opened RevisionGraph
  import opened Wrappers

  /** From a name, the names given by the edges of the revision it resolves to. */
  function NameGraph(s: Script): Graph<string>
    requires Loaded(s)
  {
    map name | name in s.names :: set n | n in EdgeNames(s.revisions[s.names[name]])
  }

  ghost function NamesReached(s: Script, applied: set<string>): set<string>
    requires Loaded(s)
  {
    Closure(NameGraph(s), applied)
  }

  datatype Failure = UnknownRevision(name: string) | Missing(heads: set<string>)

  method RequireComposedHeads(s: Script, applied: seq<string>) returns (failure: Option<Failure>)
    requires Loaded(s)
    ensures var reached := NamesReached(s, Elements(applied));
            match failure
            case None => reached <= s.names.Keys && s.heads <= reached
            case Some(UnknownRevision(name)) => name in reached && name !in s.names
            case Some(Missing(heads)) => reached <= s.names.Keys && heads == s.heads - reached != {}
  {
    hide Closure, Reaches;
    ghost var g, seeds := NameGraph(s), Elements(applied);
    ClosureIsLeast(g, seeds);
    var reached: set<string> := {};
    var pending := applied;
    while pending != []
      invariant reached <= s.names.Keys && reached <= Closure(g, seeds)
      invariant forall x :: x in pending ==> x in Closure(g, seeds)
      invariant forall x :: x in seeds ==> x in reached || x in pending
      invariant forall x, y :: x in reached && y in Next(g, x) ==> y in reached || y in pending
      decreases s.names.Keys - reached, |pending|
    {
      var name := pending[|pending| - 1];
      ghost var before := pending;
      pending := pending[..|pending| - 1];
      assert forall x :: x in before ==> x in pending || x == name;
      if name in reached {
        continue;
      }
      if name !in s.names {
        return Some(UnknownRevision(name));
      }
      reached := reached + {name};
      pending := pending + EdgeNames(s.revisions[s.names[name]]);
    }
    assert seeds <= reached && Closed(g, reached);
    assert reached == Closure(g, seeds);
    var missing := s.heads - reached;
    failure := if missing != {} then Some(Missing(missing)) else None;
  }

  /** The names collected, over the two fields: the least set with what is applied and every edge's name. */
  lemma NamesByFields(s: Script, applied: set<string>, within: set<string>)
    requires Loaded(s)
    ensures applied <= NamesReached(s, applied) && NamesFollowed(s, NamesReached(s, applied))
    ensures applied <= within && NamesFollowed(s, within) ==> NamesReached(s, applied) <= within
  {
    hide Closure, Loaded;
    ClosureIsLeast(NameGraph(s), applied);
    FollowedIsClosed(s, NamesReached(s, applied));
    FollowedIsClosed(s, within);
  }

  /** Every down revision and every dependency of a revision named in the set is named in it. */
  ghost predicate NamesFollowed(s: Script, names: set<string>)
    requires Loaded(s)
  {
    forall name :: name in names && name in s.names ==>
      && (forall n :: n in s.revisions[s.names[name]].down ==> n in names)
      && (forall n :: n in s.revisions[s.names[name]].dependencies ==> n in names)
  }

  lemma FollowedIsClosed(s: Script, names: set<string>)
    requires Loaded(s)
    ensures NamesFollowed(s, names) <==> Closed(NameGraph(s), names)
  {
    forall name | name in s.names
      ensures Next(NameGraph(s), name) <= names
         <==> && (forall n :: n in s.revisions[s.names[name]].down ==> n in names)
              && (forall n :: n in s.revisions[s.names[name]].dependencies ==> n in names)
    {
      var r := s.revisions[s.names[name]];
      assert forall n :: n in EdgeNames(r) <==> n in r.down || n in r.dependencies;
      assert forall n :: n in EdgeNames(r) <==> n in Next(NameGraph(s), name);
    }
    hide NameGraph, Loaded;
    assert forall name :: name !in s.names ==> Next(NameGraph(s), name) == {} by {
      forall name | name !in s.names ensures Next(NameGraph(s), name) == {} {
        NotNamed(s, name);
      }
    }
  }

  lemma NotNamed(s: Script, name: string)
    requires Loaded(s) && name !in s.names
    ensures Next(NameGraph(s), name) == {}
  {
  }

  // -------------------------------------------------------------- against the exact ancestry

  function Canonical(s: Script, applied: set<string>): set<string>
    requires applied <= s.names.Keys
  {
    set name | name in applied :: s.names[name]
  }

  ghost predicate NamedByEdge(s: Script, from: set<string>, name: string) {
    exists x :: x in from && x in s.revisions && name in EdgeNames(s.revisions[x])
  }

  predicate AllEdgesKnown(s: Script) {
    forall id :: id in s.revisions ==> EdgesResolve(s, id)
  }

  /**
   * A name is reached exactly when it is applied, or when some revision in the ancestry of what is
   * applied has an edge that gives this very name.
   */
  lemma NamesReachedExactly(s: Script, applied: set<string>, name: string)
    requires Loaded(s) && AllEdgesKnown(s) && applied <= s.names.Keys
    ensures name in NamesReached(s, applied)
       <==> name in applied || NamedByEdge(s, Closure(Parents(s), Canonical(s, applied)), name)
  {
    hide Closure;
    var names, ancestry := NamesReached(s, applied), Closure(Parents(s), Canonical(s, applied));
    ClosureIsLeast(NameGraph(s), applied);
    ClosureIsLeast(Parents(s), Canonical(s, applied));
    NamesAreInAncestry(s, applied, ancestry);
    var resolved := set n | n in names && n in s.names :: s.names[n];
    assert Closed(Parents(s), resolved);
    assert Canonical(s, applied) <= resolved;
  }

  lemma NamesAreInAncestry(s: Script, applied: set<string>, ancestry: set<string>)
    requires Loaded(s) && AllEdgesKnown(s) && applied <= s.names.Keys
    requires Canonical(s, applied) <= ancestry && Closed(Parents(s), ancestry)
    ensures forall name :: name in NamesReached(s, applied) ==>
              name in s.names && s.names[name] in ancestry && (name in applied || NamedByEdge(s, ancestry, name))
  {
    hide Closure, Parents, Blank;
    ClosureIsLeast(NameGraph(s), applied);
    var named := set name | name in s.names && s.names[name] in ancestry
        && (name in applied || NamedByEdge(s, ancestry, name));
    forall x, y | x in named && y in Next(NameGraph(s), x) ensures y in named {
      assert EdgesResolve(s, s.names[x]);
      ParentOf(s, s.names[x], y);
    }
    assert Closed(NameGraph(s), named);
    assert applied <= named;
  }

  /**
   * Acceptance itself, once all names are known: every static head is applied, or an edge of some
   * revision in the ancestry of what is applied gives its very name.
   */
  lemma AcceptedExactly(s: Script, applied: set<string>)
    requires Loaded(s) && AllEdgesKnown(s) && applied <= s.names.Keys
    ensures s.heads <= NamesReached(s, applied)
       <==> forall h :: h in s.heads ==> h in applied || NamedByEdge(s, Closure(Parents(s), Canonical(s, applied)), h)
  {
    hide NamesReached, NamedByEdge;
    forall h ensures h in NamesReached(s, applied)
                <==> h in applied || NamedByEdge(s, Closure(Parents(s), Canonical(s, applied)), h) {
      NamesReachedExactly(s, applied, h);
    }
  }

  /** An accepted database has every static head in the ancestry of what is applied. */
  lemma AcceptedIsComplete(s: Script, applied: set<string>)
    requires Loaded(s) && AllEdgesKnown(s) && applied <= s.names.Keys
    requires s.heads <= NamesReached(s, applied)
    ensures s.heads <= Closure(Parents(s), Canonical(s, applied))
  {
    hide Closure;
    ClosureIsLeast(Parents(s), Canonical(s, applied));
    NamesAreInAncestry(s, applied, Closure(Parents(s), Canonical(s, applied)));
  }

  /** Every edge gives a revision's own identifier, not a branch label. */
  predicate CanonicalEdges(s: Script) {
    forall id :: id in s.revisions ==> forall name :: name in EdgeNames(s.revisions[id]) ==> name in s.revisions
  }

  /** Where edges are canonical, the worklist and the recursive walk reach the same set. */
  lemma CanonicalEdgesAgree(s: Script, applied: set<string>)
    requires Loaded(s) && CanonicalEdges(s) && applied <= s.revisions.Keys
    ensures NamesReached(s, applied) == Closure(Parents(s), applied)
    ensures Ancestry(s, applied).Some? ==> NamesReached(s, applied) == Ancestry(s, applied).value
  {
    hide Closure;
    assert Canonical(s, applied) == applied;
    var names, ancestry := NamesReached(s, applied), Closure(Parents(s), applied);
    ClosureIsLeast(NameGraph(s), applied);
    ClosureIsLeast(Parents(s), applied);
    forall x, y | x in ancestry && y in Next(NameGraph(s), x) ensures y in ancestry {
      if x in s.revisions {
        assert Resolve(s, y) == Some(y);
        assert y in Next(Parents(s), x);
      } else {
        OnlyRevisions(s, applied, x);
      }
    }
    assert Closed(NameGraph(s), ancestry);
    forall x, y | x in names && y in Next(Parents(s), x) ensures y in names {
      assert y in EdgeNames(s.revisions[x]);
      assert y in Next(NameGraph(s), x);
    }
    assert Closed(Parents(s), names);
  }

  lemma ParentsAreRevisions(s: Script, x: string)
    requires Loaded(s)
    ensures Next(Parents(s), x) <= s.revisions.Keys
  {
  }

  lemma OnlyRevisions(s: Script, applied: set<string>, x: string)
    requires Loaded(s) && applied <= s.revisions.Keys && x in Closure(Parents(s), applied)
    ensures x in s.revisions
  {
    hide Closure, Reaches;
    ClosureIsLeast(Parents(s), applied);
    forall y | y in s.revisions ensures Next(Parents(s), y) <= s.revisions.Keys {
      ParentsAreRevisions(s, y);
    }
  }

  /** Revision `v` depends on module revision `m`, naming it by the branch label `b`. */
  const LABELLED := Script(map["v" := Revision([], ["b"]), "m" := Revision([], [])],
                           map["v" := "v", "m" := "m", "b" := "m"], {"v", "m"})

  lemma LabelledLoaded()
    ensures Loaded(LABELLED) && AllEdgesKnown(LABELLED)
    ensures Next(Parents(LABELLED), "v") == {"m"} && Next(Parents(LABELLED), "m") == {}
    ensures EdgeNames(LABELLED.revisions["v"]) == ["b"] && EdgeNames(LABELLED.revisions["m"]) == []
  {
    var s := LABELLED;
    assert "v"[0] == 'v' && "m"[0] == 'm' && "b"[0] == 'b';
    assert !Blank("v") && !Blank("m") && !Blank("b");
    hide Blank, IsSpace;
    assert EdgeNames(s.revisions["v"]) == ["b"] && EdgeNames(s.revisions["m"]) == [];
    assert "b" in EdgeNames(s.revisions["v"]) && Resolve(s, "b") == Some("m");
  }

  /** A complete database is refused when a static head is reached through a branch label alone. */
  lemma LabelHidesHead()
    ensures Loaded(LABELLED) && LABELLED.heads <= Closure(Parents(LABELLED), {"v"})
    ensures !(LABELLED.heads <= NamesReached(LABELLED, {"v"}))
  {
    LabelledLoaded();
    hide Closure, Loaded, AllEdgesKnown, EdgeNames;
    var s := LABELLED;
    assert "v"[0] == 'v' && "m"[0] == 'm' && "b"[0] == 'b';
    assert Canonical(s, {"v"}) == {"v"};
    ClosureIsLeast(Parents(s), {"v"});
    NamesReachedExactly(s, {"v"}, "m");
  }
}
