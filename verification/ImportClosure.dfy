// The executable Python surface: every file the entry points reach through repository-local
// imports. Files are numbered in the order in which their paths sort.
module ImportClosure {
  import opened Graphs
  import opened Wrappers

  type File = nat

  /** The components of a dotted module name. */
  type Module = seq<string>

  /** What each file imports, the names files import as, where symbolic links lead, and the standard library's names. */
  datatype Tree = Tree(imports: map<File, seq<Module>>, index: map<Module, File>, links: map<File, File>,
                       stdlib: set<string>)

  /** `path.resolve()` */
  function Resolve(t: Tree, file: File): File {
    if file in t.links then t.links[file] else file
  }

  /** Resolving leads to a file that is not itself a link. */
  predicate LinksResolved(t: Tree) {
    forall f :: f in t.links ==> Resolve(t, t.links[f]) == t.links[f]
  }

  /** The length of the longest indexed prefix, or 0; a prefix of one component is tried like the others. */
  function LongestIndexed(t: Tree, module_: Module, size: nat): (n: nat)
    requires size <= |module_|
    ensures n <= size && (n > 0 ==> module_[..n] in t.index)
    ensures forall m :: n < m <= size ==> module_[..m] !in t.index
  {
    if size == 0 || module_[..size] in t.index then size else LongestIndexed(t, module_, size - 1)
  }

  /** How many components of an import are used to find its file; 0 when it is not found here. */
  function UsedPrefix(t: Tree, module_: Module): (n: nat)
    ensures n <= |module_| && (n > 0 ==> module_[..n] in t.index)
  {
    if module_ == [] || module_[0] in t.stdlib then 0 else LongestIndexed(t, module_, |module_|)
  }

  /** `_repo_local_target` */
  function LocalTarget(t: Tree, module_: Module): Option<File> {
    var n := UsedPrefix(t, module_);
    if n == 0 then None else Some(t.index[module_[..n]])
  }

  /** A longer import is served by its bare first component exactly when no longer prefix is indexed. */
  lemma BareNameConsulted(t: Tree, module_: Module)
    requires |module_| > 1
    ensures UsedPrefix(t, module_) == 1
       <==> && module_[0] !in t.stdlib && [module_[0]] in t.index
            && forall n :: 1 < n <= |module_| ==> module_[..n] !in t.index
    ensures UsedPrefix(t, module_) == 1 ==> LocalTarget(t, module_) == Some(t.index[[module_[0]]])
  {
    assert module_[..1] == [module_[0]];
  }

  /**
   * The file an import names: that of its longest indexed prefix, unless the standard library has the first
   * component.
   */
  lemma NamesExactly(t: Tree, module_: Module, file: File)
    ensures LocalTarget(t, module_) == Some(file)
       <==> && module_ != [] && module_[0] !in t.stdlib
            && exists n :: && 0 < n <= |module_| && module_[..n] in t.index && t.index[module_[..n]] == file
                           && forall m :: n < m <= |module_| ==> module_[..m] !in t.index
  {
  }

  function Targets(t: Tree, modules: seq<Module>): set<File> {
    set m | m in modules && LocalTarget(t, m).Some? :: Resolve(t, LocalTarget(t, m).value)
  }

  /** From each file to the repository files it imports. */
  function ImportGraph(t: Tree): Graph<File> {
    map f | f in t.imports :: Targets(t, t.imports[f])
  }

  function Resolved(t: Tree, seeds: set<File>): set<File> {
    set f | f in seeds :: Resolve(t, f)
  }

  /** The files in scope: the least set holding the seeds and everything its members import. */
  ghost function Surface(t: Tree, seeds: set<File>): set<File> {
    Closure(ImportGraph(t), Resolved(t, seeds))
  }

  // ----------------------------------------------------------------------------- the worklist

  predicate Ascending(s: seq<File>) {
    forall i, j :: 0 <= i < j < |s| ==> s[i] < s[j]
  }

  function Members(s: seq<File>): set<File> {
    set f | f in s
  }

  lemma MembersAppend(s: seq<File>, f: File)
    ensures Members(s + [f]) == Members(s) + {f}
    ensures forall x :: x in s + [f] <==> x in s || x == f
  {
    assert (s + [f])[|s|] == f && forall i :: 0 <= i < |s| ==> (s + [f])[i] == s[i];
  }

  /** `sorted(surface)`, as selection of the least remaining file. */
  method Sorted(files: set<File>) returns (s: seq<File>)
    ensures Ascending(s) && Members(s) == files
  {
    s := [];
    var rest := files;
    while rest != {}
      invariant rest <= files && Members(s) == files - rest && Ascending(s)
      invariant forall i, y :: 0 <= i < |s| && y in rest ==> s[i] < y
      decreases rest
    {
      ghost var _ := Least(rest);
      var least :| least in rest && forall x :: x in rest ==> least <= x;
      rest := rest - {least};
      MembersAppend(s, least);
      s := s + [least];
    }
  }

  lemma {:induction false} Least(files: set<File>) returns (least: File)
    requires files != {}
    ensures least in files && forall x :: x in files ==> least <= x
  {
    var f :| f in files;
    var rest := files - {f};
    least := f;
    if rest != {} {
      var g := Least(rest);
      if g < f {
        least := g;
      }
    }
    forall x | x in files ensures least <= x {
      assert x == f || x in rest;
    }
  }

  method ImportClosure(t: Tree, seeds: set<File>) returns (surface: seq<File>)
    ensures Ascending(surface) && Members(surface) == Surface(t, seeds)
  {
    hide Closure, Reaches, LocalTarget;
    ghost var g, start := ImportGraph(t), Resolved(t, seeds);
    ClosureIsLeast(g, start);
    var found := Resolved(t, seeds);
    var frontier := Sorted(found);
    while frontier != []
      invariant start <= found <= Closure(g, start)
      invariant Members(frontier) <= found
      invariant forall x :: x in found && x !in frontier ==> Next(g, x) <= found
      decreases Closure(g, start) - found, |frontier|
    {
      var file := frontier[|frontier| - 1];
      ghost var before := frontier;
      frontier := frontier[..|frontier| - 1];
      assert forall x :: x in before ==> x in frontier || x == file;
      var modules := if file in t.imports then t.imports[file] else [];
      ghost var popped, known := frontier, found;
      for k := 0 to |modules|
        invariant known <= found <= Closure(g, start)
        invariant Members(frontier) <= found && Members(popped) <= Members(frontier)
        invariant forall x :: x in found && x !in known ==> x in frontier
        invariant found == known ==> frontier == popped
        invariant forall j :: 0 <= j < k && LocalTarget(t, modules[j]).Some? ==>
            Resolve(t, LocalTarget(t, modules[j]).value) in found
      {
        var target := LocalTarget(t, modules[k]);
        if target.Some? {
          var resolved := Resolve(t, target.value);
          if resolved !in found {
            assert resolved in Next(g, file);
            found := found + {resolved};
            MembersAppend(frontier, resolved);
            frontier := frontier + [resolved];
          }
        }
      }
      assert Next(g, file) <= found;
      forall x | x in found && x !in frontier ensures Next(g, x) <= found {
        assert x in known && x !in Members(frontier);
        assert x !in popped;
      }
    }
    assert Closed(g, found);
    surface := Sorted(found);
  }

  // ------------------------------------------------------------------------------ consequences

  /** The surface contains the resolved seeds and what its members import, and nothing it need not. */
  lemma SurfaceIsLeast(t: Tree, seeds: set<File>, within: set<File>)
    ensures Resolved(t, seeds) <= Surface(t, seeds)
    ensures forall f, m :: f in Surface(t, seeds) && f in t.imports && m in t.imports[f] && LocalTarget(t, m).Some? ==>
              Resolve(t, LocalTarget(t, m).value) in Surface(t, seeds)
    ensures Resolved(t, seeds) <= within && Closed(ImportGraph(t), within) ==> Surface(t, seeds) <= within
  {
    hide Closure, LocalTarget;
    ClosureIsLeast(ImportGraph(t), Resolved(t, seeds));
    forall f, m | f in Surface(t, seeds) && f in t.imports && m in t.imports[f] && LocalTarget(t, m).Some?
      ensures Resolve(t, LocalTarget(t, m).value) in Surface(t, seeds)
    {
      assert Resolve(t, LocalTarget(t, m).value) in Next(ImportGraph(t), f);
    }
  }

  /**
   * A file of the surface that imports a module indexed under its full name has that file, links resolved,
   * beside it.
   */
  lemma FullNameInSurface(t: Tree, seeds: set<File>, file: File, module_: Module)
    requires file in Surface(t, seeds) && file in t.imports && module_ in t.imports[file]
    requires module_ != [] && module_[0] !in t.stdlib && module_ in t.index
    ensures var target := t.index[module_];
            (if target in t.links then t.links[target] else target) in Surface(t, seeds)
  {
    assert module_[..|module_|] == module_;
    NamesExactly(t, module_, t.index[module_]);
    SurfaceIsLeast(t, seeds, {});
  }

  /** Every seed, links resolved, is in the surface. */
  lemma SeedInSurface(t: Tree, seeds: set<File>, file: File)
    requires file in seeds
    ensures (if file in t.links then t.links[file] else file) in Surface(t, seeds)
  {
    SurfaceIsLeast(t, seeds, {});
    assert Resolve(t, file) in Resolved(t, seeds);
  }

  lemma SurfaceIsMonotone(t: Tree, seeds: set<File>, more: set<File>)
    requires seeds <= more
    ensures Surface(t, seeds) <= Surface(t, more)
  {
    hide Closure;
    ClosureIsLeast(ImportGraph(t), Resolved(t, seeds));
    ClosureIsLeast(ImportGraph(t), Resolved(t, more));
  }

  /** Taking the surface as the seeds gives the surface again. */
  lemma SurfaceIsIdempotent(t: Tree, seeds: set<File>)
    requires LinksResolved(t)
    ensures Surface(t, Surface(t, seeds)) == Surface(t, seeds)
  {
    hide Closure, LocalTarget;
    var g, surface := ImportGraph(t), Surface(t, seeds);
    ClosureIsLeast(g, Resolved(t, seeds));
    var fixed := set f | f in surface && Resolve(t, f) == f;
    assert Closed(g, fixed);
    assert Resolved(t, seeds) <= fixed;
    assert Resolved(t, surface) == surface;
    ClosureIsLeast(g, surface);
  }

  /** Two ascending sequences of the same files are the same sequence. */
  lemma {:induction false} AscendingIsUnique(a: seq<File>, b: seq<File>)
    requires Ascending(a) && Ascending(b) && Members(a) == Members(b)
    ensures a == b
  {
    if a != [] && b != [] {
      assert a[0] in Members(b) && b[0] in Members(a);
      assert a[0] == b[0];
      assert Members(a[1..]) == Members(a) - {a[0]};
      assert Members(b[1..]) == Members(b) - {b[0]};
      AscendingIsUnique(a[1..], b[1..]);
    } else {
      NoMembers(a);
      NoMembers(b);
    }
  }

  lemma NoMembers(s: seq<File>)
    ensures Members(s) == {} <==> s == []
  {
    if s != [] {
      assert s[0] in Members(s);
    }
  }
}
