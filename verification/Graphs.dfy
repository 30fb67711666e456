// Reachability in finite directed graphs, used by every component that walks one.
module Graphs {
  type Graph<T> = map<T, set<T>>

  function Next<T>(g: Graph<T>, x: T): set<T> {
    if x in g then g[x] else {}
  }

  ghost predicate Path<T>(g: Graph<T>, p: seq<T>) {
    p != [] && forall i :: 0 <= i < |p| - 1 ==> p[i + 1] in Next(g, p[i])
  }

  ghost predicate Reaches<T(!new)>(g: Graph<T>, a: T, b: T) {
    exists p: seq<T> :: Path(g, p) && p[0] == a && p[|p| - 1] == b
  }

  /** A path of at least one edge leads from `x` back to `x`. */
  ghost predicate OnCycle<T(!new)>(g: Graph<T>, x: T) {
    exists y :: y in Next(g, x) && Reaches(g, y, x)
  }

  ghost predicate Closed<T>(g: Graph<T>, s: set<T>) {
    forall x :: x in s ==> Next(g, x) <= s
  }

  function Nodes<T>(g: Graph<T>): set<T> {
    g.Keys + set x, y | x in g && y in g[x] :: y
  }

  /** Everything reachable from the seeds, the seeds included. */
  ghost function Closure<T(!new)>(g: Graph<T>, seeds: set<T>): set<T> {
    set b | b in Nodes(g) + seeds && ReachedFrom(g, seeds, b)
  }

  ghost predicate ReachedFrom<T(!new)>(g: Graph<T>, seeds: set<T>, b: T) {
    exists a :: a in seeds && Reaches(g, a, b)
  }

  lemma ReachesSelf<T(!new)>(g: Graph<T>, a: T)
    ensures Reaches(g, a, a)
  {
    assert Path(g, [a]) && [a][0] == a;
  }

  lemma ReachesTrans<T(!new)>(g: Graph<T>, a: T, b: T, c: T)
    requires Reaches(g, a, b) && Reaches(g, b, c)
    ensures Reaches(g, a, c)
  {
    var p :| Path(g, p) && p[0] == a && p[|p| - 1] == b;
    var q :| Path(g, q) && q[0] == b && q[|q| - 1] == c;
    var r := p + q[1..];
    forall i | 0 <= i < |r| - 1 ensures r[i + 1] in Next(g, r[i]) {
      if i >= |p| - 1 {
        assert r[i] == q[i - |p| + 1] && r[i + 1] == q[i - |p| + 2];
      }
    }
    assert Path(g, r) && r[0] == a && r[|r| - 1] == c;
  }

  lemma ReachesStep<T(!new)>(g: Graph<T>, a: T, b: T, c: T)
    requires Reaches(g, a, b) && c in Next(g, b)
    ensures Reaches(g, a, c)
  {
    assert Path(g, [b, c]) && [b, c][0] == b && [b, c][1] == c;
    ReachesTrans(g, a, b, c);
  }

  /** Reaching something else begins with an edge. */
  lemma ReachesFirst<T(!new)>(g: Graph<T>, a: T, c: T) returns (b: T)
    requires Reaches(g, a, c) && a != c
    ensures b in Next(g, a) && Reaches(g, b, c)
  {
    var p :| Path(g, p) && p[0] == a && p[|p| - 1] == c;
    b := p[1];
    var q := p[1..];
    forall i | 0 <= i < |q| - 1 ensures q[i + 1] in Next(g, q[i]) {
      assert p[i + 1 + 1] in Next(g, p[i + 1]);
    }
    assert Path(g, q) && q[0] == b && q[|q| - 1] == c;
  }

  /** Everything on a path is reached from its start and reaches its end. */
  lemma PathSplits<T(!new)>(g: Graph<T>, p: seq<T>, i: nat)
    requires Path(g, p) && i < |p|
    ensures Reaches(g, p[0], p[i]) && Reaches(g, p[i], p[|p| - 1])
  {
    var front, back := p[..i + 1], p[i..];
    forall k | 0 <= k < |front| - 1 ensures front[k + 1] in Next(g, front[k]) {
      assert p[k + 1] in Next(g, p[k]);
    }
    forall k | 0 <= k < |back| - 1 ensures back[k + 1] in Next(g, back[k]) {
      assert p[i + k + 1] in Next(g, p[i + k]);
    }
    assert Path(g, front) && front[0] == p[0] && front[|front| - 1] == p[i];
    assert Path(g, back) && back[0] == p[i] && back[|back| - 1] == p[|p| - 1];
  }

  /** A closed set cannot be left. */
  lemma ClosedKeeps<T(!new)>(g: Graph<T>, s: set<T>, a: T, b: T)
    requires Closed(g, s) && a in s && Reaches(g, a, b)
    ensures b in s
  {
    var p :| Path(g, p) && p[0] == a && p[|p| - 1] == b;
    PathStays(g, s, p, |p| - 1);
  }

  lemma {:induction false} PathStays<T(!new)>(g: Graph<T>, s: set<T>, p: seq<T>, i: nat)
    requires Closed(g, s) && Path(g, p) && p[0] in s && i < |p|
    ensures p[i] in s
  {
    if i > 0 {
      PathStays(g, s, p, i - 1);
      assert p[i - 1 + 1] in Next(g, p[i - 1]);
    }
  }

  lemma ReachedIsNode<T(!new)>(g: Graph<T>, seeds: set<T>, a: T, b: T)
    requires a in seeds && Reaches(g, a, b)
    ensures b in Closure(g, seeds)
  {
    var s := Nodes(g) + seeds;
    assert Closed(g, s);
    ClosedKeeps(g, s, a, b);
  }

  /** The closure contains the seeds, is closed, and is contained in every set like that. */
  lemma ClosureIsLeast<T(!new)>(g: Graph<T>, seeds: set<T>)
    ensures seeds <= Closure(g, seeds) && Closed(g, Closure(g, seeds))
    ensures forall s :: seeds <= s && Closed(g, s) ==> Closure(g, seeds) <= s
  {
    forall a | a in seeds ensures a in Closure(g, seeds) {
      ReachesSelf(g, a);
    }
    forall x, y | x in Closure(g, seeds) && y in Next(g, x) ensures y in Closure(g, seeds) {
      var a :| a in seeds && Reaches(g, a, x);
      ReachesStep(g, a, x, y);
      ReachedIsNode(g, seeds, a, y);
    }
    forall s, b | seeds <= s && Closed(g, s) && b in Closure(g, seeds) ensures b in s {
      var a :| a in seeds && Reaches(g, a, b);
      ClosedKeeps(g, s, a, b);
    }
  }

  /** A closed set of reachable nodes that contains the seeds is the closure. */
  lemma IsClosure<T(!new)>(g: Graph<T>, seeds: set<T>, s: set<T>)
    requires seeds <= s && Closed(g, s)
    requires forall b :: b in s ==> ReachedFrom(g, seeds, b)
    ensures s == Closure(g, seeds)
  {
    hide Reaches, Closed;
    ClosureIsLeast(g, seeds);
    forall b | b in s ensures b in Closure(g, seeds) {
      var a :| a in seeds && Reaches(g, a, b);
      ReachedIsNode(g, seeds, a, b);
    }
  }
}
