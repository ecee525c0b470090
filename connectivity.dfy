/**
  Cells of a text canvas and their connected regions.

  Both canvas engines flood-fill "the connected region of the seed": the set of
  cells of one colour that can be reached from the seed by steps between
  neighbouring cells of that colour. This module states that notion once, over an
  arbitrary neighbour relation, and proves the two facts every fill proof needs:
  a region is closed under neighbour steps, and every closed set that holds the
  seed contains the region.
 */
module Connectivity {

  /** A canvas cell, 0-based: column `x`, row `y`. */
  datatype Cell = Cell(x: int, y: int)

  /** Edge neighbours: the cells directly left, right, above and below. */
  predicate Adjacent4(p: Cell, q: Cell)
  {
    (p.x == q.x && (p.y == q.y + 1 || q.y == p.y + 1)) ||
    (p.y == q.y && (p.x == q.x + 1 || q.x == p.x + 1))
  }

  /** Edge or corner neighbours: the eight cells around `p`. */
  predicate Adjacent8(p: Cell, q: Cell)
  {
    p != q && -1 <= p.x - q.x <= 1 && -1 <= p.y - q.y <= 1
  }

  /** The neighbour relation of a 4-way (`b4`) or 8-way fill. */
  function Adjacency(b4: bool): (Cell, Cell) -> bool
  {
    if b4 then (p: Cell, q: Cell) => Adjacent4(p, q) else (p: Cell, q: Cell) => Adjacent8(p, q)
  }

  lemma AdjacencyHolds(b4: bool, p: Cell, q: Cell)
    ensures Adjacency(b4)(p, q) == if b4 then Adjacent4(p, q) else Adjacent8(p, q)
  {
  }

  /** Horizontal and vertical steps are steps of both fills. */
  lemma EdgeStepIsStep(b4: bool, p: Cell, q: Cell)
    requires Adjacent4(p, q)
    ensures Adjacency(b4)(p, q)
  {
  }

  /** Neither neighbour relation relates a cell to itself, and both are symmetric. */
  lemma AdjacencySymmetric(b4: bool, p: Cell, q: Cell)
    ensures Adjacency(b4)(p, q) == Adjacency(b4)(q, p)
    ensures !Adjacency(b4)(p, p)
  {
  }

  /** `path` is a non-empty walk inside `s` whose consecutive cells are neighbours. */
  ghost predicate IsPath<T(!new)>(s: set<T>, adj: (T, T) -> bool, path: seq<T>)
  {
    && |path| > 0
    && (forall i :: 0 <= i < |path| ==> path[i] in s)
    && (forall i :: 0 <= i < |path| - 1 ==> adj(path[i], path[i + 1]))
  }

  ghost predicate Reachable<T(!new)>(s: set<T>, adj: (T, T) -> bool, a: T, b: T)
  {
    exists path :: IsPath(s, adj, path) && path[0] == a && path[|path| - 1] == b
  }

  /** The connected region of `seed` inside `s`; empty when `seed` is not in `s`. */
  ghost function Component<T(!new)>(s: set<T>, adj: (T, T) -> bool, seed: T): (c: set<T>)
    ensures c <= s
  {
    set p | p in s && Reachable(s, adj, seed, p)
  }

  /** No neighbour step leads from `d` to a cell of `s` outside `d`. */
  ghost predicate Closed<T(!new)>(d: set<T>, s: set<T>, adj: (T, T) -> bool)
  {
    forall p, q :: p in d && q in s && adj(p, q) ==> q in d
  }

  lemma SeedInComponent<T(!new)>(s: set<T>, adj: (T, T) -> bool, seed: T)
    requires seed in s
    ensures seed in Component(s, adj, seed)
  {
    assert IsPath(s, adj, [seed]);
  }

  lemma SeedOutsideMeansEmpty<T(!new)>(s: set<T>, adj: (T, T) -> bool, seed: T)
    requires seed !in s
    ensures Component(s, adj, seed) == {}
  {
    forall path | IsPath(s, adj, path) ensures path[0] != seed {
      assert path[0] in s;
    }
  }

  /** One neighbour step from the region, inside `s`, stays in the region. */
  lemma StepInComponent<T(!new)>(s: set<T>, adj: (T, T) -> bool, seed: T, p: T, q: T)
    requires p in Component(s, adj, seed) && q in s && adj(p, q)
    ensures q in Component(s, adj, seed)
  {
    var path :| IsPath(s, adj, path) && path[0] == seed && path[|path| - 1] == p;
    var longer := path + [q];
    assert IsPath(s, adj, longer);
  }

  lemma ComponentClosed<T(!new)>(s: set<T>, adj: (T, T) -> bool, seed: T)
    ensures Closed(Component(s, adj, seed), s, adj)
  {
    forall p, q | p in Component(s, adj, seed) && q in s && adj(p, q)
      ensures q in Component(s, adj, seed)
    {
      StepInComponent(s, adj, seed, p, q);
    }
  }

  lemma {:induction false} PathStaysInClosed<T(!new)>(d: set<T>, s: set<T>, adj: (T, T) -> bool, path: seq<T>, i: nat)
    requires IsPath(s, adj, path) && path[0] in d && Closed(d, s, adj)
    requires i < |path|
    ensures path[i] in d
    decreases i
  {
    if i > 0 {
      PathStaysInClosed(d, s, adj, path, i - 1);
    }
  }

  /** The region is the least closed set holding the seed. */
  lemma ClosedContainsComponent<T(!new)>(d: set<T>, s: set<T>, adj: (T, T) -> bool, seed: T)
    requires seed in d && Closed(d, s, adj)
    ensures Component(s, adj, seed) <= d
  {
    forall p | p in Component(s, adj, seed) ensures p in d {
      var path :| IsPath(s, adj, path) && path[0] == seed && path[|path| - 1] == p;
      PathStaysInClosed(d, s, adj, path, |path| - 1);
    }
  }

  /** A closed subset of `s` that holds the seed and lies in the region is the region. */
  lemma ComponentCharacterized<T(!new)>(d: set<T>, s: set<T>, adj: (T, T) -> bool, seed: T)
    requires seed in d && Closed(d, s, adj) && d <= Component(s, adj, seed)
    ensures d == Component(s, adj, seed)
  {
    ClosedContainsComponent(d, s, adj, seed);
  }

  lemma {:induction false} PathPrefixInComponent<T(!new)>(s: set<T>, adj: (T, T) -> bool, path: seq<T>, i: nat)
    requires IsPath(s, adj, path) && i < |path|
    ensures path[i] in Component(s, adj, path[0])
    decreases i
  {
    if i == 0 {
      SeedInComponent(s, adj, path[0]);
    } else {
      PathPrefixInComponent(s, adj, path, i - 1);
      StepInComponent(s, adj, path[0], path[i - 1], path[i]);
    }
  }

  /** The region of the seed, taken inside the region itself, is the region again. */
  lemma ComponentOfComponent<T(!new)>(s: set<T>, adj: (T, T) -> bool, seed: T)
    ensures Component(Component(s, adj, seed), adj, seed) == Component(s, adj, seed)
  {
    var c := Component(s, adj, seed);
    forall p | p in c ensures p in Component(c, adj, seed) {
      var path :| IsPath(s, adj, path) && path[0] == seed && path[|path| - 1] == p;
      forall i | 0 <= i < |path| ensures path[i] in c {
        PathPrefixInComponent(s, adj, path, i);
      }
      assert IsPath(c, adj, path);
    }
  }
}
