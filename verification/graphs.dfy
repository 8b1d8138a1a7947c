/**
  Undirected simple graphs as used by the power-grid model (a NetworkX `Graph`):
  a node set and a set of edges, each edge read in both directions.
  Two traversals are defined here as reference definitions:
  - `Ball(g, c, k)`: the nodes at most `k` hops from `c`;
  - `Closure(g, s)`: everything reachable from `s`.
  Both are related to explicit paths.
 */
module Graphs {

  datatype Graph<N> = Graph(nodes: set<N>, edges: set<(N, N)>)

  /** Every edge endpoint is a node (NetworkX adds endpoints as nodes). */
  ghost predicate WellFormed<N(!new)>(g: Graph<N>) {
    forall e :: e in g.edges ==> e.0 in g.nodes && e.1 in g.nodes
  }

  predicate Adjacent<N(==,!new)>(g: Graph<N>, a: N, b: N) {
    (a, b) in g.edges || (b, a) in g.edges
  }

  /** The nodes adjacent to `a`. */
  function Adj<N(==,!new)>(g: Graph<N>, a: N): set<N> {
    set b | b in g.nodes && Adjacent(g, a, b)
  }

  /** The nodes adjacent to some member of `s`. */
  function Neighbours<N(==,!new)>(g: Graph<N>, s: set<N>): (r: set<N>)
    ensures r <= g.nodes
  {
    set b | b in g.nodes && exists a {:trigger Adjacent(g, a, b)} :: a in s && Adjacent(g, a, b)
  }

  /**
    The same set as `Neighbours`, assembled one member of `s` at a time. Being
    recursive, it is only unfolded one step at a time, which keeps proofs about
    hop-balls small; `RingMember` states what it contains.
   */
  ghost function Ring<N(!new)>(g: Graph<N>, s: set<N>): set<N>
    decreases s
  {
    if s == {} then {}
    else
      var a :| a in s;
      Adj(g, a) + Ring(g, s - {a})
  }

  lemma {:induction false} RingMember<N(!new)>(g: Graph<N>, s: set<N>, b: N)
    ensures b in Ring(g, s) <==> b in g.nodes && exists a :: a in s && Adjacent(g, a, b)
    decreases s
  {
    if s != {} {
      var a :| a in s && Ring(g, s) == Adj(g, a) + Ring(g, s - {a});
      RingMember(g, s - {a}, b);
      if b in Adj(g, a) {
        assert a in s && Adjacent(g, a, b);
      }
      if b in g.nodes && exists x :: x in s && Adjacent(g, x, b) {
        var x :| x in s && Adjacent(g, x, b);
        assert x == a || x in s - {a};
      }
    }
  }

  /** A node adjacent to a member of `s` lies in its ring. */
  lemma RingIntro<N(!new)>(g: Graph<N>, s: set<N>, a: N, b: N)
    requires a in s && b in g.nodes && Adjacent(g, a, b)
    ensures b in Ring(g, s)
  {
    RingMember(g, s, b);
  }

  /** Every member of the ring of `s` is a node adjacent to some member of `s`. */
  lemma RingElim<N(!new)>(g: Graph<N>, s: set<N>, b: N) returns (a: N)
    requires b in Ring(g, s)
    ensures a in s && b in g.nodes && Adjacent(g, a, b)
  {
    RingMember(g, s, b);
    a :| a in s && Adjacent(g, a, b);
  }

  lemma RingInNodes<N(!new)>(g: Graph<N>, s: set<N>)
    ensures Ring(g, s) <= g.nodes
  {
    forall b | b in Ring(g, s) ensures b in g.nodes {
      RingMember(g, s, b);
    }
  }

  /** The ring of `s` is its set of neighbours. */
  lemma RingIsNeighbours<N(!new)>(g: Graph<N>, s: set<N>)
    ensures Ring(g, s) == Neighbours(g, s)
  {
    forall b ensures b in Ring(g, s) <==> b in Neighbours(g, s) {
      RingMember(g, s, b);
    }
  }

  /** A non-empty walk through nodes of `g`, each step along an edge. */
  ghost predicate IsPath<N(!new)>(g: Graph<N>, p: seq<N>) {
    && |p| >= 1
    && (forall i :: 0 <= i < |p| ==> p[i] in g.nodes)
    && (forall i :: 0 <= i < |p| - 1 ==> Adjacent(g, p[i], p[i + 1]))
  }

  ghost predicate Connects<N(!new)>(g: Graph<N>, p: seq<N>, a: N, b: N) {
    IsPath(g, p) && p[0] == a && p[|p| - 1] == b
  }

  /** `b` can be reached from `a` along the edges of `g`. */
  ghost predicate Reachable<N(!new)>(g: Graph<N>, a: N, b: N) {
    exists p :: Connects(g, p, a, b)
  }

  /** `b` can be reached from `a` in at most `k` hops. */
  ghost predicate WithinHops<N(!new)>(g: Graph<N>, a: N, b: N, k: int) {
    exists p :: Connects(g, p, a, b) && |p| <= k + 1
  }

  lemma ExtendPath<N(!new)>(g: Graph<N>, p: seq<N>, a: N, u: N, v: N)
    requires Connects(g, p, a, u)
    requires v in g.nodes && Adjacent(g, u, v)
    ensures Connects(g, p + [v], a, v)
  {
    var q := p + [v];
    forall i | 0 <= i < |q| - 1
      ensures Adjacent(g, q[i], q[i + 1])
    {
      if i < |p| - 1 {
        assert q[i] == p[i] && q[i + 1] == p[i + 1];
      }
    }
  }

  /**
    The nodes within `k` hops of `c`: `{c}` for `k = 0`, grown by one ring of
    neighbours per step, and empty for a negative bound.
   */
  ghost function Ball<N(!new)>(g: Graph<N>, c: N, k: int): set<N>
    decreases k
  {
    if k < 0 then {}
    else if k == 0 then {c}
    else Ball(g, c, k - 1) + Ring(g, Ball(g, c, k - 1))
  }

  lemma {:induction false} BallMonotone<N(!new)>(g: Graph<N>, c: N, j: int, k: int)
    requires j <= k
    ensures Ball(g, c, j) <= Ball(g, c, k)
    decreases k - j
  {
    if j < k {
      BallMonotone(g, c, j, k - 1);
    }
  }

  lemma {:induction false} BallInNodes<N(!new)>(g: Graph<N>, c: N, k: int)
    requires c in g.nodes
    ensures Ball(g, c, k) <= g.nodes
    decreases k
  {
    if k > 0 {
      BallInNodes(g, c, k - 1);
      RingInNodes(g, Ball(g, c, k - 1));
    }
  }

  /** The hop-ball is exactly the set of nodes within `k` hops. */
  lemma {:induction false} BallIsWithinHops<N(!new)>(g: Graph<N>, c: N, k: int, v: N)
    requires c in g.nodes
    ensures v in Ball(g, c, k) <==> WithinHops(g, c, v, k)
  {
    if v in Ball(g, c, k) {
      BallHasPath(g, c, k, v);
    }
    if WithinHops(g, c, v, k) {
      var p :| Connects(g, p, c, v) && |p| <= k + 1;
      PathInBall(g, c, p);
      BallMonotone(g, c, |p| - 1, k);
    }
  }

  lemma {:induction false} BallHasPath<N(!new)>(g: Graph<N>, c: N, k: int, v: N)
    requires c in g.nodes
    requires v in Ball(g, c, k)
    ensures WithinHops(g, c, v, k)
    decreases k
  {
    if k == 0 {
      assert Connects(g, [c], c, v);
    } else if v in Ball(g, c, k - 1) {
      BallHasPath(g, c, k - 1, v);
      var p :| Connects(g, p, c, v) && |p| <= k;
      assert Connects(g, p, c, v) && |p| <= k + 1;
    } else {
      var u := RingElim(g, Ball(g, c, k - 1), v);
      BallHasPath(g, c, k - 1, u);
      var p :| Connects(g, p, c, u) && |p| <= k;
      ExtendPath(g, p, c, u, v);
      assert Connects(g, p + [v], c, v) && |p + [v]| <= k + 1;
    }
  }

  lemma {:induction false} PathInBall<N(!new)>(g: Graph<N>, c: N, p: seq<N>)
    requires IsPath(g, p) && p[0] == c
    ensures p[|p| - 1] in Ball(g, c, |p| - 1)
    decreases |p|
  {
    if |p| > 1 {
      var q := p[..|p| - 1];
      assert IsPath(g, q) by {
        forall i | 0 <= i < |q| - 1 ensures Adjacent(g, q[i], q[i + 1]) {
          assert q[i] == p[i] && q[i + 1] == p[i + 1];
        }
      }
      PathInBall(g, c, q);
      assert Adjacent(g, p[|p| - 2], p[|p| - 1]);
      RingIntro(g, Ball(g, c, |p| - 2), p[|p| - 2], p[|p| - 1]);
    }
  }

  /**
    Everything reachable from `s`: `s` grown by neighbours until nothing new
    appears (the node set a breadth-first tree from `s` spans).
   */
  function Closure<N(==,!new)>(g: Graph<N>, s: set<N>): (r: set<N>)
    requires WellFormed(g) && s <= g.nodes
    ensures s <= r <= g.nodes
    ensures Neighbours(g, r) <= r
    decreases |g.nodes - s|
  {
    var next := s + Neighbours(g, s);
    if next <= s then s
    else
      ShrinkingRest(g.nodes, s, next);
      Closure(g, next)
  }

  /** Growing a subset of `all` strictly leaves strictly less of `all` outside it. */
  lemma ShrinkingRest<N(!new)>(all: set<N>, s: set<N>, next: set<N>)
    requires s <= next <= all && !(next <= s)
    ensures |all - next| < |all - s|
  {
    var x :| x in next && x !in s;
    assert all - next <= (all - s) - {x};
    assert |(all - s) - {x}| == |all - s| - 1;
    SubsetCard(all - next, (all - s) - {x});
  }

  lemma {:induction false} SubsetCard<N(!new)>(a: set<N>, b: set<N>)
    requires a <= b
    ensures |a| <= |b|
    decreases |b|
  {
    if a != {} {
      var x :| x in a;
      SubsetCard(a - {x}, b - {x});
    }
  }

  /** Closed sets contain every node on a path that starts inside them. */
  lemma {:induction false} PathStaysInClosed<N(!new)>(g: Graph<N>, p: seq<N>, r: set<N>)
    requires IsPath(g, p) && p[0] in r
    requires Neighbours(g, r) <= r
    ensures p[|p| - 1] in r
    decreases |p|
  {
    if |p| > 1 {
      var q := p[..|p| - 1];
      assert IsPath(g, q) by {
        forall i | 0 <= i < |q| - 1 ensures Adjacent(g, q[i], q[i + 1]) {
          assert q[i] == p[i] && q[i + 1] == p[i + 1];
        }
      }
      PathStaysInClosed(g, q, r);
      assert Adjacent(g, p[|p| - 2], p[|p| - 1]);
    }
  }

  /** Every member of the closure of a set reachable from `a` is reachable from `a`. */
  lemma {:induction false} ClosureSound<N(!new)>(g: Graph<N>, a: N, s: set<N>)
    requires WellFormed(g) && s <= g.nodes
    requires forall v :: v in s ==> Reachable(g, a, v)
    ensures forall v :: v in Closure(g, s) ==> Reachable(g, a, v)
    decreases |g.nodes - s|
  {
    var next := s + Neighbours(g, s);
    if !(next <= s) {
      forall v | v in next ensures Reachable(g, a, v) {
        if v !in s {
          var u :| u in s && Adjacent(g, u, v);
          var p :| Connects(g, p, a, u);
          ExtendPath(g, p, a, u, v);
        }
      }
      ShrinkingRest(g.nodes, s, next);
      ClosureSound(g, a, next);
    }
  }

  /** The closure of `{a}` is exactly the set of nodes reachable from `a`. */
  lemma ClosureIsReachable<N(!new)>(g: Graph<N>, a: N, v: N)
    requires WellFormed(g) && a in g.nodes
    ensures v in Closure(g, {a}) <==> Reachable(g, a, v)
  {
    assert Connects(g, [a], a, a);
    ClosureSound(g, a, {a});
    if Reachable(g, a, v) {
      var p :| Connects(g, p, a, v);
      PathStaysInClosed(g, p, Closure(g, {a}));
    }
  }
}
