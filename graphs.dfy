/** The game board: a finite undirected graph given by adjacency lists, and the
    unweighted shortest-path queries both players ask of it (the graph library's
    `shortest_path` and `shortest_path_length`, with "no path" as `None`). */
module Graphs {

  datatype Option<T> = None | Some(value: T)

  /** Nodes are labelled by integers, as in the game's graphs. */
  type Node = int

  /** Each node maps to its neighbours in the order the graph library lists them;
      that order decides the evader's ties. */
  type Graph = map<Node, seq<Node>>

  /** Every neighbour is a node, and every edge is listed from both of its ends. */
  predicate ValidGraph(g: Graph) {
    forall n, m :: n in g && m in g[n] ==> m in g && n in g[m]
  }

  /** Every node the adjacency lists mention, as a key or as a neighbour. */
  function Nodes(g: Graph): set<Node> {
    g.Keys + set n, m | n in g && m in g[n] :: m
  }

  /** The nodes one edge away from some node of `s`. */
  function Step(g: Graph, s: set<Node>): set<Node> {
    set n, m | n in s && n in g && m in g[n] :: m
  }

  /** The nodes at most `k` edges away from `a`. */
  function Ball(g: Graph, a: Node, k: nat): set<Node> {
    if k == 0 then {a} else var inner := Ball(g, a, k - 1); inner + Step(g, inner)
  }

  /** `d` is the number of edges of a shortest route from `a` to `b`. */
  ghost predicate IsDistance(g: Graph, a: Node, b: Node, d: nat) {
    b in Ball(g, a, d) && forall j: nat :: j < d ==> b !in Ball(g, a, j)
  }

  /** A walk: a non-empty sequence of nodes in which each node is a neighbour of the one before. */
  ghost predicate IsWalk(g: Graph, w: seq<Node>) {
    |w| >= 1 && forall i :: 0 <= i < |w| - 1 ==> w[i] in g && w[i + 1] in g[w[i]]
  }

  /** `w` is a walk that starts at `a` and ends at `b`; it has |w| - 1 edges. */
  ghost predicate Connects(g: Graph, w: seq<Node>, a: Node, b: Node) {
    IsWalk(g, w) && w[0] == a && w[|w| - 1] == b
  }

  lemma BallGrows(g: Graph, a: Node, j: nat, k: nat)
    requires j <= k
    ensures Ball(g, a, j) <= Ball(g, a, k)
    decreases k - j
  {
    if j < k {
      BallGrows(g, a, j, k - 1);
    }
  }

  lemma InStep(g: Graph, s: set<Node>, n: Node, m: Node)
    requires n in s && n in g && m in g[n]
    ensures m in Step(g, s)
  {
  }

  lemma BallExtends(g: Graph, a: Node, k: nat, n: Node, m: Node)
    requires n in Ball(g, a, k) && n in g && m in g[n]
    ensures m in Ball(g, a, k + 1)
  {
    InStep(g, Ball(g, a, k), n, m);
  }

  lemma StepWithinNodes(g: Graph, s: set<Node>)
    ensures Step(g, s) <= Nodes(g)
  {
    forall m | m in Step(g, s) ensures m in Nodes(g) {
      var n :| n in s && n in g && m in g[n];
    }
  }

  lemma BallWithinNodes(g: Graph, a: Node, k: nat)
    ensures Ball(g, a, k) <= Nodes(g) + {a}
  {
    if k > 0 {
      BallWithinNodes(g, a, k - 1);
      StepWithinNodes(g, Ball(g, a, k - 1));
    }
  }

  /** Once a ball stops growing it never grows again. */
  lemma BallSettles(g: Graph, a: Node, k: nat, j: nat)
    requires Step(g, Ball(g, a, k)) <= Ball(g, a, k)
    requires k <= j
    ensures Ball(g, a, j) == Ball(g, a, k)
    decreases j - k
  {
    if k < j {
      BallSettles(g, a, k, j - 1);
    }
  }

  /** A ball that has not settled is strictly larger one ring further out. */
  lemma BallGrowsStrictly(g: Graph, a: Node, k: nat)
    requires !(Step(g, Ball(g, a, k)) <= Ball(g, a, k))
    ensures |Ball(g, a, k)| < |Ball(g, a, k + 1)|
  {
    var x :| x in Step(g, Ball(g, a, k)) && x !in Ball(g, a, k);
    var outer := Ball(g, a, k + 1);
    assert outer == Ball(g, a, k) + Step(g, Ball(g, a, k));
    assert x in outer;
    SubsetNoLarger(Ball(g, a, k), outer - {x});
  }

  lemma SubsetNoLarger(s: set<Node>, t: set<Node>)
    requires s <= t
    ensures |s| <= |t|
  {
    assert t == s + (t - s);
    assert s * (t - s) == {};
  }

  /** One more ring of the search: the measure drops, and `b` stays unseen one ring further. */
  lemma Unexplored(g: Graph, a: Node, b: Node, k: nat)
    requires !(Step(g, Ball(g, a, k)) <= Ball(g, a, k))
    requires b !in Ball(g, a, k) && forall j: nat :: j < k ==> b !in Ball(g, a, j)
    ensures 0 <= |Nodes(g) + {a}| - |Ball(g, a, k + 1)| < |Nodes(g) + {a}| - |Ball(g, a, k)|
    ensures forall j: nat :: j < k + 1 ==> b !in Ball(g, a, j)
  {
    BallWithinNodes(g, a, k + 1);
    SubsetNoLarger(Ball(g, a, k + 1), Nodes(g) + {a});
    BallGrowsStrictly(g, a, k);
  }

  lemma SettledMiss(g: Graph, a: Node, b: Node, k: nat)
    requires Step(g, Ball(g, a, k)) <= Ball(g, a, k)
    requires b !in Ball(g, a, k) && forall j: nat :: j < k ==> b !in Ball(g, a, j)
    ensures forall j: nat :: b !in Ball(g, a, j)
  {
    forall j: nat | k <= j ensures b !in Ball(g, a, j) {
      BallSettles(g, a, k, j);
    }
  }

  /** Breadth-first search by rings: the first radius `k` at which `b` is inside the
      ball around `a`, or `None` once the ball has stopped growing without reaching `b`. */
  function Search(g: Graph, a: Node, b: Node, k: nat): (r: Option<nat>)
    requires forall j: nat :: j < k ==> b !in Ball(g, a, j)
    ensures r.Some? ==> IsDistance(g, a, b, r.value)
    ensures r.None? ==> forall j: nat :: b !in Ball(g, a, j)
    decreases |Nodes(g) + {a}| - |Ball(g, a, k)|
  {
    var ball := Ball(g, a, k);
    if b in ball then Some(k)
    else if Step(g, ball) <= ball then
      SettledMiss(g, a, b, k);
      None
    else
      Unexplored(g, a, b, k);
      Search(g, a, b, k + 1)
  }

  /** The unweighted distance from `a` to `b`, or `None` when no path exists. */
  function Dist(g: Graph, a: Node, b: Node): (r: Option<nat>)
    ensures r.Some? ==> IsDistance(g, a, b, r.value)
    ensures r.None? ==> forall k: nat :: b !in Ball(g, a, k)
  {
    Search(g, a, b, 0)
  }

  /** A distance is determined by the rings alone. */
  lemma DistIs(g: Graph, a: Node, b: Node, d: nat)
    requires IsDistance(g, a, b, d)
    ensures Dist(g, a, b) == Some(d)
  {
    assert b in Ball(g, a, d);
    assert Dist(g, a, b).Some?;
    var e := Dist(g, a, b).value;
    assert b in Ball(g, a, e);
    assert !(e < d) && !(d < e);
  }

  lemma {:induction false} WalkInBall(g: Graph, w: seq<Node>)
    requires IsWalk(g, w)
    ensures w[|w| - 1] in Ball(g, w[0], |w| - 1)
    decreases |w|
  {
    if |w| > 1 {
      var front := w[..|w| - 1];
      assert IsWalk(g, front) by {
        forall i | 0 <= i < |front| - 1 ensures front[i] in g && front[i + 1] in g[front[i]] {
          assert front[i] == w[i] && front[i + 1] == w[i + 1];
        }
      }
      WalkInBall(g, front);
      var p := w[|w| - 2];
      assert p in Ball(g, w[0], |w| - 2);
      assert p in g && w[|w| - 1] in g[p];
      InStep(g, Ball(g, w[0], |w| - 2), p, w[|w| - 1]);
    }
  }

  lemma {:induction false} BallHasWalk(g: Graph, a: Node, k: nat, b: Node)
    requires b in Ball(g, a, k)
    ensures exists w :: Connects(g, w, a, b) && |w| <= k + 1
  {
    if k == 0 {
      assert Connects(g, [a], a, b);
    } else if b in Ball(g, a, k - 1) {
      BallHasWalk(g, a, k - 1, b);
    } else {
      var n :| n in Ball(g, a, k - 1) && n in g && b in g[n];
      BallHasWalk(g, a, k - 1, n);
      var v :| Connects(g, v, a, n) && |v| <= k;
      var w := v + [b];
      assert IsWalk(g, w) by {
        forall i | 0 <= i < |w| - 1 ensures w[i] in g && w[i + 1] in g[w[i]] {
          if i < |v| - 1 {
            assert w[i] == v[i] && w[i + 1] == v[i + 1];
          }
        }
      }
      assert Connects(g, w, a, b);
    }
  }

  /** `Dist` agrees with the definition by walks: `None` exactly when no walk joins the
      two nodes, and otherwise the length of a shortest walk. */
  lemma DistIsShortestWalk(g: Graph, a: Node, b: Node)
    ensures Dist(g, a, b).None? <==> forall w :: !Connects(g, w, a, b)
    ensures Dist(g, a, b).Some? ==>
      (exists w :: Connects(g, w, a, b) && |w| == Dist(g, a, b).value + 1) &&
      (forall w :: Connects(g, w, a, b) ==> |w| >= Dist(g, a, b).value + 1)
  {
    forall w | Connects(g, w, a, b)
      ensures Dist(g, a, b).Some? && |w| >= Dist(g, a, b).value + 1
    {
      WalkInBall(g, w);
    }
    if Dist(g, a, b).Some? {
      var d := Dist(g, a, b).value;
      BallHasWalk(g, a, d, b);
      var w :| Connects(g, w, a, b) && |w| <= d + 1;
      assert |w| == d + 1;
    }
  }

  /** The distance is `d` when `b` lies in the ring at radius `d` and not inside it. */
  lemma DistFromRings(g: Graph, a: Node, b: Node, d: nat)
    requires d > 0 && b in Ball(g, a, d) && b !in Ball(g, a, d - 1)
    ensures Dist(g, a, b) == Some(d)
  {
    forall j: nat | j < d ensures b !in Ball(g, a, j) {
      BallGrows(g, a, j, d - 1);
    }
    DistIs(g, a, b, d);
  }

  /** Only a node is at distance zero from itself. */
  lemma DistZero(g: Graph, a: Node, b: Node)
    ensures Dist(g, a, b) == Some(0) <==> a == b
  {
    if a == b {
      DistIs(g, a, b, 0);
    }
  }

  /** The nodes at distance one from `a` are exactly its neighbours other than itself. */
  lemma DistOne(g: Graph, a: Node, b: Node)
    ensures Dist(g, a, b) == Some(1) <==> a != b && a in g && b in g[a]
  {
    if a != b && a in g && b in g[a] {
      assert b in Step(g, Ball(g, a, 0));
      DistIs(g, a, b, 1);
    }
  }

  lemma DropFirst(g: Graph, w: seq<Node>, a: Node, b: Node)
    requires Connects(g, w, a, b) && |w| >= 2
    ensures a in g && w[1] in g[a] && Connects(g, w[1..], w[1], b)
  {
    var rest := w[1..];
    forall i | 0 <= i < |rest| - 1 ensures rest[i] in g && rest[i + 1] in g[rest[i]] {
      assert rest[i] == w[i + 1] && rest[i + 1] == w[i + 2];
    }
  }

  lemma AddFirst(g: Graph, a: Node, v: seq<Node>, n: Node, b: Node)
    requires a in g && n in g[a] && Connects(g, v, n, b)
    ensures Connects(g, [a] + v, a, b)
  {
    var u := [a] + v;
    forall i | 0 <= i < |u| - 1 ensures u[i] in g && u[i + 1] in g[u[i]] {
      if i > 0 {
        assert u[i] == v[i - 1] && u[i + 1] == v[i];
      }
    }
  }

  /** Some neighbour of `a` is one step closer to `b`; this is what lets a shortest
      path be built one hop at a time. */
  lemma {:induction false} CloserNeighbour(g: Graph, a: Node, b: Node, d: nat)
    requires Dist(g, a, b) == Some(d) && d > 0
    ensures a in g && exists n :: n in g[a] && Dist(g, n, b) == Some(d - 1)
  {
    BallHasWalk(g, a, d, b);
    var w :| Connects(g, w, a, b) && |w| <= d + 1;
    DistIsShortestWalk(g, a, b);
    assert |w| == d + 1;
    DropFirst(g, w, a, b);
    var n := w[1];
    WalkInBall(g, w[1..]);
    forall j: nat | j < d - 1 ensures b !in Ball(g, n, j) {
      if b in Ball(g, n, j) {
        BallHasWalk(g, n, j, b);
        var v :| Connects(g, v, n, b) && |v| <= j + 1;
        AddFirst(g, a, v, n, b);
        assert false;
      }
    }
    DistIs(g, n, b, d - 1);
  }

  /** The first node of `ns`, in list order, whose distance to `b` is `e`. */
  function FirstAtDistance(g: Graph, ns: seq<Node>, b: Node, e: nat): (n: Node)
    requires exists m :: m in ns && Dist(g, m, b) == Some(e)
    ensures n in ns && Dist(g, n, b) == Some(e)
    decreases |ns|
  {
    if Dist(g, ns[0], b) == Some(e) then ns[0]
    else
      assert exists m :: m in ns[1..] && Dist(g, m, b) == Some(e) by {
        var m :| m in ns && Dist(g, m, b) == Some(e);
        assert m != ns[0];
        assert ns == [ns[0]] + ns[1..];
      }
      FirstAtDistance(g, ns[1..], b, e)
  }

  /** No node at distance `e` comes before the one chosen: every node of `ns` at that
      distance is at or after it. */
  lemma {:induction false} FirstAtDistanceIsFirst(g: Graph, ns: seq<Node>, b: Node, e: nat)
    requires exists m :: m in ns && Dist(g, m, b) == Some(e)
    ensures forall j :: 0 <= j < |ns| && Dist(g, ns[j], b) == Some(e) ==>
      FirstAtDistance(g, ns, b, e) in ns[..j + 1]
    decreases |ns|
  {
    if Dist(g, ns[0], b) != Some(e) {
      var tail := ns[1..];
      assert exists m :: m in tail && Dist(g, m, b) == Some(e) by {
        var m :| m in ns && Dist(g, m, b) == Some(e);
        assert m != ns[0];
        assert ns == [ns[0]] + tail;
      }
      FirstAtDistanceIsFirst(g, tail, b, e);
      var n := FirstAtDistance(g, tail, b, e);
      assert FirstAtDistance(g, ns, b, e) == n;
      forall j | 0 <= j < |ns| && Dist(g, ns[j], b) == Some(e) ensures n in ns[..j + 1] {
        assert tail[j - 1] == ns[j];
        PrefixOfTail(ns, n, j);
      }
    }
  }

  lemma PrefixOfTail(ns: seq<Node>, n: Node, j: nat)
    requires 0 < j < |ns| && n in ns[1..][..j]
    ensures n in ns[..j + 1]
  {
    assert ns[..j + 1] == [ns[0]] + ns[1..][..j];
  }

  /** A shortest path of `d` edges from `a` to `b`, stepping each time to the first
      neighbour, in adjacency order, that is one edge closer to `b`. */
  function PathOfLength(g: Graph, a: Node, b: Node, d: nat): (p: seq<Node>)
    requires Dist(g, a, b) == Some(d)
    ensures Connects(g, p, a, b) && |p| == d + 1
    ensures forall i :: 0 <= i < |p| ==> Dist(g, p[i], b) == Some(d - i)
    decreases d
  {
    if d == 0 then
      DistZero(g, a, b);
      [a]
    else
      CloserNeighbour(g, a, b, d);
      var n := FirstAtDistance(g, g[a], b, d - 1);
      var rest := PathOfLength(g, n, b, d - 1);
      var p := [a] + rest;
      assert forall i :: 0 < i < |p| ==> p[i] == rest[i - 1];
      p
  }

  /** The shortest-path query: `None` exactly when `b` cannot be reached from `a`;
      otherwise a walk from `a` to `b` of `Dist(a, b)` edges on which every node is one
      edge closer to `b` than the node before it. */
  function ShortestPath(g: Graph, a: Node, b: Node): (r: Option<seq<Node>>)
    ensures r.None? <==> Dist(g, a, b).None?
    ensures r.Some? ==> Connects(g, r.value, a, b) && |r.value| == Dist(g, a, b).value + 1
    ensures r.Some? ==> forall i :: 0 <= i < |r.value| ==> Dist(g, r.value[i], b) == Some(|r.value| - 1 - i)
  {
    match Dist(g, a, b)
    case None => None
    case Some(d) => Some(PathOfLength(g, a, b, d))
  }
}
