/** The concrete games whose outcome the scenario script reports. Each board is given
    once as a map literal; the proofs work on any graph with the same adjacency lists. */
module Scenarios {
  import opened Graphs
  import opened Pursuer
  import opened Evader
  import opened Simulation

  /** An upper bound on a ball grows by one edge: if every neighbour of a node of
      `inner` lies in `outer`, the next ball lies in `outer`. */
  lemma BallBound(g: Graph, a: Node, k: nat, inner: set<Node>, outer: set<Node>)
    requires Ball(g, a, k) <= inner && inner <= outer
    requires forall n, m :: n in inner && n in g && m in g[n] ==> m in outer
    ensures Ball(g, a, k + 1) <= outer
  {
    forall m | m in Step(g, Ball(g, a, k)) ensures m in outer {
      var n :| n in Ball(g, a, k) && n in g && m in g[n];
    }
  }

  /** A node two edges away along `a - x - b`, outside a bound on the ball of radius 1. */
  lemma DistTwoVia(g: Graph, a: Node, x: Node, b: Node, bound: set<Node>)
    requires a in g && x in g[a] && x in g && b in g[x]
    requires Ball(g, a, 1) <= bound && b !in bound
    ensures Dist(g, a, b) == Some(2)
  {
    BallExtends(g, a, 0, a, x);
    BallExtends(g, a, 1, x, b);
    DistFromRings(g, a, b, 2);
  }

  /** A node three edges away along `a - x - y - b`, outside a bound on the ball of radius 2. */
  lemma DistThreeVia(g: Graph, a: Node, x: Node, y: Node, b: Node, bound: set<Node>)
    requires a in g && x in g[a] && x in g && y in g[x] && y in g && b in g[y]
    requires Ball(g, a, 2) <= bound && b !in bound
    ensures Dist(g, a, b) == Some(3)
  {
    BallExtends(g, a, 0, a, x);
    BallExtends(g, a, 1, x, y);
    BallExtends(g, a, 2, y, b);
    DistFromRings(g, a, b, 3);
  }

  /** A cop on `c` with a single neighbour `x` and a reachable robber elsewhere takes `x`. */
  lemma StepsToOnly(g: Graph, c: Node, x: Node, robber: Node)
    requires c in g && g[c] == [x] && c != robber && Dist(g, c, robber).Some?
    ensures Pursue(g, c, robber) == x
  {
    assert Pursue(g, c, robber) in g[c];
  }

  /** A cop on `c` whose first neighbour `x` is one edge closer to the robber takes `x`,
      whatever its other neighbour. */
  lemma StepsToFirst(g: Graph, c: Node, x: Node, y: Node, robber: Node, d: nat)
    requires c in g && g[c] == [x, y] && c != robber
    requires Dist(g, c, robber) == Some(d + 1) && Dist(g, x, robber) == Some(d)
    ensures Pursue(g, c, robber) == x
  {
    PursueTakesFirstCloser(g, c, robber);
    assert g[c][..1] == [x];
  }

  /** A cop on `c` whose first neighbour `x` is not one edge closer to the robber takes
      the second, `y`. */
  lemma StepsToSecond(g: Graph, c: Node, x: Node, y: Node, robber: Node, d: nat)
    requires c in g && g[c] == [x, y] && c != robber
    requires Dist(g, c, robber) == Some(d + 1) && Dist(g, x, robber) != Some(d)
    ensures Pursue(g, c, robber) == y
  {
    var r := Pursue(g, c, robber);
    assert r in g[c] && Dist(g, r, robber) == Some(d);
  }

  lemma NearestOfOne(g: Graph, c: Node, x: Node, d: nat)
    requires Dist(g, c, x) == Some(d)
    ensures NearestCop(g, c, [x]) == Finite(d)
  {
  }

  /** A robber on `r` whose only neighbour `x` is closer to the cop than `r` itself stays. */
  lemma StaysWhenNeighbourCloser(g: Graph, r: Node, x: Node, cop: Node, dx: nat, dr: nat)
    requires r in g && g[r] == [x] && cop != r && cop != x
    requires Dist(g, x, cop) == Some(dx) && Dist(g, r, cop) == Some(dr) && dx < dr
    ensures Evasion(g, r, [cop]) == r
  {
    NearestOfOne(g, x, cop, dx);
    NearestOfOne(g, r, cop, dr);
    EvasionTakesStrictBest(g, r, [cop], 1);
  }

  /** A robber on `r` with neighbours `x` and `y` and one cop: when the cop is `dx`,
      `dy` and `dr` edges from `x`, `y` and `r`, and `x` is strictly the farthest, the
      robber moves to `x`. */
  lemma FleesToFirst(g: Graph, r: Node, x: Node, y: Node, cop: Node, dx: nat, dy: nat, dr: nat)
    requires r in g && g[r] == [x, y] && cop !in {r, x, y}
    requires Dist(g, x, cop) == Some(dx) && Dist(g, y, cop) == Some(dy) && Dist(g, r, cop) == Some(dr)
    requires dy < dx && dr < dx
    ensures Evasion(g, r, [cop]) == x
  {
    NearestOfOne(g, x, cop, dx);
    NearestOfOne(g, y, cop, dy);
    NearestOfOne(g, r, cop, dr);
    EvasionTakesStrictBest(g, r, [cop], 0);
  }

  /** The same with the second neighbour `y` strictly the farthest. */
  lemma FleesToSecond(g: Graph, r: Node, x: Node, y: Node, cop: Node, dx: nat, dy: nat, dr: nat)
    requires r in g && g[r] == [x, y] && cop !in {r, x, y}
    requires Dist(g, x, cop) == Some(dx) && Dist(g, y, cop) == Some(dy) && Dist(g, r, cop) == Some(dr)
    requires dx < dy && dr < dy
    ensures Evasion(g, r, [cop]) == y
  {
    NearestOfOne(g, x, cop, dx);
    NearestOfOne(g, y, cop, dy);
    NearestOfOne(g, r, cop, dr);
    EvasionTakesStrictBest(g, r, [cop], 1);
  }

  // ---------------------------------------------------------------------------------
  // The complete graph on five nodes, cop at 0, robber at 4, budget 5.

  /** The complete graph on nodes 0..4, each node listing the others in increasing order. */
  function CompleteGraph5(): Graph {
    map[0 := [1, 2, 3, 4], 1 := [0, 2, 3, 4], 2 := [0, 1, 3, 4], 3 := [0, 1, 2, 4], 4 := [0, 1, 2, 3]]
  }

  lemma CompleteGraph5IsValid()
    ensures ValidGraph(CompleteGraph5())
  {
    var g := CompleteGraph5();
    forall n, m | n in g && m in g[n] ensures m in g && n in g[m] {
      assert 0 <= n <= 4 && 0 <= m <= 4;
    }
  }

  /** On the complete graph on five nodes, with the cop at 0, the robber at 4 and a
      budget of 5, the cop is next to the robber and captures it in the first round. */
  lemma CompleteGraphCapturedInOneRound()
    ensures ValidGraph(CompleteGraph5())
    ensures Outcome(CompleteGraph5(), 0, 4, 5) == (true, 1)
  {
    CompleteGraph5IsValid();
    AdjacentStartCapturedInOneRound(CompleteGraph5(), 0, 4, 5);
  }

  // ---------------------------------------------------------------------------------
  // The tree (0,1), (0,2), (1,3), (2,4), cop at 0, robber at 4, budget 10.

  /** The tree with edges (0,1), (0,2), (1,3), (2,4), neighbours in insertion order. */
  function SmallTree(): Graph {
    map[0 := [1, 2], 1 := [0, 3], 2 := [0, 4], 3 := [1], 4 := [2]]
  }

  predicate IsSmallTree(g: Graph) {
    && g.Keys == {0, 1, 2, 3, 4}
    && g[0] == [1, 2] && g[1] == [0, 3] && g[2] == [0, 4] && g[3] == [1] && g[4] == [2]
  }

  lemma SmallTreeShape()
    ensures IsSmallTree(SmallTree())
  {
  }

  lemma SmallTreeIsValid(g: Graph)
    requires IsSmallTree(g)
    ensures ValidGraph(g)
  {
    forall n, m | n in g && m in g[n] ensures m in g && n in g[m] {
      assert n in {0, 1, 2, 3, 4};
    }
  }

  /** Round 1 on the tree: the cop goes from 0 to 2, the neighbour of 0 that is adjacent
      to 4; the robber, whose one neighbour is now the cop, stays on 4. */
  lemma TreeFirstRound(g: Graph)
    requires IsSmallTree(g)
    ensures ValidGraph(g) && Round(g, 0, 4) == (2, 4)
  {
    SmallTreeIsValid(g);
    BallBound(g, 0, 0, {0}, {0, 1, 2});
    DistTwoVia(g, 0, 2, 4, {0, 1, 2});
    DistOne(g, 1, 4);
    StepsToSecond(g, 0, 1, 2, 4, 1);
    CorneredRobberStays(g, 4, 2);
  }

  lemma TreeGame(g: Graph)
    requires IsSmallTree(g)
    ensures ValidGraph(g) && Outcome(g, 0, 4, 10) == (true, 2)
  {
    TreeFirstRound(g);
    AdjacentCopCaptures(g, 2, 4);
    assert Play(g, 0, 4, 0, 10) == Play(g, 2, 4, 1, 10);
    assert Play(g, 2, 4, 1, 10) == Play(g, 4, 4, 2, 10);
  }

  /** On the tree (0,1), (0,2), (1,3), (2,4), with the cop at 0, the robber at 4 and a
      budget of 10, the robber is captured, after two rounds. */
  lemma TreeRobberCaptured()
    ensures ValidGraph(SmallTree())
    ensures Outcome(SmallTree(), 0, 4, 10) == (true, 2)
  {
    SmallTreeShape();
    TreeGame(SmallTree());
  }

  // ---------------------------------------------------------------------------------
  // The path 0 - 1 - 2 - 3 - 4, cop at 0, robber at 4, budget 10.

  /** The path 0 - 1 - 2 - 3 - 4. */
  function Path5(): Graph {
    map[0 := [1], 1 := [0, 2], 2 := [1, 3], 3 := [2, 4], 4 := [3]]
  }

  predicate IsPath5(g: Graph) {
    && g.Keys == {0, 1, 2, 3, 4}
    && g[0] == [1] && g[1] == [0, 2] && g[2] == [1, 3] && g[3] == [2, 4] && g[4] == [3]
  }

  lemma Path5Shape()
    ensures IsPath5(Path5())
  {
  }

  lemma Path5IsValid(g: Graph)
    requires IsPath5(g)
    ensures ValidGraph(g)
  {
    forall n, m | n in g && m in g[n] ensures m in g && n in g[m] {
      assert n in {0, 1, 2, 3, 4};
    }
  }

  /** Upper bounds on the balls around the nodes of the path game. */
  lemma PathBallBounds(g: Graph)
    requires IsPath5(g)
    ensures Ball(g, 0, 2) <= {0, 1, 2}
    ensures Ball(g, 1, 2) <= {1, 0, 2, 3}
    ensures Ball(g, 2, 1) <= {2, 1, 3}
    ensures Ball(g, 3, 1) <= {3, 2, 4}
    ensures Ball(g, 4, 1) <= {4, 3} && Ball(g, 4, 2) <= {4, 3, 2}
  {
    BallBound(g, 0, 0, {0}, {0, 1});
    BallBound(g, 0, 1, {0, 1}, {0, 1, 2});
    BallBound(g, 1, 0, {1}, {1, 0, 2});
    BallBound(g, 1, 1, {1, 0, 2}, {1, 0, 2, 3});
    BallBound(g, 2, 0, {2}, {2, 1, 3});
    BallBound(g, 3, 0, {3}, {3, 2, 4});
    BallBound(g, 4, 0, {4}, {4, 3});
    BallBound(g, 4, 1, {4, 3}, {4, 3, 2});
  }

  /** The distances the path game depends on. */
  lemma PathDistances(g: Graph)
    requires IsPath5(g)
    ensures Dist(g, 0, 4).Some? && Dist(g, 0, 4) != Some(2)
    ensures Dist(g, 1, 4) == Some(3) && Dist(g, 2, 4) == Some(2)
    ensures Dist(g, 3, 1) == Some(2) && Dist(g, 4, 1) == Some(3)
    ensures Dist(g, 4, 2) == Some(2)
  {
    PathBallBounds(g);
    BallExtends(g, 0, 0, 0, 1);
    BallExtends(g, 0, 1, 1, 2);
    BallExtends(g, 0, 2, 2, 3);
    BallExtends(g, 0, 3, 3, 4);
    DistThreeVia(g, 1, 2, 3, 4, {1, 0, 2, 3});
    DistTwoVia(g, 2, 3, 4, {2, 1, 3});
    DistTwoVia(g, 3, 2, 1, {3, 2, 4});
    DistThreeVia(g, 4, 3, 2, 1, {4, 3, 2});
    DistTwoVia(g, 4, 3, 2, {4, 3});
  }

  /** Round 1 on the path: the cop steps to 1; the robber on 4 would be two edges from
      the cop on 3 and three on 4, so it stays. */
  lemma PathRound1(g: Graph)
    requires IsPath5(g)
    ensures ValidGraph(g) && Round(g, 0, 4) == (1, 4)
  {
    Path5IsValid(g);
    PathDistances(g);
    StepsToOnly(g, 0, 1, 4);
    StaysWhenNeighbourCloser(g, 4, 3, 1, 2, 3);
  }

  /** Round 2 on the path: the cop steps to 2, not back to 0; the robber on 4 would be
      one edge from the cop on 3 and two on 4, so it stays. */
  lemma PathRound2(g: Graph)
    requires IsPath5(g)
    ensures ValidGraph(g) && Round(g, 1, 4) == (2, 4)
  {
    Path5IsValid(g);
    PathDistances(g);
    StepsToSecond(g, 1, 0, 2, 4, 2);
    DistOne(g, 3, 2);
    StaysWhenNeighbourCloser(g, 4, 3, 2, 1, 2);
  }

  /** Round 3 on the path: the cop steps to 3, and the robber's only neighbour is the cop. */
  lemma PathRound3(g: Graph)
    requires IsPath5(g)
    ensures ValidGraph(g) && Round(g, 2, 4) == (3, 4)
  {
    Path5IsValid(g);
    PathDistances(g);
    DistOne(g, 1, 4);
    StepsToSecond(g, 2, 1, 3, 4, 1);
    CorneredRobberStays(g, 4, 3);
  }

  lemma PathGame(g: Graph)
    requires IsPath5(g)
    ensures ValidGraph(g) && Outcome(g, 0, 4, 10) == (true, 4)
  {
    PathRound1(g);
    PathRound2(g);
    PathRound3(g);
    AdjacentCopCaptures(g, 3, 4);
    assert Play(g, 0, 4, 0, 10) == Play(g, 1, 4, 1, 10);
    assert Play(g, 1, 4, 1, 10) == Play(g, 2, 4, 2, 10);
    assert Play(g, 2, 4, 2, 10) == Play(g, 3, 4, 3, 10);
    assert Play(g, 3, 4, 3, 10) == Play(g, 4, 4, 4, 10);
  }

  /** On the path 0 - 1 - 2 - 3 - 4 with the cop at 0, the robber at 4 and a budget of
      10, the cop closes one edge per round and captures the robber after four rounds. */
  lemma PathRobberCaptured()
    ensures ValidGraph(Path5())
    ensures Outcome(Path5(), 0, 4, 10) == (true, 4)
  {
    Path5Shape();
    PathGame(Path5());
  }

  // ---------------------------------------------------------------------------------
  // The cycle on six nodes, cop at 0, robber at 3, budget 10.

  /** The cycle 0 - 1 - 2 - 3 - 4 - 5 - 0, each node listing its neighbours in the order
      the edges (0,1), (1,2), (2,3), (3,4), (4,5), (5,0) were added. */
  function Cycle6(): Graph {
    map[0 := [1, 5], 1 := [0, 2], 2 := [1, 3], 3 := [2, 4], 4 := [3, 5], 5 := [4, 0]]
  }

  predicate IsCycle6(g: Graph) {
    && g.Keys == {0, 1, 2, 3, 4, 5}
    && g[0] == [1, 5] && g[1] == [0, 2] && g[2] == [1, 3]
    && g[3] == [2, 4] && g[4] == [3, 5] && g[5] == [4, 0]
  }

  lemma Cycle6Shape()
    ensures IsCycle6(Cycle6())
  {
  }

  lemma Cycle6IsValid(g: Graph)
    requires IsCycle6(g)
    ensures ValidGraph(g)
  {
    forall n, m | n in g && m in g[n] ensures m in g && n in g[m] {
      assert n in {0, 1, 2, 3, 4, 5};
    }
  }

  /** The distances from 0 that the cycle game depends on. */
  lemma CycleDistancesFrom0(g: Graph)
    requires IsCycle6(g)
    ensures Dist(g, 0, 3) == Some(3) && Dist(g, 0, 4) == Some(2)
  {
    BallBound(g, 0, 0, {0}, {0, 1, 5});
    BallBound(g, 0, 1, {0, 1, 5}, {0, 1, 5, 2, 4});
    DistThreeVia(g, 0, 1, 2, 3, {0, 1, 5, 2, 4});
    DistTwoVia(g, 0, 5, 4, {0, 1, 5});
  }

  /** The distances from 1 that the cycle game depends on. */
  lemma CycleDistancesFrom1(g: Graph)
    requires IsCycle6(g)
    ensures Dist(g, 1, 3) == Some(2) && Dist(g, 1, 4) == Some(3)
  {
    BallBound(g, 1, 0, {1}, {1, 0, 2});
    BallBound(g, 1, 1, {1, 0, 2}, {1, 0, 2, 5, 3});
    DistTwoVia(g, 1, 2, 3, {1, 0, 2});
    DistThreeVia(g, 1, 2, 3, 4, {1, 0, 2, 5, 3});
  }

  /** The distances from 3 that the cycle game depends on. */
  lemma CycleDistancesFrom3(g: Graph)
    requires IsCycle6(g)
    ensures Dist(g, 3, 1) == Some(2) && Dist(g, 3, 0) == Some(3)
  {
    BallBound(g, 3, 0, {3}, {3, 2, 4});
    BallBound(g, 3, 1, {3, 2, 4}, {3, 2, 4, 1, 5});
    DistTwoVia(g, 3, 2, 1, {3, 2, 4});
    DistThreeVia(g, 3, 4, 5, 0, {3, 2, 4, 1, 5});
  }

  /** The distances from 4 that the cycle game depends on. */
  lemma CycleDistancesFrom4(g: Graph)
    requires IsCycle6(g)
    ensures Dist(g, 4, 0) == Some(2) && Dist(g, 4, 1) == Some(3)
  {
    BallBound(g, 4, 0, {4}, {4, 3, 5});
    BallBound(g, 4, 1, {4, 3, 5}, {4, 3, 5, 2, 0});
    DistTwoVia(g, 4, 5, 0, {4, 3, 5});
    DistThreeVia(g, 4, 3, 2, 1, {4, 3, 5, 2, 0});
  }

  /** Round 1 on the cycle: of the cop's neighbours 1 and 5, both two edges from the
      robber on 3, the cop takes 1, listed first; the robber then flees to 4, three edges
      from the cop, rather than to 2 (one edge) or staying on 3 (two edges). */
  lemma CycleRound1(g: Graph)
    requires IsCycle6(g)
    ensures ValidGraph(g) && Round(g, 0, 3) == (1, 4)
  {
    Cycle6IsValid(g);
    CycleDistancesFrom0(g);
    CycleDistancesFrom1(g);
    CycleDistancesFrom3(g);
    CycleDistancesFrom4(g);
    StepsToFirst(g, 0, 1, 5, 3, 2);
    DistOne(g, 2, 1);
    FleesToSecond(g, 3, 2, 4, 1, 1, 3, 2);
  }

  /** Round 2 on the cycle: of the cop's neighbours 0 and 2, both two edges from the
      robber on 4, the cop takes 0, listed first; the robber then flees back to 3. */
  lemma CycleRound2(g: Graph)
    requires IsCycle6(g)
    ensures ValidGraph(g) && Round(g, 1, 4) == (0, 3)
  {
    Cycle6IsValid(g);
    CycleDistancesFrom0(g);
    CycleDistancesFrom1(g);
    CycleDistancesFrom3(g);
    CycleDistancesFrom4(g);
    StepsToFirst(g, 1, 0, 2, 4, 2);
    DistOne(g, 5, 0);
    FleesToFirst(g, 4, 3, 5, 0, 3, 1, 2);
  }

  /** On the cycle on six nodes, with the cop at 0, the robber at 3 and a budget of 10,
      the robber is never caught: the positions alternate between (0, 3) and (1, 4), and
      the result is "not captured" with the budget. */
  lemma CycleRobberEscapes()
    ensures ValidGraph(Cycle6())
    ensures Outcome(Cycle6(), 0, 3, 10) == (false, 10)
  {
    Cycle6Shape();
    CycleRound1(Cycle6());
    CycleRound2(Cycle6());
    AlternationIsReportedEscape(Cycle6(), 0, 3, 1, 4, 10);
  }
}
