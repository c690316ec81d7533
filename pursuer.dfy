/** The cop: steps one edge along a shortest path towards the robber. */
module Pursuer {
  import opened Graphs

  /** The cop's move from `cop` with the robber at `robber`: stay when already on the
      robber or when no path leads to it; otherwise take the second node of a shortest path.
      The cop's position is passed in, so the decision never touches the agent's state. */
  function Pursue(g: Graph, cop: Node, robber: Node): (r: Node)
    ensures cop == robber ==> r == cop
    ensures Dist(g, cop, robber).None? ==> r == cop
    ensures cop != robber && Dist(g, cop, robber).Some? ==>
      && cop in g && r in g[cop]
      && Dist(g, r, robber).Some?
      && Dist(g, r, robber).value + 1 == Dist(g, cop, robber).value
  {
    if cop == robber then cop
    else
      match ShortestPath(g, cop, robber)
      case None => cop
      case Some(path) => if |path| > 1 then path[1] else cop
  }

  /** A move is either staying put or crossing one edge, and it stays on the board. */
  lemma PursueIsStepOrStay(g: Graph, cop: Node, robber: Node)
    requires ValidGraph(g)
    requires cop in g
    ensures Pursue(g, cop, robber) == cop || Pursue(g, cop, robber) in g[cop]
    ensures Pursue(g, cop, robber) in g
  {
    if cop != robber && Dist(g, cop, robber).Some? {
      DistZero(g, cop, robber);
    }
  }

  /** The cop moves exactly when it is elsewhere than the robber and can reach it. */
  lemma PursueMovesIffReachable(g: Graph, cop: Node, robber: Node)
    ensures Pursue(g, cop, robber) != cop <==> cop != robber && Dist(g, cop, robber).Some?
  {
    if cop != robber && Dist(g, cop, robber).Some? {
      DistZero(g, cop, robber);
      var d := Dist(g, cop, robber).value;
      assert Dist(g, Pursue(g, cop, robber), robber).value == d - 1;
    }
  }

  /** The cop's tie-break: of the neighbours one edge closer to the robber, it takes the
      first in adjacency order. */
  lemma PursueTakesFirstCloser(g: Graph, cop: Node, robber: Node)
    requires cop != robber && Dist(g, cop, robber).Some?
    ensures cop in g
    ensures var d := Dist(g, cop, robber).value;
      forall j :: 0 <= j < |g[cop]| && Dist(g, g[cop][j], robber) == Some(d - 1) ==>
        Pursue(g, cop, robber) in g[cop][..j + 1]
  {
    var d := Dist(g, cop, robber).value;
    DistZero(g, cop, robber);
    CloserNeighbour(g, cop, robber, d);
    FirstAtDistanceIsFirst(g, g[cop], robber, d - 1);
    var p := PathOfLength(g, cop, robber, d);
    assert p[1] == FirstAtDistance(g, g[cop], robber, d - 1);
  }

  /** The cop's position, which the driver overwrites after every decision. */
  class Cop {
    var position: Node

    constructor (initial: Node)
      ensures position == initial
    {
      position := initial;
    }

    method UpdatePosition(newPosition: Node)
      modifies this
      ensures position == newPosition
    {
      position := newPosition;
    }
  }
}
