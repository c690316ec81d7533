/** The robber: moves to the neighbour (or stays) that keeps it farthest from the
    nearest cop, never stepping onto a cop. */
module Evader {
  import opened Graphs

  /** A distance that may be unbounded: `Infinity` stands for "no cop can be reached". */
  datatype Extended = Finite(value: nat) | Infinity

  /** The strict order on extended distances; `Infinity` is not above itself. */
  predicate Exceeds(x: Extended, y: Extended) {
    match (x, y)
    case (Infinity, Finite(_)) => true
    case (Finite(m), Finite(n)) => m > n
    case _ => false
  }

  /** The smaller of two extended distances. */
  function Lesser(x: Extended, y: Extended): (r: Extended)
    ensures !Exceeds(r, x) && !Exceeds(r, y)
    ensures r == x || r == y
  {
    match (x, y)
    case (Infinity, _) => y
    case (_, Infinity) => x
    case (Finite(m), Finite(n)) => if n < m then y else x
  }

  lemma ExceedsIsStrictTotal(x: Extended, y: Extended, z: Extended)
    ensures !Exceeds(x, x)
    ensures !Exceeds(x, y) ==> x == y || Exceeds(y, x)
    ensures Exceeds(x, y) && !Exceeds(z, y) ==> Exceeds(x, z)
  {
  }

  /** The distance from `c` to its nearest reachable cop, `Infinity` when no cop is reachable. */
  function NearestCop(g: Graph, c: Node, cops: seq<Node>): (r: Extended)
    ensures r == Infinity <==> forall i :: 0 <= i < |cops| ==> Dist(g, c, cops[i]).None?
    ensures r.Finite? ==> exists i :: 0 <= i < |cops| && Dist(g, c, cops[i]) == Some(r.value)
    ensures r.Finite? ==>
      forall i :: 0 <= i < |cops| && Dist(g, c, cops[i]).Some? ==> r.value <= Dist(g, c, cops[i]).value
    decreases |cops|
  {
    if cops == [] then Infinity
    else
      var front := cops[..|cops| - 1];
      assert forall i :: 0 <= i < |front| ==> front[i] == cops[i];
      var rest := NearestCop(g, c, front);
      match Dist(g, c, cops[|cops| - 1])
      case None => rest
      case Some(d) => Lesser(rest, Finite(d))
  }

  /** A node other than every cop is at least one edge from each of them. */
  lemma NearestCopPositive(g: Graph, c: Node, cops: seq<Node>)
    requires c !in cops
    ensures Exceeds(NearestCop(g, c, cops), Finite(0))
  {
    var r := NearestCop(g, c, cops);
    if r.Finite? {
      var i :| 0 <= i < |cops| && Dist(g, c, cops[i]) == Some(r.value);
      DistZero(g, c, cops[i]);
    }
  }

  /** The running choice of the evader's scan: the best candidate so far and its score. */
  datatype Choice = Choice(node: Node, score: Extended)

  /** The evader's scan over `cands` in order, starting from `start` with score 0: a
      candidate held by a cop is skipped, and a candidate replaces the current choice
      only when its nearest cop is strictly farther. */
  function Scan(g: Graph, cands: seq<Node>, cops: seq<Node>, start: Node): (p: Choice)
    decreases |cands|
  {
    if cands == [] then Choice(start, Finite(0))
    else
      var p := Scan(g, cands[..|cands| - 1], cops, start);
      var c := cands[|cands| - 1];
      if c in cops then p
      else
        var m := NearestCop(g, c, cops);
        if Exceeds(m, p.score) then Choice(c, m) else p
  }

  /** Candidate `i` is not held by a cop, no candidate's nearest cop is farther, and
      every free candidate before it has its nearest cop strictly closer. */
  ghost predicate FirstBest(g: Graph, cands: seq<Node>, cops: seq<Node>, i: int)
  {
    && 0 <= i < |cands|
    && cands[i] !in cops
    && (forall j :: 0 <= j < |cands| && cands[j] !in cops ==>
          !Exceeds(NearestCop(g, cands[j], cops), NearestCop(g, cands[i], cops)))
    && (forall j :: 0 <= j < i && cands[j] !in cops ==>
          Exceeds(NearestCop(g, cands[i], cops), NearestCop(g, cands[j], cops)))
  }

  lemma FirstBestSurvivesSkip(g: Graph, front: seq<Node>, c: Node, cops: seq<Node>, i: int)
    requires FirstBest(g, front, cops, i) && c in cops
    ensures FirstBest(g, front + [c], cops, i)
  {
    var cands := front + [c];
    assert forall j :: 0 <= j < |front| ==> cands[j] == front[j];
  }

  lemma FirstBestSurvivesWeaker(g: Graph, front: seq<Node>, c: Node, cops: seq<Node>, i: int)
    requires FirstBest(g, front, cops, i)
    requires !Exceeds(NearestCop(g, c, cops), NearestCop(g, front[i], cops))
    ensures FirstBest(g, front + [c], cops, i)
  {
    var cands := front + [c];
    assert forall j :: 0 <= j < |front| ==> cands[j] == front[j];
  }

  lemma NewFirstBest(g: Graph, front: seq<Node>, c: Node, cops: seq<Node>, s: Extended)
    requires c !in cops && Exceeds(NearestCop(g, c, cops), s)
    requires forall j :: 0 <= j < |front| && front[j] !in cops ==> !Exceeds(NearestCop(g, front[j], cops), s)
    ensures FirstBest(g, front + [c], cops, |front|)
  {
    var cands := front + [c];
    var m := NearestCop(g, c, cops);
    assert forall j :: 0 <= j < |front| ==> cands[j] == front[j];
    forall j | 0 <= j < |front| && cands[j] !in cops
      ensures Exceeds(m, NearestCop(g, cands[j], cops))
    {
      ExceedsIsStrictTotal(m, s, NearestCop(g, cands[j], cops));
    }
    ExceedsIsStrictTotal(m, m, m);
  }

  /** After any prefix, the scan still holds its start (when every candidate so far was
      held by a cop) or holds the first candidate with the farthest nearest cop. */
  lemma {:induction false} ScanFindsFirstBest(g: Graph, cands: seq<Node>, cops: seq<Node>, start: Node)
    ensures var p := Scan(g, cands, cops, start);
      || (p == Choice(start, Finite(0)) && forall j :: 0 <= j < |cands| ==> cands[j] in cops)
      || (exists i :: FirstBest(g, cands, cops, i) && cands[i] == p.node
                      && p.score == NearestCop(g, p.node, cops))
    decreases |cands|
  {
    if cands != [] {
      var n := |cands| - 1;
      var front := cands[..n];
      var c := cands[n];
      assert cands == front + [c];
      ScanFindsFirstBest(g, front, cops, start);
      var p := Scan(g, front, cops, start);
      var untouched := p == Choice(start, Finite(0)) && forall j :: 0 <= j < n ==> front[j] in cops;
      if untouched {
        if c !in cops {
          NearestCopPositive(g, c, cops);
          NewFirstBest(g, front, c, cops, Finite(0));
        }
      } else {
        var i :| FirstBest(g, front, cops, i) && front[i] == p.node
                 && p.score == NearestCop(g, p.node, cops);
        if c in cops {
          FirstBestSurvivesSkip(g, front, c, cops, i);
        } else if Exceeds(NearestCop(g, c, cops), p.score) {
          NewFirstBest(g, front, c, cops, p.score);
        } else {
          FirstBestSurvivesWeaker(g, front, c, cops, i);
        }
      }
    }
  }

  /** The robber's decision at `robber` with the cops at `cops`: it stays when there are
      no cops, the board is empty, it is already caught, or it has no neighbours;
      otherwise it scans its neighbours in adjacency order and then its own node. */
  function Evasion(g: Graph, robber: Node, cops: seq<Node>): (r: Node)
    requires cops == [] || |g| == 0 || robber in cops || robber in g
    ensures cops == [] || |g| == 0 || robber in cops ==> r == robber
    ensures robber in g && g[robber] == [] ==> r == robber
    ensures r == robber || (robber in g && r in g[robber])
    ensures robber !in cops ==> r !in cops
  {
    if cops == [] || |g| == 0 then robber
    else if robber in cops then robber
    else if g[robber] == [] then robber
    else
      var cands := g[robber] + [robber];
      ScanFindsFirstBest(g, cands, cops, robber);
      Scan(g, cands, cops, robber).node
  }

  /** Outside the four stay-put cases, the robber takes the first candidate (neighbours in
      adjacency order, then its own node) whose nearest reachable cop is farthest away. */
  lemma EvasionIsFirstBest(g: Graph, robber: Node, cops: seq<Node>)
    requires cops != [] && robber in g && robber !in cops && g[robber] != []
    ensures exists i :: FirstBest(g, g[robber] + [robber], cops, i)
                        && (g[robber] + [robber])[i] == Evasion(g, robber, cops)
  {
    var cands := g[robber] + [robber];
    ScanFindsFirstBest(g, cands, cops, robber);
    assert cands[|cands| - 1] !in cops;
  }

  /** A free candidate whose nearest cop is strictly farther than that of every other
      free candidate is the robber's move, wherever it sits in the scan order. */
  lemma EvasionTakesStrictBest(g: Graph, robber: Node, cops: seq<Node>, k: nat)
    requires cops != [] && robber in g && robber !in cops && g[robber] != []
    requires k < |g[robber]| + 1 && (g[robber] + [robber])[k] !in cops
    requires var cands := g[robber] + [robber];
      forall j :: 0 <= j < |cands| && cands[j] !in cops && cands[j] != cands[k] ==>
        Exceeds(NearestCop(g, cands[k], cops), NearestCop(g, cands[j], cops))
    ensures Evasion(g, robber, cops) == (g[robber] + [robber])[k]
  {
    var cands := g[robber] + [robber];
    EvasionIsFirstBest(g, robber, cops);
    var i :| FirstBest(g, cands, cops, i) && cands[i] == Evasion(g, robber, cops);
    if cands[i] != cands[k] {
      assert false;
    }
  }

  /** A robber whose only neighbour is the cop stays where it is. */
  lemma CorneredRobberStays(g: Graph, robber: Node, cop: Node)
    requires robber in g && g[robber] == [cop] && cop != robber
    ensures Evasion(g, robber, [cop]) == robber
  {
    EvasionTakesStrictBest(g, robber, [cop], 1);
  }

  /** The inner loop of the robber's scan: the distance from `c` to each cop in turn,
      skipping the cops it cannot reach, keeping the smallest. */
  method MeasureNearestCop(g: Graph, c: Node, cops: seq<Node>) returns (nearest: Extended)
    ensures nearest == NearestCop(g, c, cops)
  {
    nearest := Infinity;
    var j := 0;
    while j < |cops|
      invariant 0 <= j <= |cops|
      invariant nearest == NearestCop(g, c, cops[..j])
    {
      assert cops[..j + 1][..j] == cops[..j];
      match Dist(g, c, cops[j]) {
        case None =>
        case Some(d) => nearest := Lesser(nearest, Finite(d));
      }
      j := j + 1;
    }
    assert cops[..|cops|] == cops;
  }

  /** The robber's position, and its move computed by the scan the source performs. */
  class Robber {
    var position: Node

    constructor (initial: Node)
      ensures position == initial
    {
      position := initial;
    }

    /** Scans the candidates, the neighbours in adjacency order and then the robber's own
        node, measuring for each free one the distance to its nearest cop. */
    method Move(g: Graph, cops: seq<Node>) returns (r: Node)
      requires cops == [] || |g| == 0 || position in cops || position in g
      ensures r == Evasion(g, position, cops)
    {
      if cops == [] || |g| == 0 {
        return position;
      }
      if position in cops {
        return position;
      }
      var cands := g[position];
      if cands == [] {
        return position;
      }
      cands := cands + [position];
      var best := position;
      var bestScore := Finite(0);
      var i := 0;
      while i < |cands|
        invariant 0 <= i <= |cands|
        invariant Choice(best, bestScore) == Scan(g, cands[..i], cops, position)
      {
        var c := cands[i];
        assert cands[..i + 1] == cands[..i] + [c];
        if c !in cops {
          var nearest := MeasureNearestCop(g, c, cops);
          if Exceeds(nearest, bestScore) {
            best, bestScore := c, nearest;
          }
        }
        i := i + 1;
      }
      assert cands[..|cands|] == cands;
      r := best;
    }

    method UpdatePosition(newPosition: Node)
      modifies this
      ensures position == newPosition
    {
      position := newPosition;
    }
  }
}
