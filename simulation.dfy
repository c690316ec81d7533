/** The game loop: rounds of cop-then-robber moves until capture or the step budget. */
module Simulation {
  import opened Graphs
  import opened Pursuer
  import opened Evader

  /** One round from the cop at `cop` and the robber at `robber`: the cop moves first,
      and the robber decides against the cop's new node. A round ends in capture only
      when the cop stepped onto the node the robber held, and the robber stayed there. */
  function Round(g: Graph, cop: Node, robber: Node): (next: (Node, Node))
    requires ValidGraph(g)
    requires cop in g && robber in g
    ensures next.0 in g && next.1 in g
    ensures next.0 == next.1 ==> next.0 == robber && next.1 == robber
  {
    var c := Pursue(g, cop, robber);
    PursueIsStepOrStay(g, cop, robber);
    (c, Evasion(g, robber, [c]))
  }

  /** The positions and the round counter when the loop stops. */
  datatype Snapshot = Snapshot(cop: Node, robber: Node, rounds: nat)

  /** The loop from round counter `rounds` with budget `maxSteps`: a round is played
      while the positions differ and the counter is below the budget. */
  function Play(g: Graph, cop: Node, robber: Node, rounds: nat, maxSteps: int): (s: Snapshot)
    requires ValidGraph(g)
    requires cop in g && robber in g
    ensures s.cop in g && s.robber in g
    ensures s.cop == s.robber || maxSteps <= s.rounds
    ensures rounds <= s.rounds
    ensures s.rounds == rounds || s.rounds <= maxSteps
    ensures cop == robber || maxSteps <= rounds ==> s == Snapshot(cop, robber, rounds)
    decreases maxSteps - rounds
  {
    if cop == robber || rounds >= maxSteps then Snapshot(cop, robber, rounds)
    else
      var next := Round(g, cop, robber);
      Play(g, next.0, next.1, rounds + 1, maxSteps)
  }

  /** The reported result: captured exactly when the final positions coincide, with the
      number of rounds played; otherwise not captured, reporting the budget itself. */
  function Outcome(g: Graph, cop: Node, robber: Node, maxSteps: int): (o: (bool, int))
    requires ValidGraph(g)
    requires cop in g && robber in g
    ensures o.0 <==> Play(g, cop, robber, 0, maxSteps).cop == Play(g, cop, robber, 0, maxSteps).robber
    ensures o.0 ==> o.1 == Play(g, cop, robber, 0, maxSteps).rounds
    ensures !o.0 ==> o.1 == maxSteps
    ensures 0 <= maxSteps ==> 0 <= o.1 <= maxSteps
    ensures cop == robber ==> o == (true, 0)
  {
    var s := Play(g, cop, robber, 0, maxSteps);
    if s.cop == s.robber then (true, s.rounds) else (false, maxSteps)
  }

  /** A capture ends the game and is never undone: a robber already on the cop's node
      stays there, so a round that starts with a capture leaves both where they are. */
  lemma CaptureIsFinal(g: Graph, v: Node)
    requires ValidGraph(g) && v in g
    ensures Round(g, v, v) == (v, v)
    ensures forall rounds: nat, maxSteps: int :: Play(g, v, v, rounds, maxSteps) == Snapshot(v, v, rounds)
  {
  }

  /** A cop next to the robber steps onto it, and the caught robber stays: the round
      ends in capture on the robber's node. */
  lemma AdjacentCopCaptures(g: Graph, cop: Node, robber: Node)
    requires ValidGraph(g) && cop in g && robber in g[cop] && cop != robber
    ensures Round(g, cop, robber) == (robber, robber)
  {
    DistOne(g, cop, robber);
    DistZero(g, Pursue(g, cop, robber), robber);
  }

  /** A game that starts with the cop next to the robber, with a budget of at least one
      round, is reported as a capture after exactly one round; on a complete graph every
      two distinct nodes are such a start. */
  lemma AdjacentStartCapturedInOneRound(g: Graph, cop: Node, robber: Node, maxSteps: int)
    requires ValidGraph(g) && cop in g && robber in g[cop] && cop != robber && 1 <= maxSteps
    ensures Outcome(g, cop, robber, maxSteps) == (true, 1)
  {
    AdjacentCopCaptures(g, cop, robber);
    assert Play(g, cop, robber, 0, maxSteps) == Play(g, robber, robber, 1, maxSteps);
  }

  /** Two rounds that lead from `(cop, robber)` to `(cop2, robber2)` and back, with the
      positions distinct in both, keep the game alternating until the budget: the loop
      stops at the budget, on the positions it started from after an even number of
      remaining rounds and on the other pair after an odd number. */
  lemma {:induction false} AlternationEscapes(g: Graph, cop: Node, robber: Node, cop2: Node, robber2: Node,
                                              rounds: nat, maxSteps: int)
    requires ValidGraph(g) && cop in g && robber in g
    requires cop != robber && cop2 != robber2
    requires Round(g, cop, robber) == (cop2, robber2) && Round(g, cop2, robber2) == (cop, robber)
    requires rounds <= maxSteps
    ensures (maxSteps - rounds) % 2 == 0 ==>
      Play(g, cop, robber, rounds, maxSteps) == Snapshot(cop, robber, maxSteps)
    ensures (maxSteps - rounds) % 2 == 1 ==>
      Play(g, cop, robber, rounds, maxSteps) == Snapshot(cop2, robber2, maxSteps)
    decreases maxSteps - rounds
  {
    if rounds < maxSteps {
      assert Play(g, cop, robber, rounds, maxSteps) == Play(g, cop2, robber2, rounds + 1, maxSteps);
      AlternationEscapes(g, cop2, robber2, cop, robber, rounds + 1, maxSteps);
      ParityFlips(maxSteps - rounds);
      assert maxSteps - (rounds + 1) == maxSteps - rounds - 1;
    }
  }

  /** One round fewer to go flips the parity of the rounds that remain. */
  lemma ParityFlips(n: int)
    requires 0 < n
    ensures n % 2 == 0 ==> (n - 1) % 2 == 1
    ensures n % 2 == 1 ==> (n - 1) % 2 == 0
  {
  }

  /** Such an alternation from the start is reported as an escape lasting the whole
      budget, whatever the budget. */
  lemma AlternationIsReportedEscape(g: Graph, cop: Node, robber: Node, cop2: Node, robber2: Node, maxSteps: int)
    requires ValidGraph(g) && cop in g && robber in g
    requires cop != robber && cop2 != robber2
    requires Round(g, cop, robber) == (cop2, robber2) && Round(g, cop2, robber2) == (cop, robber)
    ensures Outcome(g, cop, robber, maxSteps) == (false, maxSteps)
  {
    if 0 <= maxSteps {
      AlternationEscapes(g, cop, robber, cop2, robber2, 0, maxSteps);
    }
  }

  /** The shared game loop: while the positions differ and fewer than `maxSteps` rounds
      were played, count a round, move the cop, then move the robber against the cop's
      new position. */
  method PlayRounds(g: Graph, cop: Cop, robber: Robber, maxSteps: int) returns (steps: nat)
    requires ValidGraph(g)
    requires cop.position in g && robber.position in g
    modifies cop, robber
    ensures Snapshot(cop.position, robber.position, steps)
            == Play(g, old(cop.position), old(robber.position), 0, maxSteps)
    ensures cop.position == robber.position || maxSteps <= steps
    ensures 0 <= maxSteps ==> steps <= maxSteps
  {
    steps := 0;
    while cop.position != robber.position && steps < maxSteps
      invariant cop.position in g && robber.position in g
      invariant Play(g, cop.position, robber.position, steps, maxSteps)
                == Play(g, old(cop.position), old(robber.position), 0, maxSteps)
      decreases maxSteps - steps
    {
      steps := steps + 1;
      var copNext := Pursue(g, cop.position, robber.position);
      PursueIsStepOrStay(g, cop.position, robber.position);
      cop.UpdatePosition(copNext);
      var robberNext := robber.Move(g, [cop.position]);
      robber.UpdatePosition(robberNext);
    }
  }

  /** One complete simulation from the given start nodes: `(captured, steps)`. */
  method Simulate(g: Graph, copStart: Node, robberStart: Node, maxSteps: int)
    returns (captured: bool, steps: int)
    requires ValidGraph(g)
    requires copStart in g && robberStart in g
    ensures (captured, steps) == Outcome(g, copStart, robberStart, maxSteps)
  {
    var cop := new Cop(copStart);
    var robber := new Robber(robberStart);
    var rounds := PlayRounds(g, cop, robber, maxSteps);
    if cop.position == robber.position {
      captured, steps := true, rounds;
    } else {
      captured, steps := false, maxSteps;
    }
  }
}
