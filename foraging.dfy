/** The per-ant foraging state machine as values: what one time step and
    one edge selection do to an ant's state. The `Colony.Ant` class is
    proved to follow these definitions. */
module Foraging {
  import opened Outcomes
  import opened Graph
  import opened Selection
  import opened Trail

  /** The behavioural state of one ant: the edge it is on, the fraction of
      it already walked, whether it carries food, whether it is on its way
      home by back-tracing, and the back-trace list. */
  datatype AntState = AntState(
    fromNode: int,
    toNode: int,
    progress: real,
    hasFood: bool,
    backTracing: bool,
    trail: seq<int>)

  /** What an ant reads but never changes: the shared graph, the nest and
      food nodes, and its two behaviour switches. */
  datatype Env = Env(
    graph: Topology,
    nest: int,
    foods: seq<int>,
    noTurnBack: bool,
    backTrace: bool)

  /** The ant's current target is the nest. */
  predicate IsAtNest(s: AntState, env: Env) {
    s.toNode == env.nest
  }

  /** The ant's current target is a food node. */
  predicate IsAtFood(s: AntState, env: Env) {
    s.toNode in env.foods
  }

  /** The next edge is taken from the back-trace list, not drawn. */
  predicate Retracing(s: AntState, env: Env) {
    s.hasFood && env.backTrace && s.backTracing
  }

  /** The flag changes on reaching the end of an edge: a food node reached
      without food starts the way home (recording the node the ant came
      from); the nest reached with food ends it and resets the list to the
      nest alone. The ant stays where it is, food is only picked up at a
      food node and only dropped at the nest, and nothing changes unless
      the food flag does. */
  function Arrive(s: AntState, env: Env): (r: AntState)
    ensures r.fromNode == s.fromNode && r.toNode == s.toNode && r.progress == s.progress
    ensures r.hasFood == s.hasFood ==> r == s
    ensures r.hasFood && !s.hasFood ==> IsAtFood(s, env) && r.backTracing
    ensures !r.hasFood && s.hasFood ==> IsAtNest(s, env) && !r.backTracing && r.trail == [env.nest]
    ensures IsAtFood(s, env) && !s.hasFood ==> r.hasFood && r.backTracing && r.trail == s.trail + [s.fromNode]
    ensures IsAtNest(s, env) && s.hasFood ==> !r.hasFood
  {
    if IsAtFood(s, env) && !s.hasFood then
      s.(hasFood := true, backTracing := true, trail := s.trail + [s.fromNode])
    else if IsAtNest(s, env) && s.hasFood then
      s.(hasFood := false, backTracing := false, trail := [env.nest])
    else
      s
  }

  /** The nodes an outbound ant standing at `s.toNode` may draw next. */
  function NextCandidates(s: AntState, env: Env): set<int>
    requires s.toNode in env.graph
  {
    Candidates(env.graph[s.toNode], s.fromNode, env.noTurnBack, IsAtFood(s, env) || IsAtNest(s, env))
  }

  /** The random draw, if one is made, returned one of the candidates. */
  ghost predicate DrawnFromCandidates(s: AntState, env: Env, choice: int) {
    !Retracing(s, env) && s.toNode in env.graph && NextCandidates(s, env) != {} ==>
      choice in NextCandidates(s, env)
  }

  /** `pick_new_edge`: the ant moves on from the node it reached, either to
      the node popped from the back-trace list or to the drawn `choice`,
      and starts the new edge at progress 0; the error cases are the
      exceptions the source raises. */
  function Pick(s: AntState, env: Env, choice: int): (r: Result<AntState, Fault>)
    requires DrawnFromCandidates(s, env, choice)
    ensures r.Ok? ==> r.value.fromNode == s.toNode && r.value.progress == 0.0
    ensures r.Ok? ==> r.value.fromNode in env.graph && r.value.toNode in env.graph[r.value.fromNode]
    ensures r.Ok? ==> r.value.hasFood == s.hasFood && r.value.backTracing == s.backTracing
    ensures Retracing(s, env) && s.trail == [] ==> r == Err(EmptyBackTrace)
    ensures Retracing(s, env) && r.Ok? ==>
      && r.value.toNode == Last(s.trail)
      && |r.value.trail| < |s.trail|
      && r.value.trail + [r.value.toNode] <= s.trail
      && r.value.toNode !in r.value.trail
    ensures !Retracing(s, env) ==>
      (r.Ok? <==> s.toNode in env.graph && env.graph[s.toNode] != {})
    ensures !Retracing(s, env) && r.Ok? ==>
      && r.value.toNode in NextCandidates(s, env)
      && r.value.trail == (if env.backTrace && !s.backTracing then s.trail + [s.fromNode] else s.trail)
    ensures (!Retracing(s, env) && r.Ok? &&
      ForbidsTurningBack(env.graph[s.toNode], env.noTurnBack, IsAtFood(s, env) || IsAtNest(s, env))) ==>
      r.value.toNode != s.fromNode
  {
    var trail := if env.backTrace && !s.backTracing then s.trail + [s.fromNode] else s.trail;
    var from := s.toNode;
    if Retracing(s, env) then
      match PopBackTrace(trail)
      case Err(f) => Err(f)
      case Ok((to, rest)) =>
        if from in env.graph && to in env.graph[from] then
          Ok(AntState(from, to, 0.0, s.hasFood, s.backTracing, rest))
        else
          Err(MissingEdge)
    else if from !in env.graph then
      Err(MissingEdge)
    else if NextCandidates(s, env) == {} then
      Err(NoCandidates)
    else
      Ok(AntState(from, choice, 0.0, s.hasFood, s.backTracing, trail))
  }

  /** The state after advancing `delta` along the current edge. */
  function Advance(s: AntState, delta: real): AntState {
    s.(progress := s.progress + delta)
  }

  /** The draw made on arrival, if any, returned a candidate. */
  ghost predicate WalkDrawn(s: AntState, env: Env, delta: real, choice: int) {
    Advance(s, delta).progress > 1.0 ==> DrawnFromCandidates(Arrive(Advance(s, delta), env), env, choice)
  }

  /** `walk` on the ant's own state: advance, and on passing the end of the
      edge switch flags and pick the next edge. Short of the end the ant
      stays on its edge with everything but its progress unchanged; past
      it the ant starts an edge out of the node it reached. */
  function WalkResult(s: AntState, env: Env, delta: real, choice: int): (r: Result<AntState, Fault>)
    requires WalkDrawn(s, env, delta, choice)
    ensures s.progress + delta <= 1.0 ==>
      && r.Ok? && r.value.fromNode == s.fromNode && r.value.toNode == s.toNode
      && r.value.progress == s.progress + delta
      && r.value.hasFood == s.hasFood && r.value.backTracing == s.backTracing && r.value.trail == s.trail
    ensures s.progress + delta > 1.0 && r.Ok? ==>
      && r.value.fromNode == s.toNode && r.value.progress == 0.0
      && r.value.fromNode in env.graph && r.value.toNode in env.graph[r.value.fromNode]
  {
    var s1 := Advance(s, delta);
    if s1.progress > 1.0 then Pick(Arrive(s1, env), env, choice) else Ok(s1)
  }

  /** The back-trace list of an outbound ant starts at the nest and, with
      the node it last left, is a chain of neighbours. */
  ghost predicate OutboundTrail(s: AntState, env: Env) {
    && s.trail != []
    && s.trail[0] == env.nest
    && Chain(env.graph, s.trail + [s.fromNode])
  }

  /** The back-trace list of a returning ant, with its target, is a chain
      of neighbours starting at the nest that does not end in the target;
      it is empty only when the target is the nest. */
  ghost predicate ReturnTrail(s: AntState, env: Env) {
    && (s.trail != [] ==> s.trail[0] == env.nest && Last(s.trail) != s.toNode)
    && (s.trail == [] ==> s.toNode == env.nest)
    && Chain(env.graph, s.trail + [s.toNode])
  }

  /** The invariant of a prepared ant between time steps. */
  ghost predicate AntInv(s: AntState, env: Env) {
    && s.fromNode in env.graph
    && s.toNode in env.graph[s.fromNode]
    && s.hasFood == s.backTracing
    && (env.backTrace ==> if s.backTracing then ReturnTrail(s, env) else OutboundTrail(s, env))
  }

  /** What `pick_new_edge` needs of the ant to succeed: the node reached
      has a neighbour, and the list is in the shape the branch taken needs.
      It covers the state after arrival and the state `prepare` sets up
      (both ends at the nest, empty list). */
  ghost predicate PickReady(s: AntState, env: Env) {
    && HasNeighbour(env.graph, s.toNode)
    && s.hasFood == s.backTracing
    && (env.backTrace ==>
          if s.backTracing then s.trail != [] && ReturnTrail(s, env)
          else
            && (s.trail + [s.fromNode])[0] == env.nest
            && Chain(env.graph, s.trail + [s.fromNode])
            && Linked(env.graph, s.fromNode, s.toNode))
  }

  lemma Symmetric(g: Topology, a: int, b: int)
    requires WellFormed(g) && a in g && b in g[a]
    ensures b in g && a in g[b] && a != b
  {
  }

  /** A ready ant's edge selection never raises and leaves a valid ant:
      the popped node is always a neighbour, the list is never empty when
      popped, and a candidate always exists. */
  lemma PickKeepsInvariant(s: AntState, env: Env, choice: int)
    requires WellFormed(env.graph) && PickReady(s, env) && DrawnFromCandidates(s, env, choice)
    ensures Pick(s, env, choice).Ok?
    ensures AntInv(Pick(s, env, choice).value, env)
  {
    var g := env.graph;
    var r := Pick(s, env, choice);
    if Retracing(s, env) {
      var y, rest := Last(s.trail), PopBackTrace(s.trail).value.1;
      var t := s.trail + [s.toNode];
      var n := |s.trail| - 1;
      assert Linked(g, t[n], t[n + 1]);
      Symmetric(g, y, s.toNode);
      assert r.Ok?;
      assert r.value == AntState(s.toNode, y, 0.0, true, true, rest);
      ChainPrefix(g, t, |rest| + 1);
      assert t[..|rest| + 1] == rest + [y];
      if rest == [] {
        assert ([] + [y])[0] == s.trail[0];
      } else {
        assert (rest + [y])[0] == s.trail[0];
      }
    } else {
      assert s.toNode in g;
      assert NextCandidates(s, env) != {};
      assert r.Ok?;
      if env.backTrace {
        assert !s.backTracing;
        ChainExtend(g, s.trail + [s.fromNode], s.toNode);
        assert s.trail + [s.fromNode] + [s.toNode] == r.value.trail + [r.value.fromNode];
      }
    }
  }

  /** A ready returning ant heads for the last node of its list and keeps
      the list up to that node's first occurrence. */
  lemma PickByRetrace(s: AntState, env: Env)
    requires WellFormed(env.graph) && PickReady(s, env) && Retracing(s, env)
    ensures s.trail != [] && Last(s.trail) in s.trail
    ensures DrawnFromCandidates(s, env, Last(s.trail))
    ensures var t := AntState(s.toNode, Last(s.trail), 0.0, s.hasFood, s.backTracing,
                              s.trail[..IndexOf(s.trail, Last(s.trail))]);
      Pick(s, env, Last(s.trail)) == Ok(t) && AntInv(t, env)
  {
    PickKeepsInvariant(s, env, Last(s.trail));
  }

  /** A ready outbound ant moves to the drawn candidate, its list gaining
      the node it left when back-tracing is on. */
  lemma PickByDraw(s: AntState, env: Env, choice: int)
    requires WellFormed(env.graph) && PickReady(s, env) && !Retracing(s, env)
    requires choice in NextCandidates(s, env)
    ensures DrawnFromCandidates(s, env, choice)
    ensures var t := AntState(s.toNode, choice, 0.0, s.hasFood, s.backTracing,
                              if env.backTrace && !s.backTracing then s.trail + [s.fromNode] else s.trail);
      Pick(s, env, choice) == Ok(t) && AntInv(t, env)
  {
    PickKeepsInvariant(s, env, choice);
  }

  /** Reaching the end of an edge leaves a valid ant ready to pick. */
  lemma ArriveIsReady(s: AntState, env: Env)
    requires WellFormed(env.graph) && AntInv(s, env)
    ensures PickReady(Arrive(s, env), env)
  {
    var g := env.graph;
    Symmetric(g, s.fromNode, s.toNode);
    var a := Arrive(s, env);
    if env.backTrace {
      if IsAtFood(s, env) && !s.hasFood {
        ChainExtend(g, s.trail + [s.fromNode], s.toNode);
        assert a.trail + [a.toNode] == s.trail + [s.fromNode] + [s.toNode];
      } else if IsAtNest(s, env) && s.hasFood {
        assert a.trail + [a.fromNode] == [env.nest, s.fromNode];
      }
    }
  }

  /** One time step of a valid ant never raises and leaves a valid ant. */
  lemma WalkKeepsInvariant(s: AntState, env: Env, delta: real, choice: int)
    requires WellFormed(env.graph) && AntInv(s, env) && WalkDrawn(s, env, delta, choice)
    ensures WalkResult(s, env, delta, choice).Ok?
    ensures AntInv(WalkResult(s, env, delta, choice).value, env)
  {
    var s1 := Advance(s, delta);
    if s1.progress > 1.0 {
      ArriveIsReady(s1, env);
      PickKeepsInvariant(Arrive(s1, env), env, choice);
    }
  }

  /** The state `prepare` sets up is ready, and its first pick leaves the
      ant outbound from the nest with the list holding the nest. */
  lemma FirstPickFromNest(env: Env, choice: int)
    requires WellFormed(env.graph) && HasNeighbour(env.graph, env.nest)
    requires DrawnFromCandidates(AntState(env.nest, env.nest, 0.0, false, false, []), env, choice)
    ensures var r := Pick(AntState(env.nest, env.nest, 0.0, false, false, []), env, choice);
      && r.Ok? && AntInv(r.value, env)
      && r.value.fromNode == env.nest && r.value.toNode in env.graph[env.nest]
      && r.value.trail == (if env.backTrace then [env.nest] else [])
  {
    var s := AntState(env.nest, env.nest, 0.0, false, false, []);
    assert PickReady(s, env);
    PickKeepsInvariant(s, env, choice);
  }

  /** An outbound ant that reaches food turns round: it now carries food,
      back-traces, and heads straight back to the node it came from. */
  lemma FoodArrivalTurnsBack(s: AntState, env: Env, choice: int)
    requires WellFormed(env.graph) && AntInv(s, env) && env.backTrace
    requires IsAtFood(s, env) && !s.hasFood
    ensures var r := Pick(Arrive(s, env), env, choice);
      && r.Ok? && r.value.hasFood && r.value.backTracing
      && r.value.fromNode == s.toNode && r.value.toNode == s.fromNode
  {
    ArriveIsReady(s, env);
    PickKeepsInvariant(Arrive(s, env), env, choice);
  }

  /** A returning ant that reaches the nest drops its food and sets out
      again: the list restarts with the nest and the node it came from. */
  lemma NestArrivalRestarts(s: AntState, env: Env, choice: int)
    requires WellFormed(env.graph) && AntInv(s, env) && env.backTrace
    requires IsAtNest(s, env) && s.hasFood
    requires DrawnFromCandidates(Arrive(s, env), env, choice)
    ensures var r := Pick(Arrive(s, env), env, choice);
      && r.Ok? && !r.value.hasFood && !r.value.backTracing
      && r.value.fromNode == env.nest && r.value.toNode in env.graph[env.nest]
      && r.value.trail == [env.nest, s.fromNode]
  {
    ArriveIsReady(s, env);
    PickKeepsInvariant(Arrive(s, env), env, choice);
  }
}
