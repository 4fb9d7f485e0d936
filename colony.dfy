/** The ants and the scene they live in, as objects whose fields change in
    place. `Ant` follows the state machine of `Foraging`; `Scene` walks
    every ant once per tick and then lets every edge's pheromone decay. */
module Colony {
  import opened Outcomes
  import opened Graph
  import opened Selection
  import opened Trail
  import opened Foraging

  /** A 2D coordinate. */
  datatype Point = Point(x: real, y: real)

  /** `w` lies between `u` and `v`, whichever is larger. */
  predicate Between(u: real, v: real, w: real) {
    (u <= w <= v) || (v <= w <= u)
  }

  /** The point a fraction `t` of the way from `a` to `b`; `t` is not
      clamped, so a value past 1 overshoots `b`. */
  function Lerp(a: Point, b: Point, t: real): (p: Point)
    ensures t == 0.0 ==> p == a
    ensures t == 1.0 ==> p == b
    ensures 0.0 <= t <= 1.0 ==> Between(a.x, b.x, p.x) && Between(a.y, b.y, p.y)
  {
    LerpBetween(a.x, b.x, t);
    LerpBetween(a.y, b.y, t);
    Point((b.x - a.x) * t + a.x, (b.y - a.y) * t + a.y)
  }

  lemma LerpBetween(u: real, v: real, t: real)
    ensures 0.0 <= t <= 1.0 ==> Between(u, v, (v - u) * t + u)
  {
    if 0.0 <= t <= 1.0 {
      var d := v - u;
      assert d * t + d * (1.0 - t) == d;
      if u <= v {
        assert 0.0 <= d * t;
        assert 0.0 <= d * (1.0 - t);
      } else {
        assert d * t <= 0.0;
        assert d * (1.0 - t) <= 0.0;
      }
    }
  }

  /** The colour the drawing uses for an ant. */
  datatype Color = Brown | Orange

  /** Orange while the ant carries food, brown otherwise. */
  function ColorOf(hasFood: bool): Color {
    if hasFood then Orange else Brown
  }

  /** The run parameters the core reads. `pheromoneDecay` is the rate the
      decay factor `(1 - pheromoneDecay) ** dt` is computed from; the power
      is not computed here, and `Scene.Move` takes its value as `factor`. */
  datatype Params = Params(antSpeed: real, pheromoneDecay: real, pheromoneDeposit: real, dt: real)

  /** Deposit rate and time step are not negative. */
  predicate ParamsOk(p: Params) {
    p.pheromoneDeposit >= 0.0 && p.dt >= 0.0
  }

  /** The functions a scene runs on each step. */
  datatype StepFunction = MoveAnts

  /** Every node has a position. */
  ghost predicate NodesPlaced(g: Topology, places: seq<Point>) {
    && (forall n | n in g :: 0 <= n < |places|)
    && (forall a, b | a in g && b in g[a] :: 0 <= b < |places|)
  }

  /** Where an ant in state `s` is drawn after advancing `delta`. */
  function Interpolated(s: AntState, delta: real, places: seq<Point>): Point
    requires 0 <= s.fromNode < |places| && 0 <= s.toNode < |places|
  {
    Lerp(places[s.fromNode], places[s.toNode], s.progress + delta)
  }

  /** Everything one tick reads and writes, as values: each ant's state,
      settings, speed and advance for this tick, the edge it is on with whether it
      carries food, the pheromone of every edge, and the drawn positions. */
  datatype Snapshot = Snapshot(
    ants: seq<AntState>,
    envs: seq<Env>,
    speeds: seq<real>,
    deltas: seq<real>,
    loads: seq<(Edge?, bool)>,
    pheromone: map<Edge, real>,
    positions: seq<Point>)

  /** One tick, as a relation between the snapshots before and after it:
      every ant has made one `walk` (its draw coming from its candidates
      and its position set from the advanced progress), and only after
      that every edge's pheromone, raised by one deposit for each carrying
      ant on it, has been multiplied by `factor`. */
  ghost predicate TickSpec(s0: Snapshot, s1: Snapshot, factor: real, p: Params, places: seq<Point>) {
    && |s0.ants| == |s0.envs| == |s0.speeds| == |s0.deltas| == |s0.loads| == |s0.positions|
    && |s1.ants| == |s0.ants| && s1.envs == s0.envs && s1.speeds == s0.speeds && |s1.positions| == |s0.positions|
    && (forall i | 0 <= i < |s0.ants| ::
          && WalkDrawn(s0.ants[i], s0.envs[i], s0.deltas[i], s1.ants[i].toNode)
          && WalkResult(s0.ants[i], s0.envs[i], s0.deltas[i], s1.ants[i].toNode) == Ok(s1.ants[i]))
    && (forall i | 0 <= i < |s0.ants| ::
          && 0 <= s0.ants[i].fromNode < |places| && 0 <= s0.ants[i].toNode < |places|
          && s1.positions[i] == Interpolated(s0.ants[i], s0.deltas[i], places))
    && s1.pheromone.Keys == s0.pheromone.Keys
    && (forall e | e in s0.pheromone ::
          s1.pheromone[e] == Decayed(AfterDeposits(s0.pheromone[e], Carriers(s0.loads, e), DepositAmount(p.pheromoneDeposit, p.dt, e.weight)), factor))
  }

  /** A tick with a positive decay factor and non-negative parameters
      keeps every edge's pheromone positive: deposits only add, and decay
      scales by a positive factor. */
  lemma TickKeepsPheromonePositive(s0: Snapshot, s1: Snapshot, factor: real, p: Params, places: seq<Point>)
    requires TickSpec(s0, s1, factor, p, places) && 0.0 < factor && ParamsOk(p)
    requires forall e | e in s0.pheromone :: s0.pheromone[e] > 0.0
    ensures forall e | e in s1.pheromone :: s1.pheromone[e] > 0.0
  {
    forall e | e in s1.pheromone ensures s1.pheromone[e] > 0.0 {
      var amount := DepositAmount(p.pheromoneDeposit, p.dt, e.weight);
      assert AfterDeposits(s0.pheromone[e], Carriers(s0.loads, e), amount) >= s0.pheromone[e];
    }
  }

  class Ant {
    const scene: Scene
    const index: nat
    var graph: Option<Adjacency>
    var isBackTracing: bool
    var backTraceList: seq<int>
    var fromNode: Option<int>
    var toNode: Option<int>
    var edge: Edge?
    var processOnEdge: real
    var hasFood: bool
    var color: Color
    var speed: real
    var noTurnBack: bool
    var backTrace: bool

    /** A new ant, not yet placed: no graph, no edge, nothing carried,
        speed 1, with anti-backtracking and back-tracing switched on. */
    constructor (scene: Scene, i: nat)
      ensures this.scene == scene && index == i
      ensures graph == None && fromNode == None && toNode == None && edge == null
      ensures !isBackTracing && backTraceList == [] && processOnEdge == 0.0
      ensures !hasFood && color == Brown && speed == 1.0
      ensures noTurnBack && backTrace
    {
      this.scene := scene;
      index := i;
      graph := None;
      isBackTracing := false;
      backTraceList := [];
      fromNode := None;
      toNode := None;
      edge := null;
      processOnEdge := 0.0;
      hasFood := false;
      color := Brown;
      speed := 1.0;
      noTurnBack := true;
      backTrace := true;
    }

    /** The ant's behavioural state as a value. */
    ghost function State(): AntState
      reads this
      requires fromNode.Some? && toNode.Some?
    {
      AntState(fromNode.value, toNode.value, processOnEdge, hasFood, isBackTracing, backTraceList)
    }

    /** What the ant reads and does not change. */
    function Context(): Env
      reads this
    {
      Env(TopologyOf(scene.graph), scene.nestNode, scene.foodNodes, noTurnBack, backTrace)
    }

    /** A prepared ant: on an edge of the scene's graph, keeping the
        foraging invariant, drawn in the colour of its food flag. */
    ghost predicate Valid()
      reads this
    {
      && fromNode.Some? && toNode.Some?
      && graph == Some(scene.graph)
      && WellFormed(TopologyOf(scene.graph))
      && AntInv(State(), Context())
      && edge == scene.graph[fromNode.value][toNode.value]
      && color == ColorOf(hasFood)
    }

    /** The ant is heading for the nest. */
    function IsAtNest(): (r: bool)
      reads this
      ensures fromNode.Some? && toNode.Some? ==> (r <==> Foraging.IsAtNest(State(), Context()))
      ensures toNode.None? ==> !r
    {
      toNode == Some(scene.nestNode)
    }

    /** The ant is heading for a food node. */
    function IsAtFood(): (r: bool)
      reads this
      ensures fromNode.Some? && toNode.Some? ==> (r <==> Foraging.IsAtFood(State(), Context()))
      ensures toNode.None? ==> !r
    {
      toNode.Some? && toNode.value in scene.foodNodes
    }

    /** Sets the food flag and, with it, the drawing colour. */
    method SetHasFood(b: bool)
      modifies this
      ensures hasFood == b && color == ColorOf(b)
      ensures graph == old(graph) && isBackTracing == old(isBackTracing) && backTraceList == old(backTraceList)
      ensures fromNode == old(fromNode) && toNode == old(toNode) && edge == old(edge)
      ensures processOnEdge == old(processOnEdge) && speed == old(speed)
      ensures noTurnBack == old(noTurnBack) && backTrace == old(backTrace)
    {
      hasFood := b;
      if b {
        color := Orange;
      } else {
        color := Brown;
      }
    }

    /** The point on the current edge given by the progress made on it. */
    function ComputePosition(): (p: Point)
      reads this
      requires fromNode.Some? && toNode.Some?
      requires 0 <= fromNode.value < |scene.nodePositions| && 0 <= toNode.value < |scene.nodePositions|
      ensures processOnEdge == 0.0 ==> p == scene.nodePositions[fromNode.value]
      ensures processOnEdge == 1.0 ==> p == scene.nodePositions[toNode.value]
      ensures 0.0 <= processOnEdge <= 1.0 ==>
        && Between(scene.nodePositions[fromNode.value].x, scene.nodePositions[toNode.value].x, p.x)
        && Between(scene.nodePositions[fromNode.value].y, scene.nodePositions[toNode.value].y, p.y)
    {
      Lerp(scene.nodePositions[fromNode.value], scene.nodePositions[toNode.value], processOnEdge)
    }

    /** The ant's slot of the scene's position array. */
    function Position(): Point
      reads this, scene, scene.antPositions
      requires scene.antPositions != null && index < scene.antPositions.Length
    {
      scene.antPositions[index]
    }

    /** Writes the ant's own slot of the scene's position array and no other. */
    method SetPosition(p: Point)
      requires scene.antPositions != null && index < scene.antPositions.Length
      modifies scene.antPositions
      ensures scene.antPositions[index] == p
      ensures forall j | 0 <= j < scene.antPositions.Length && j != index ::
        scene.antPositions[j] == old(scene.antPositions[j])
    {
      scene.antPositions[index] := p;
    }

    /** Adds one step's deposit to the current edge; with a non-negative
        deposit no edge of the graph becomes negative. */
    method DepositPheromone()
      requires edge != null && scene.params.Some?
      requires ParamsOk(scene.params.value) && NonNegative(scene.graph)
      modifies edge
      ensures edge.pheromone ==
        old(edge.pheromone) + DepositAmount(scene.params.value.pheromoneDeposit, scene.params.value.dt, edge.weight)
      ensures NonNegative(scene.graph)
    {
      var addition := scene.params.value.pheromoneDeposit * scene.params.value.dt / edge.weight;
      edge.pheromone := edge.pheromone + addition;
      forall e | e in EdgeSet(scene.graph) ensures e.pheromone >= 0.0 {
        if e == edge {
          assert old(e.pheromone) >= 0.0;
        }
      }
    }

    /** The outbound half of `pick_new_edge`, for an ant standing at its
        current node `cur`, having come from `prev`: the neighbours of
        `cur`, without `prev` when the anti-backtrack rule applies, drawn
        with weights pheromone plus 0.1. */
    method DrawNextNode(prev: int, cur: int) returns (next: int)
      requires toNode == Some(cur) && graph == Some(scene.graph)
      requires WellFormed(TopologyOf(scene.graph)) && HasNeighbour(TopologyOf(scene.graph), cur)
      requires NonNegative(scene.graph)
      ensures next in NextCandidates(AntState(prev, cur, 0.0, false, false, []), Context())
    {
      var subGraph := graph.value[cur];
      var toNodes := subGraph.Keys;
      if noTurnBack && |toNodes| > 1 && !(IsAtFood() || IsAtNest()) {
        toNodes := toNodes - {prev};
      }
      assert toNodes == NextCandidates(AntState(prev, cur, 0.0, false, false, []), Context());
      forall y | y in toNodes ensures subGraph[y].pheromone >= 0.0 {
        assert subGraph[y] in EdgeSet(scene.graph);
      }
      WeightsArePositive(subGraph, toNodes);
      var pheromones := Weights(subGraph, toNodes);
      var drawn := Draw(pheromones);
      next := drawn.value;
    }

    /** The last assignments of `pick_new_edge`: the ant stands at the start
        of the edge from `cur` to `next`, with `trail` as its list. */
    method EnterEdge(cur: int, next: int, trail: seq<int>)
      requires cur in scene.graph && next in scene.graph[cur]
      modifies this
      ensures fromNode == Some(cur) && toNode == Some(next) && backTraceList == trail
      ensures edge == scene.graph[cur][next] && processOnEdge == 0.0
      ensures graph == old(graph) && hasFood == old(hasFood) && isBackTracing == old(isBackTracing)
      ensures color == old(color) && speed == old(speed)
      ensures noTurnBack == old(noTurnBack) && backTrace == old(backTrace)
    {
      fromNode, toNode := Some(cur), Some(next);
      backTraceList := trail;
      edge := scene.graph[cur][next];
      processOnEdge := 0.0;
    }

    /** `pick_new_edge`: moves the ant onto its next edge, popping the
        back-trace list on the way home and otherwise drawing among the
        candidates by pheromone plus 0.1. */
    method PickNewEdge()
      requires fromNode.Some? && toNode.Some? && graph == Some(scene.graph)
      requires WellFormed(TopologyOf(scene.graph))
      requires PickReady(State(), Context()) && NonNegative(scene.graph)
      requires color == ColorOf(hasFood)
      modifies this
      ensures Valid()
      ensures DrawnFromCandidates(old(State()), Context(), toNode.value)
      ensures Pick(old(State()), Context(), toNode.value) == Ok(State())
      ensures speed == old(speed) && noTurnBack == old(noTurnBack) && backTrace == old(backTrace)
    {
      ghost var s0 := State();
      ghost var ctx := Context();
      var prev, cur := fromNode.value, toNode.value;
      var trail := backTraceList;
      if backTrace && !isBackTracing {
        trail := trail + [prev];
      }
      var next;
      if hasFood && backTrace && isBackTracing {
        PickByRetrace(s0, ctx);
        next := trail[|trail| - 1];
        var firstOccurrence := IndexOf(trail, next);
        trail := trail[..firstOccurrence];
      } else {
        next := DrawNextNode(prev, cur);
        assert NextCandidates(s0, ctx) == NextCandidates(AntState(prev, cur, 0.0, false, false, []), ctx);
        PickByDraw(s0, ctx, next);
      }
      EnterEdge(cur, next, trail);
    }

    /** `prepare`: takes speed and graph from the scene, stands on the
        nest and picks a first edge. */
    method Prepare()
      requires !hasFood && !isBackTracing && backTraceList == [] && color == Brown && processOnEdge == 0.0
      requires scene.params.Some? && HasNeighbour(TopologyOf(scene.graph), scene.nestNode)
      requires WellFormed(TopologyOf(scene.graph)) && NonNegative(scene.graph)
      modifies this
      ensures Valid()
      ensures speed == scene.params.value.antSpeed
      ensures noTurnBack == old(noTurnBack) && backTrace == old(backTrace)
      ensures fromNode == Some(scene.nestNode) && toNode.value in scene.graph[scene.nestNode]
      ensures backTraceList == (if backTrace then [scene.nestNode] else [])
      ensures processOnEdge == 0.0 && !hasFood
    {
      speed := scene.params.value.antSpeed;
      graph := Some(scene.graph);
      toNode := Some(scene.nestNode);
      fromNode := Some(scene.nestNode);
      assert State() == AntState(scene.nestNode, scene.nestNode, 0.0, false, false, []);
      assert PickReady(State(), Context());
      PickNewEdge();
    }

    /** The flag changes `walk` makes on reaching the end of an edge: an
        ant reaching food without carrying any picks it up and starts
        back-tracing, recording the node it came from; an ant reaching the
        nest with food drops it and restarts its list at the nest. */
    method ReachEnd()
      requires fromNode.Some? && toNode.Some? && color == ColorOf(hasFood)
      modifies this
      ensures fromNode == old(fromNode) && toNode == old(toNode)
      ensures State() == Arrive(old(State()), Context())
      ensures color == ColorOf(hasFood)
      ensures graph == old(graph) && edge == old(edge) && speed == old(speed)
      ensures noTurnBack == old(noTurnBack) && backTrace == old(backTrace)
    {
      if IsAtFood() && !hasFood {
        SetHasFood(true);
        isBackTracing := true;
        backTraceList := backTraceList + [fromNode.value];
      } else if IsAtNest() && hasFood {
        SetHasFood(false);
        isBackTracing := false;
        backTraceList := [scene.nestNode];
      }
    }

    /** The second half of `walk`, for an ant past the end of its edge:
        the flag changes, then the choice of the next edge. */
    method LeaveNode()
      requires Valid() && NonNegative(scene.graph)
      modifies this
      ensures Valid()
      ensures DrawnFromCandidates(Arrive(old(State()), Context()), Context(), toNode.value)
      ensures Pick(Arrive(old(State()), Context()), Context(), toNode.value) == Ok(State())
      ensures speed == old(speed) && noTurnBack == old(noTurnBack) && backTrace == old(backTrace)
    {
      ghost var s0 := State();
      ReachEnd();
      ArriveIsReady(s0, Context());
      PickNewEdge();
    }

    /** The fraction of the current edge walked in time `dt`. */
    function Delta(dt: real): real
      reads this
      requires edge != null
    {
      dt * speed / edge.weight
    }

    /** The first half of `walk`: the ant advances along its edge, is redrawn
        at its new position on it and, when carrying food, deposits on it. */
    method MoveAlong(dt: real)
      requires Valid()
      requires scene.params.Some? && ParamsOk(scene.params.value)
      requires NonNegative(scene.graph)
      requires NodesPlaced(TopologyOf(scene.graph), scene.nodePositions)
      requires scene.antPositions != null && index < scene.antPositions.Length
      modifies this, edge, scene.antPositions
      ensures fromNode.Some? && toNode.Some? && State() == Advance(old(State()), old(Delta(dt)))
      ensures graph == old(graph) && edge == old(edge) && color == old(color)
      ensures speed == old(speed) && noTurnBack == old(noTurnBack) && backTrace == old(backTrace)
      ensures NonNegative(scene.graph)
      ensures edge.pheromone == old(edge.pheromone) +
        (if hasFood then DepositAmount(scene.params.value.pheromoneDeposit, scene.params.value.dt, edge.weight) else 0.0)
      ensures scene.antPositions[index] == Interpolated(old(State()), old(Delta(dt)), scene.nodePositions)
      ensures forall j | 0 <= j < scene.antPositions.Length && j != index ::
        scene.antPositions[j] == old(scene.antPositions[j])
    {
      Symmetric(TopologyOf(scene.graph), fromNode.value, toNode.value);
      var progress := dt * speed;
      processOnEdge := processOnEdge + progress / edge.weight;
      SetPosition(ComputePosition());
      if hasFood {
        DepositPheromone();
      }
    }

    /** `walk`: one time step of the ant. */
    method Walk(dt: real)
      requires Valid()
      requires scene.params.Some? && ParamsOk(scene.params.value)
      requires NonNegative(scene.graph)
      requires NodesPlaced(TopologyOf(scene.graph), scene.nodePositions)
      requires scene.antPositions != null && index < scene.antPositions.Length
      modifies this, edge, scene.antPositions
      ensures Valid() && NonNegative(scene.graph)
      ensures speed == old(speed) && noTurnBack == old(noTurnBack) && backTrace == old(backTrace)
      ensures WalkDrawn(old(State()), Context(), old(Delta(dt)), toNode.value)
      ensures WalkResult(old(State()), Context(), old(Delta(dt)), toNode.value) == Ok(State())
      ensures old(edge).pheromone == old(edge.pheromone) +
        (if old(hasFood) then DepositAmount(scene.params.value.pheromoneDeposit, scene.params.value.dt, old(edge.weight)) else 0.0)
      ensures scene.antPositions[index] == Interpolated(old(State()), old(Delta(dt)), scene.nodePositions)
      ensures forall j | 0 <= j < scene.antPositions.Length && j != index ::
        scene.antPositions[j] == old(scene.antPositions[j])
    {
      MoveAlong(dt);
      if processOnEdge > 1.0 {
        LeaveNode();
      }
    }
  }

  class Scene {
    const graph: Adjacency
    const nestNode: int
    const foodNodes: seq<int>
    const nodePositions: seq<Point>
    var params: Option<Params>
    var totalAnts: nat
    var antList: seq<Ant>
    var antPositions: array?<Point>
    var onStepFunctions: seq<StepFunction>

    /** A scene over the graph that graph construction handed over, with
        no parameters and no ants yet, and `move` registered as its one
        step function. */
    constructor (graph: Adjacency, nestNode: int, foodNodes: seq<int>, nodePositions: seq<Point>)
      ensures this.graph == graph && this.nestNode == nestNode
      ensures this.foodNodes == foodNodes && this.nodePositions == nodePositions
      ensures params == None && totalAnts == 0 && antList == [] && antPositions == null
      ensures onStepFunctions == [MoveAnts]
    {
      this.graph := graph;
      this.nestNode := nestNode;
      this.foodNodes := foodNodes;
      this.nodePositions := nodePositions;
      params := None;
      totalAnts := 0;
      antList := [];
      antPositions := null;
      onStepFunctions := [MoveAnts];
    }

    /** What stays fixed once the scene is prepared: every node has a
        position, the parameters are set, there is one position slot per
        ant and ant i sits at index i. */
    ghost predicate Placed()
      reads this, antList
    {
      && NodesPlaced(TopologyOf(graph), nodePositions)
      && params.Some? && ParamsOk(params.value)
      && antPositions != null && antPositions.Length == |antList|
      && (forall i | 0 <= i < |antList| :: antList[i].index == i && antList[i].scene == this)
      && onStepFunctions == [MoveAnts]
    }

    /** A prepared scene: a well-formed placed graph without negative
        pheromone, and every ant valid. */
    ghost predicate Valid()
      reads this, antList, EdgeSet(graph)
    {
      && GraphOk(graph) && HasNeighbour(TopologyOf(graph), nestNode) && Placed()
      && NonNegative(graph)
      && (forall i | 0 <= i < |antList| :: antList[i].Valid())
    }

    /** The values one tick reads and writes. */
    ghost function Snap(): Snapshot
      reads this, antList, EdgeSet(graph), antPositions
      requires Valid()
    {
      Snapshot(
        seq(|antList|, i requires 0 <= i < |antList| && antList[i].fromNode.Some? && antList[i].toNode.Some?
                         reads this, antList => antList[i].State()),
        seq(|antList|, i requires 0 <= i < |antList| reads this, antList => antList[i].Context()),
        seq(|antList|, i requires 0 <= i < |antList| reads this, antList => antList[i].speed),
        seq(|antList|, i requires 0 <= i < |antList| && params.Some? && antList[i].edge != null
                         reads this, antList => antList[i].Delta(params.value.dt)),
        seq(|antList|, i requires 0 <= i < |antList| reads this, antList => (antList[i].edge, antList[i].hasFood)),
        Pheromones(),
        antPositions[..])
    }

    /** `_create_colony`: appends `totalAnts` new ants, indexed 0 to
        `totalAnts - 1` in order, preparing each one. */
    method CreateColony()
      requires params.Some? && GraphOk(graph) && HasNeighbour(TopologyOf(graph), nestNode) && NonNegative(graph)
      modifies this
      ensures |antList| == |old(antList)| + totalAnts && antList[..|old(antList)|] == old(antList)
      ensures forall j | |old(antList)| <= j < |antList| ::
        && fresh(antList[j])
        && antList[j].index == j - |old(antList)|
        && antList[j].scene == this
        && antList[j].Valid()
        && antList[j].fromNode == Some(nestNode) && antList[j].toNode.value in graph[nestNode]
        && antList[j].speed == old(params).value.antSpeed && antList[j].processOnEdge == 0.0
        && !antList[j].hasFood && antList[j].backTraceList == [nestNode]
      ensures params == old(params) && totalAnts == old(totalAnts)
      ensures antPositions == old(antPositions) && onStepFunctions == old(onStepFunctions)
    {
      ghost var n0 := |antList|;
      var i := 0;
      while i < totalAnts
        invariant 0 <= i <= totalAnts
        invariant |antList| == n0 + i && antList[..n0] == old(antList)
        invariant params == old(params) && totalAnts == old(totalAnts)
        invariant forall j | n0 <= j < |antList| ::
          && fresh(antList[j])
          && antList[j].index == j - n0
          && antList[j].scene == this
          && antList[j].Valid()
          && antList[j].fromNode == Some(nestNode) && antList[j].toNode.value in graph[nestNode]
          && antList[j].speed == params.value.antSpeed && antList[j].processOnEdge == 0.0
          && !antList[j].hasFood && antList[j].backTraceList == [nestNode]
        invariant antPositions == old(antPositions) && onStepFunctions == old(onStepFunctions)
        invariant NonNegative(graph)
      {
        var ant := new Ant(this, i);
        antList := antList + [ant];
        ant.Prepare();
        i := i + 1;
      }
    }

    /** `prepare`: registers the parameters, creates the colony and puts
        every ant's drawn position on the nest. */
    method Prepare(p: Params)
      requires antList == [] && onStepFunctions == [MoveAnts]
      requires GraphOk(graph) && HasNeighbour(TopologyOf(graph), nestNode) && NodesPlaced(TopologyOf(graph), nodePositions)
      requires NonNegative(graph) && ParamsOk(p)
      modifies this
      ensures Valid()
      ensures params == Some(p) && totalAnts == old(totalAnts) && |antList| == totalAnts
      ensures fresh(antPositions)
      ensures forall i | 0 <= i < totalAnts :: antPositions[i] == nodePositions[nestNode]
      ensures forall i | 0 <= i < totalAnts ::
        && fresh(antList[i])
        && antList[i].fromNode == Some(nestNode) && antList[i].toNode.value in graph[nestNode]
        && antList[i].speed == p.antSpeed && antList[i].processOnEdge == 0.0
        && !antList[i].hasFood && antList[i].backTraceList == [nestNode]
    {
      params := Some(p);
      CreateColony();
      var positions := new Point[totalAnts](_ => Point(0.0, 0.0));
      antPositions := positions;
      var nest := nodePositions[nestNode];
      var i := 0;
      while i < totalAnts
        modifies positions
        invariant 0 <= i <= totalAnts
        invariant forall j | 0 <= j < i :: positions[j] == nest
      {
        positions[i] := nest;
        i := i + 1;
      }
    }

    /** Part way through `move`'s walking loop of the tick that started in
        `s0`: ants before `i` have made their walk and drawn themselves
        where it took them, the others are as they were. */
    ghost predicate Walked(s0: Snapshot, i: nat)
      reads this, antList, antPositions
    {
      && Placed()
      && i <= |antList| == |s0.ants| == |s0.envs| == |s0.speeds| == |s0.deltas| == |s0.loads| == |s0.positions| == antPositions.Length
      && (forall j | 0 <= j < |antList| ::
            antList[j].Valid() && antList[j].Context() == s0.envs[j] && antList[j].speed == s0.speeds[j])
      && (forall j | i <= j < |antList| ::
            && antList[j].State() == s0.ants[j]
            && antList[j].Delta(params.value.dt) == s0.deltas[j]
            && (antList[j].edge, antList[j].hasFood) == s0.loads[j]
            && antPositions[j] == s0.positions[j])
      && (forall j | 0 <= j < i ::
            && 0 <= s0.ants[j].fromNode < |nodePositions| && 0 <= s0.ants[j].toNode < |nodePositions|
            && WalkDrawn(s0.ants[j], s0.envs[j], s0.deltas[j], antList[j].toNode.value)
            && WalkResult(s0.ants[j], s0.envs[j], s0.deltas[j], antList[j].toNode.value) == Ok(antList[j].State())
            && antPositions[j] == Interpolated(s0.ants[j], s0.deltas[j], nodePositions))
    }

    /** Part way through the same loop: every edge holds its pheromone at
        the start of the tick plus one deposit per carrying ant before `i`
        that was on it. */
    ghost predicate Deposited(s0: Snapshot, i: nat)
      reads this, EdgeSet(graph)
    {
      && params.Some? && i <= |s0.loads|
      && (forall e | e in EdgeSet(graph) ::
            && e in s0.pheromone
            && e.pheromone == AfterDeposits(s0.pheromone[e], Carriers(s0.loads[..i], e),
          DepositAmount(params.value.pheromoneDeposit, params.value.dt, e.weight)))
    }

    /** The walking loop starts from the snapshot of the scene. */
    lemma StartTick(s0: Snapshot)
      requires Valid() && s0 == Snap()
      ensures Walked(s0, 0) && Deposited(s0, 0)
    {
      assert s0.loads[..0] == [];
    }

    /** One turn of `move`'s walking loop: ant `i` walks. */
    method WalkAnt(i: nat, ghost s0: Snapshot)
      requires i < |antList| && NonNegative(graph)
      requires Walked(s0, i) && Deposited(s0, i)
      modifies antList[i], antList[i].edge, antPositions
      ensures NonNegative(graph) && Walked(s0, i + 1) && Deposited(s0, i + 1)
    {
      var ant := antList[i];
      ghost var e0, food := ant.edge, ant.hasFood;
      ant.Walk(params.value.dt);
      assert s0.loads[..i + 1] == s0.loads[..i] + [s0.loads[i]];
      forall e | e in EdgeSet(graph)
        ensures e.pheromone == AfterDeposits(s0.pheromone[e], Carriers(s0.loads[..i + 1], e),
          DepositAmount(params.value.pheromoneDeposit, params.value.dt, e.weight))
      {
        assert Carriers(s0.loads[..i + 1], e) == Carriers(s0.loads[..i], e) + (if (e0, food) == (e, true) then 1 else 0);
      }
    }

    /** The pheromone on every edge. */
    ghost function Pheromones(): (m: map<Edge, real>)
      reads this, EdgeSet(graph)
      ensures m.Keys == EdgeSet(graph)
      ensures forall e | e in EdgeSet(graph) :: m[e] == e.pheromone
    {
      map e | e in EdgeSet(graph) :: e.pheromone
    }

    /** `move`'s walking loop: every ant walks once, in list order. */
    method WalkAll(ghost s0: Snapshot)
      requires Valid() && s0 == Snap()
      modifies antList, EdgeSet(graph), antPositions
      ensures NonNegative(graph) && Walked(s0, |antList|)
      ensures forall e | e in EdgeSet(graph) ::
        && e in s0.pheromone
        && e.pheromone == AfterDeposits(s0.pheromone[e], Carriers(s0.loads, e),
             DepositAmount(params.value.pheromoneDeposit, params.value.dt, e.weight))
    {
      StartTick(s0);
      var i := 0;
      while i < |antList|
        invariant 0 <= i <= |antList|
        invariant NonNegative(graph) && Walked(s0, i) && Deposited(s0, i)
      {
        WalkAnt(i, s0);
        i := i + 1;
      }
      assert s0.loads[..i] == s0.loads;
    }

    /** `move`'s decay loop: multiplies every edge's pheromone by `factor`;
        with a factor in [0, 1] no edge becomes negative. */
    method Decay(factor: real, ghost s0: Snapshot)
      requires 0.0 <= factor && NonNegative(graph) && Walked(s0, |antList|)
      modifies EdgeSet(graph)
      ensures NonNegative(graph) && Walked(s0, |antList|)
      ensures forall e | e in EdgeSet(graph) :: e.pheromone == Decayed(old(e.pheromone), factor)
    {
      var todo := EdgeSet(graph);
      while todo != {}
        invariant todo <= EdgeSet(graph)
        invariant forall e | e in EdgeSet(graph) ::
          e.pheromone == if e in todo then old(e.pheromone) else Decayed(old(e.pheromone), factor)
        decreases |todo|
      {
        var e :| e in todo;
        e.pheromone := Decayed(e.pheromone, factor);
        todo := todo - {e};
      }
    }

    /** After both loops the scene is valid again and its snapshot is the
        one `TickSpec` relates to the snapshot at the start. */
    lemma FinishTick(s0: Snapshot, mid: map<Edge, real>, factor: real)
      requires GraphOk(graph) && HasNeighbour(TopologyOf(graph), nestNode) && 0.0 <= factor
      requires NonNegative(graph) && Walked(s0, |antList|)
      requires mid.Keys == EdgeSet(graph)
      requires forall e | e in EdgeSet(graph) ::
        && e in s0.pheromone
        && mid[e] == AfterDeposits(s0.pheromone[e], Carriers(s0.loads, e),
             DepositAmount(params.value.pheromoneDeposit, params.value.dt, e.weight))
      requires forall e | e in EdgeSet(graph) :: e.pheromone == Decayed(mid[e], factor)
      requires s0.pheromone.Keys == EdgeSet(graph)
      ensures Valid()
      ensures TickSpec(s0, Snap(), factor, params.value, nodePositions)
    {
      var s1 := Snap();
      assert s1.envs == s0.envs;
    }

    /** `move`: walks every ant once, in list order, then multiplies every
        edge's pheromone by `factor`, the value of
        `(1 - pheromone_decay) ** dt`. */
    method Move(factor: real)
      requires Valid() && 0.0 <= factor <= 1.0
      modifies antList, EdgeSet(graph), antPositions
      ensures Valid()
      ensures TickSpec(old(Snap()), Snap(), factor, params.value, nodePositions)
    {
      ghost var s0 := Snap();
      WalkAll(s0);
      ghost var mid := Pheromones();
      Decay(factor, s0);
      FinishTick(s0, mid, factor);
    }

    /** `step`: runs every registered step function once, in order; the
        one registered is `move`, so a step is one tick. */
    method Step(factor: real)
      requires Valid() && 0.0 <= factor <= 1.0
      modifies antList, EdgeSet(graph), antPositions
      ensures Valid()
      ensures TickSpec(old(Snap()), Snap(), factor, params.value, nodePositions)
    {
      ghost var s0 := Snap();
      for k := 0 to |onStepFunctions|
        invariant Valid()
        invariant k == 0 ==> Snap() == s0
        invariant k == 1 ==> TickSpec(s0, Snap(), factor, params.value, nodePositions)
      {
        match onStepFunctions[k]
        case MoveAnts => Move(factor);
      }
    }
  }
}
