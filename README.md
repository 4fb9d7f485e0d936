# antennae: ants foraging on a pheromone graph

This project models the agent engine of *antennae*, an ant-colony
simulation. Ants walk a shared undirected graph between a nest and food
nodes. An ant moves along its current edge at `speed / weight` per unit
of time. Carrying food, it deposits pheromone on that edge, in an amount
inversely proportional to the edge's length. At the end of an edge it
picks the next one:

- An outbound ant draws among the neighbours, with weight pheromone
  plus 0.1, and avoids turning straight back unless it stands at the
  nest or a food node, or has no other choice.
- An ant carrying food retraces its recorded list of nodes home and
  skips any loop it made on the way out.

The scene walks every ant once per tick, in list order. Only then does
it multiply every edge's pheromone by the decay factor.

The files:

- `outcomes.dfy` (`Outcomes`) holds `Option`, `Result`, and the
  exceptions of the engine as `Fault` values.
- `graph.dfy` (`Graph`) holds the `Edge` object. It is shared by both
  directions, like a networkx edge dictionary. The file also has the
  graph shape and the deposit and decay arithmetic.
- `selection.dfy` (`Selection`) holds the candidate set, the draw
  weights, and the weighted draw.
- `trail.dfy` (`Trail`) holds `list.index` and the back-trace pop, with
  what the route home looks like.
- `foraging.dfy` (`Foraging`) holds the ant's state machine as values:
  `Arrive`, `Pick`, `WalkResult`, and the invariant a prepared ant keeps.
- `colony.dfy` (`Colony`) holds the `Ant` and `Scene` classes. Their
  fields change in place, and each method is proved to follow the
  `Foraging` definitions. The same file has `TickSpec`, which relates the
  snapshot of a scene before a tick to the snapshot after it.

## Model

| member | source | states |
|---|---|---|
| Graph.Edge.constructor | scene.py:95-98 | a new edge has the given length and starts with pheromone 0.1 |
| Graph.DepositAmount | ant.py:72-81 | the deposit of one step is non-negative when the rate and the time step are |
| Graph.DepositTimesLength | ant.py:75-79 | deposit times edge length equals rate times time step, so the deposit is inversely proportional to the length |
| Graph.DepositInverseToLength | ant.py:75-79 | over the same time, an edge half as long receives twice the deposit |
| Graph.AfterDeposits | ant.py:81 | adding deposits never lowers an edge's pheromone |
| Graph.AfterDepositsIsProduct | scene.py:150-151 | n deposits made one after another add up to n times the amount |
| Graph.Decayed | scene.py:152-153 | decay by a factor in [0, 1] keeps pheromone non-negative and never raises it; a positive factor keeps positive pheromone positive |
| Graph.DecayKeepsRatios | scene.py:152-153 | decay keeps the ratio between any two edges' pheromone |
| Graph.Carriers | scene.py:150-151 | an edge gets at most one deposit per ant in a tick |
| Graph.CarriersIgnoreOrder | scene.py:150-151 | the number of deposits an edge gets in a tick is the multiplicity of (edge, carrying) among the ants, whatever their order |
| Selection.Candidates | ant.py:110-113 | the candidates are the neighbours, without the previous node exactly when the anti-backtrack rule applies (the switch is on, the node has more than one neighbour, and the ant is neither at the nest, `Foraging.IsAtNest`, nor at a food node, `Foraging.IsAtFood`); never empty when the node has a neighbour |
| Selection.Weights | ant.py:114 | one weight per candidate; when no candidate's edge has negative pheromone, every weight is at least the 0.1 floor |
| Selection.WeightsArePositive | ant.py:114-116 | with no negative pheromone every candidate has weight at least 0.1, so every candidate can be drawn |
| Selection.Draw | ant.py:115-116 | the weights are divided by their sum before the draw, so it succeeds exactly when the weights are nonempty, all of one sign and not all zero (`Drawable`), and then returns a node of nonzero weight (one in `Support`, the set of nonzero-weight nodes); an empty map fails as having no candidates, any other undrawable map with numpy's `ValueError` |
| Selection.DrawableExamples | ant.py:115-116 | all-negative weights can be drawn from and every node of them can come out; weights of mixed sign, or all zero, cannot; a node of zero weight never comes out |
| Trail.IndexOf | ant.py:107 | the result is the first position holding the value |
| Trail.PopBackTrace | ant.py:105-108 | an empty list raises, and a non-empty one always pops; the next node is the last entry, and the list shrinks to the part before that node's first occurrence, which does not contain it |
| Trail.RetraceHasNoRepeats | ant.py:98-108 | the route home visits no node twice and only nodes of the list |
| Trail.RetraceEndsAtStart | ant.py:98-108 | the route home ends at the first node of the list |
| Trail.RetraceFollowsEdges | ant.py:98-108 | when the list followed by the current node is a chain of neighbours, every step of the route home is an edge of the graph |
| Trail.RetraceCollapsesLoops | ant.py:98 | the list 1, 2, 3, 2, 4 is retraced as 4, 2, 1 |
| Foraging.Pick | ant.py:89-118 | a pick starts the new edge at the node reached with progress 0; retracing with an empty list raises; retracing heads for the last node and keeps a shorter prefix without it; outbound it succeeds exactly when the node has a neighbour, goes to a candidate and never turns back where the rule forbids it |
| Foraging.PickKeepsInvariant | ant.py:89-118 | an ant ready to pick never raises and ends up valid: on an edge of the graph, with a back-trace list in the right shape |
| Foraging.PickByRetrace | ant.py:105-108 | a ready returning ant moves to the last node of its list and keeps the part of the list before its first occurrence |
| Foraging.PickByDraw | ant.py:101-116 | a ready outbound ant moves to the drawn candidate, and its list gains the node it came from when back-tracing is on |
| Foraging.Arrive | ant.py:52-60 | arriving keeps the edge and the progress; when the food flag is unchanged nothing changes; an ant without food at a food node picks it up, starts back-tracing and appends the node it came from to its list, and food is picked up nowhere else; an ant with food at the nest drops it, stops back-tracing and resets its list to just the nest, and food is dropped nowhere else |
| Foraging.WalkResult | ant.py:40-61 | a step that stays on the edge only adds `delta` to the progress and keeps the rest; a step past the end that succeeds starts, with progress 0, on an edge of the graph out of the node just reached |
| Foraging.ArriveIsReady | ant.py:52-60 | after the flag changes at the end of an edge, a valid ant is ready to pick |
| Foraging.WalkKeepsInvariant | ant.py:40-61 | one time step of a valid ant never raises and leaves it valid |
| Foraging.FirstPickFromNest | ant.py:34-38 | the first pick from the nest succeeds, leaves the ant on an edge out of the nest, and sets the list to just the nest |
| Foraging.FoodArrivalTurnsBack | ant.py:53-56 | an outbound ant reaching food picks it up, starts back-tracing and heads straight back to the node it came from |
| Foraging.NestArrivalRestarts | ant.py:57-60 | a returning ant reaching the nest drops its food, stops back-tracing and sets out again with the list holding the nest and the node it came from |
| Colony.Lerp | ant.py:63-70 | progress 0 gives the start node, 1 gives the end node, and progress in [0, 1] lies between them on both axes |
| Colony.TickKeepsPheromonePositive | scene.py:144-153 | a tick with a positive decay factor keeps every edge's pheromone positive |
| Colony.Ant.constructor | ant.py:8-24 | a new ant has no graph and no edge, carries nothing, is brown, has speed 1 and has both behaviour switches on |
| Colony.Ant.SetHasFood | ant.py:146-152 | the food flag is set and the colour follows it (orange when carrying), nothing else changes |
| Colony.Ant.ComputePosition | ant.py:63-70 | the drawn point is the start node at progress 0 and the end node at progress 1, and lies between them for progress in [0, 1] |
| Colony.Ant.SetPosition | ant.py:128-135 | writes the ant's own position slot and no other |
| Colony.Ant.DepositPheromone | ant.py:72-81 | the current edge gains one step's deposit, and no edge becomes negative |
| Colony.Ant.DrawNextNode | ant.py:110-116 | the drawn node is one of the candidates of the state machine; whether turning back is allowed is decided by the ant's own `IsAtNest` and `IsAtFood`, which agree with the state machine's tests |
| Colony.Ant.EnterEdge | ant.py:117-118 | the ant stands at the start of the edge between the two nodes, with the given list |
| Colony.Ant.PickNewEdge | ant.py:89-118 | the new state is the state machine's `Pick` of the old one, with a draw taken from the candidates, and the ant is valid |
| Colony.Ant.Prepare | ant.py:26-38 | the ant takes the scene's speed and graph, leaves the nest on a nest edge with the list holding the nest, and is valid |
| Colony.Ant.ReachEnd | ant.py:52-60 | the flag changes are the state machine's `Arrive`, with the colour following the food flag |
| Colony.Ant.LeaveNode | ant.py:52-61 | the new state is `Pick` applied after `Arrive`, and the ant is valid |
| Colony.Ant.MoveAlong | ant.py:47-51 | progress grows by `dt * speed / weight`, the position slot is redrawn from it, and a carrying ant deposits on its edge |
| Colony.Ant.Walk | ant.py:40-61 | the new state is the state machine's `WalkResult`, the old edge gained a deposit exactly when the ant carried food, the ant's slot holds the interpolated point, other slots are unchanged, and the ant stays valid |
| Colony.Scene.constructor | scene.py:16-35 | a new scene has no parameters and no ants, and `move` as its one step function |
| Colony.Scene.CreateColony | scene.py:37-41 | appends one fresh, prepared, valid ant per count, with indices 0 up in order; each leaves the nest on a nest edge, at progress 0, with the parameters' speed, no food, and a list holding just the nest; the ants already in the list are kept |
| Colony.Scene.Prepare | scene.py:43-55 | records the parameters, creates one ant per count, draws every ant at the nest, and leaves a valid scene; every ant leaves the nest on a nest edge, at progress 0, with speed `p.antSpeed`, no food, and a list holding just the nest |
| Colony.Scene.StartTick | scene.py:150-151 | before the walking loop, no ant has walked and no deposit is made |
| Colony.Scene.WalkAnt | scene.py:150-151 | after ant i walks, the first i + 1 ants have made their walk and their deposits; every ant keeps its speed and settings |
| Colony.Scene.WalkAll | scene.py:150-151 | after the walking loop every ant has walked once, keeping its speed, and each edge holds its pheromone at the start plus one deposit per carrying ant on it |
| Colony.Scene.Decay | scene.py:152-153 | every edge's pheromone is multiplied by the factor, and none becomes negative |
| Colony.Scene.FinishTick | scene.py:144-153 | the two loops together give the tick described by `TickSpec` and a valid scene |
| Colony.Scene.Move | scene.py:144-153 | one tick: every ant follows `WalkResult` from its state at the start of the tick and keeps its speed and settings, and every edge ends at the decay of its start value plus the deposits of the carrying ants on it |
| Colony.Scene.Step | scene.py:155-160 | running the registered step functions is one tick, as `TickSpec` describes it: ant states, unchanged speeds and settings, positions and pheromone |

## Left out

- Graph construction (`_create_graph`, `create_random_configuration`, `create_cellular_configuration`, `plot_graph`) is not part of this model. The scene receives its graph, nest, food nodes and node positions when it is made. `Scene.Prepare` requires the graph to be well formed (undirected, no self-loops, one shared edge object per edge), the nest to have a neighbour, and all pheromone to be non-negative, which is what construction delivers.
- Graph.Edge.constructor: the length is a positive real by its type. Construction takes the Euclidean distance between two distinct random points, which is positive.
- Floating point is modelled as exact reals. `(1 - pheromone_decay) ** dt` is not computed: `Move` and `Step` take its value as `factor`, in [0, 1]. `Params.pheromoneDecay` is kept as the value it is computed from, and no member reads it.
- Selection.Draw: the numpy weighted draw is modelled by its support only. The model says which nodes can come out, not with what probability.
- `np.random.seed` and `random.seed` are left out. The random state is not modelled, and `params.seed`, which the source reads, is not an attribute of `params.py`'s `Parameters`.
- Colony.Ant.PickNewEdge, Colony.Ant.LeaveNode, Colony.Ant.Walk: these require the state a prepared ant keeps. In that state they never raise. The `IndexError`, `ValueError` and `KeyError` of the source are modelled in `Foraging.Pick` and `Selection.Draw`, and `Foraging.PickKeepsInvariant` proves they cannot happen for such an ant.
- Colony.Ant.Walk, Colony.Scene.Move: they require a non-negative deposit rate and time step, so that pheromone stays non-negative. With negative parameters pheromone could go negative. The weights could then have mixed signs or sum to zero, and the source's draw would raise `ValueError`. That case is modelled only in `Selection.Draw`.
- Colony.Ant.Prepare: requires the ant to be fresh (nothing carried, not back-tracing, empty list, brown, progress 0), because `prepare` is only called on a new ant.
- Colony.Scene.Prepare: requires an empty ant list, because `prepare` is called once per scene. A second call would give two ants the same index and position slot.
- `walk`, `pick_new_edge` and `move` are each split into small methods: `MoveAlong`, `ReachEnd` and `LeaveNode`; `DrawNextNode` and `EnterEdge`; `WalkAll`, `WalkAnt` and `Decay`. Each has its own contract, and the statements run in the source's order.
- `Ant.ALWAYS`, `Ant.WAY_BACK`, `deposit_on`, the scene's `time`, `counter` and `size`, and the position getter are not used by the engine. They are left out, except the getter, which is `Ant.Position`, a function without a contract.
- The visualisation, the simulation driver and `params.py` (apart from the four parameters the engine reads) are not part of this model.
