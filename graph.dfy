/** The shared road network and the pheromone field stored on it.
    Nodes are integer ids; an undirected edge is ONE `Edge` object that is
    reachable from both of its endpoints, so a deposit made through
    `g[a][b]` is seen through `g[b][a]`. */
module Graph {

  /** Pheromone on every edge right after graph construction. */
  const InitialPheromone: real := 0.1

  /** An edge length: distinct node positions are a positive distance apart. */
  type Length = w: real | w > 0.0 witness 1.0

  /** One undirected edge: a fixed length and a mutable pheromone level. */
  class Edge {
    const weight: Length
    var pheromone: real

    /** Graph construction stores the Euclidean distance as the weight and
        starts the pheromone at `InitialPheromone`. */
    constructor (weight: Length)
      ensures this.weight == weight
      ensures pheromone == InitialPheromone
    {
      this.weight := weight;
      pheromone := InitialPheromone;
    }
  }

  /** node -> neighbour -> edge, the dictionary-of-dictionaries of the graph. */
  type Adjacency = map<int, map<int, Edge>>

  /** node -> its neighbours: the shape of the graph without the edge data. */
  type Topology = map<int, set<int>>

  /** The shape of `g`. */
  function TopologyOf(g: Adjacency): (t: Topology)
    ensures t.Keys == g.Keys
    ensures forall a | a in g :: t[a] == g[a].Keys
  {
    map a | a in g :: g[a].Keys
  }

  /** An undirected graph without self-loops: every neighbour is a node
      that has the first node as its neighbour in turn. */
  ghost predicate WellFormed(t: Topology) {
    forall a, b | a in t && b in t[a] :: b in t && a in t[b] && a != b
  }

  /** `n` is a node with at least one neighbour. */
  predicate HasNeighbour(t: Topology, n: int) {
    n in t && t[n] != {}
  }

  /** The graph handed over by graph construction: well-formed, and both
      directions of an edge share one edge object. */
  ghost predicate GraphOk(g: Adjacency) {
    && WellFormed(TopologyOf(g))
    && (forall a, b | a in g && b in g[a] :: b in g && a in g[b] && g[b][a] == g[a][b])
  }

  /** Every edge object of the graph, each undirected edge once. */
  function EdgeSet(g: Adjacency): set<Edge> {
    set a, b | a in g && b in g[a] :: g[a][b]
  }

  /** No edge carries negative pheromone. */
  ghost predicate NonNegative(g: Adjacency)
    reads EdgeSet(g)
  {
    forall e | e in EdgeSet(g) :: e.pheromone >= 0.0
  }

  /** The pheromone an ant carrying food adds to an edge in one step:
      the deposit rate times the time step, divided by the edge length so
      that long and short edges are reinforced alike per unit of traffic. */
  function DepositAmount(deposit: real, dt: real, weight: real): (r: real)
    requires weight > 0.0
    ensures deposit >= 0.0 && dt >= 0.0 ==> r >= 0.0
  {
    deposit * dt / weight
  }

  /** A deposit times the edge length is the deposit rate times the time
      step: the amount is inversely proportional to the length. */
  lemma DepositTimesLength(deposit: real, dt: real, weight: real)
    requires weight > 0.0
    ensures DepositAmount(deposit, dt, weight) * weight == deposit * dt
  {
  }

  /** Pheromone `p` after `n` deposits of `amount` each, adding one at a
      time as the ants walk in turn. */
  function AfterDeposits(p: real, n: nat, amount: real): (r: real)
    ensures amount >= 0.0 ==> r >= p
  {
    if n == 0 then p else AfterDeposits(p, n - 1, amount) + amount
  }

  /** The `n` deposits add up to `n` times the amount. */
  lemma {:induction false} AfterDepositsIsProduct(p: real, n: nat, amount: real)
    ensures AfterDeposits(p, n, amount) == p + n as real * amount
  {
    if n > 0 {
      AfterDepositsIsProduct(p, n - 1, amount);
    }
  }

  /** Two edges crossed for the same time receive deposits inversely
      proportional to their lengths (an edge of length 1 gets twice what an
      edge of length 2 gets). */
  lemma DepositInverseToLength(deposit: real, dt: real, w1: real, w2: real)
    requires w1 > 0.0 && w2 > 0.0
    ensures DepositAmount(deposit, dt, w1) * w1 == DepositAmount(deposit, dt, w2) * w2
    ensures w2 == 2.0 * w1 ==> DepositAmount(deposit, dt, w1) == 2.0 * DepositAmount(deposit, dt, w2)
  {
    DepositTimesLength(deposit, dt, w1);
    DepositTimesLength(deposit, dt, w2);
    var d1, d2 := DepositAmount(deposit, dt, w1), DepositAmount(deposit, dt, w2);
    if w2 == 2.0 * w1 {
      assert d2 * (2.0 * w1) == d1 * w1;
      assert (2.0 * d2 - d1) * w1 == 0.0;
    }
  }

  /** One edge's pheromone after decay by `factor`, the value of
      `(1 - pheromone_decay) ** dt`. */
  function Decayed(p: real, factor: real): (r: real)
    ensures 0.0 <= factor && 0.0 <= p ==> 0.0 <= r
    ensures 0.0 < factor && 0.0 < p ==> 0.0 < r
    ensures factor <= 1.0 && 0.0 <= p ==> r <= p
  {
    p * factor
  }

  /** Decay keeps the ratio between any two edges' pheromone. */
  lemma DecayKeepsRatios(p: real, q: real, factor: real)
    ensures Decayed(p, factor) * q == Decayed(q, factor) * p
  {
  }

  /** How many of the ants described by `loads` (the edge each ant is on at
      the start of a tick and whether it carries food) deposit on `e`. */
  function Carriers(loads: seq<(Edge?, bool)>, e: Edge): (n: nat)
    ensures n <= |loads|
  {
    if loads == [] then 0
    else Carriers(loads[..|loads| - 1], e) + (if loads[|loads| - 1] == (e, true) then 1 else 0)
  }

  /** The number of deposits on an edge does not depend on the order in
      which the ants walk: it is the multiplicity of `(e, true)`. */
  lemma {:induction false} CarriersIgnoreOrder(loads: seq<(Edge?, bool)>, e: Edge)
    ensures Carriers(loads, e) == multiset(loads)[(e, true)]
  {
    if loads != [] {
      var n := |loads| - 1;
      CarriersIgnoreOrder(loads[..n], e);
      assert loads == loads[..n] + [loads[n]];
      assert multiset(loads) == multiset(loads[..n]) + multiset{loads[n]};
    }
  }
}
