/** The outbound edge choice: which neighbours an ant may go to next and
    the weights of the random draw among them. */
module Selection {
  import opened Outcomes
  import opened Graph

  /** The additive floor on every candidate's selection weight. */
  const PheromoneFloor: real := 0.1

  /** The rule that `no_turn_back` applies at this node: more than one
      neighbour and the ant is at neither the nest nor a food node. */
  predicate ForbidsTurningBack(neighbours: set<int>, noTurnBack: bool, atTerminal: bool) {
    noTurnBack && |neighbours| > 1 && !atTerminal
  }

  /** The candidate next nodes: the neighbours of the current node, without
      the previous node when the anti-backtrack rule applies. */
  function Candidates(neighbours: set<int>, prev: int, noTurnBack: bool, atTerminal: bool): (c: set<int>)
    ensures c <= neighbours
    ensures neighbours - {prev} <= c
    ensures c == {} <==> neighbours == {}
    ensures ForbidsTurningBack(neighbours, noTurnBack, atTerminal) ==> prev !in c
    ensures !noTurnBack || |neighbours| <= 1 || atTerminal ==> c == neighbours
  {
    if ForbidsTurningBack(neighbours, noTurnBack, atTerminal) then
      assert |neighbours - {prev}| >= |neighbours| - 1;
      neighbours - {prev}
    else
      neighbours
  }

  /** The unnormalised draw weights: each candidate's pheromone plus the floor. */
  function Weights(nb: map<int, Edge>, cands: set<int>): (w: map<int, real>)
    reads nb.Values
    requires cands <= nb.Keys
    ensures w.Keys == cands
    ensures (forall y | y in cands :: nb[y].pheromone >= 0.0) ==>
      forall y | y in cands :: w[y] >= PheromoneFloor
  {
    map y | y in cands :: nb[y].pheromone + PheromoneFloor
  }

  /** With no negative pheromone every weight is at least the floor, so no
      candidate is ever excluded from the draw. */
  lemma WeightsArePositive(nb: map<int, Edge>, cands: set<int>)
    requires cands <= nb.Keys
    requires forall y | y in cands :: nb[y].pheromone >= 0.0
    ensures forall y | y in cands :: Weights(nb, cands)[y] >= PheromoneFloor
    ensures Support(Weights(nb, cands)) == cands
  {
  }

  /** The nodes a draw with weights `w` can return: after division by the
      sum, exactly those of non-zero weight have a non-zero probability. */
  function Support(w: map<int, real>): set<int> {
    set y | y in w && w[y] != 0.0
  }

  /** All weights are of one sign, so that dividing each by their sum gives
      no negative probability. */
  predicate OneSign(w: map<int, real>) {
    (forall y | y in w :: w[y] >= 0.0) || (forall y | y in w :: w[y] <= 0.0)
  }

  /** When `np.random.choice(to_nodes, p=weights / sum(weights))` succeeds:
      a non-empty list, weights of one sign (with mixed signs some
      probability is negative), and not all zero (a zero sum gives NaN).
      A list of negative weights is drawable: the division by the negative
      sum makes every probability non-negative. */
  predicate Drawable(w: map<int, real>) {
    && w != map[]
    && OneSign(w)
    && Support(w) != {}
  }

  /** Weights of one sign normalise to the same probabilities whatever the
      sign: -0.3 and -0.1 are drawn like 0.3 and 0.1, while 0.3 and -0.1
      cannot be drawn from. */
  lemma DrawableExamples()
    ensures Drawable(map[1 := -0.3, 2 := -0.1]) && Support(map[1 := -0.3, 2 := -0.1]) == {1, 2}
    ensures !Drawable(map[1 := 0.3, 2 := -0.1])
    ensures !Drawable(map[1 := 0.0, 2 := 0.0])
    ensures Drawable(map[1 := 0.0, 2 := 0.2]) && Support(map[1 := 0.0, 2 := 0.2]) == {2}
  {
    var neg := map[1 := -0.3, 2 := -0.1];
    assert neg.Keys == {1, 2} && 1 in Support(neg) && 2 in Support(neg);
    var mixed := map[1 := 0.3, 2 := -0.1];
    assert mixed[1] > 0.0 && mixed[2] < 0.0;
    var zero := map[1 := 0.0, 2 := 0.0];
    assert Support(zero) == {};
    var one := map[1 := 0.0, 2 := 0.2];
    assert one.Keys == {1, 2} && 2 in Support(one);
  }

  /** The weighted random draw, modelled by its support: it returns some
      node of non-zero weight, or the error numpy raises. */
  method Draw(w: map<int, real>) returns (r: Result<int, Fault>)
    ensures r.Ok? <==> Drawable(w)
    ensures r.Ok? ==> r.value in Support(w)
    ensures w == map[] ==> r == Err(NoCandidates)
    ensures w != map[] && !Drawable(w) ==> r == Err(InvalidProbabilities)
  {
    if w == map[] {
      return Err(NoCandidates);
    }
    if !OneSign(w) {
      return Err(InvalidProbabilities);
    }
    if !exists y | y in w :: w[y] != 0.0 {
      assert Support(w) == {};
      return Err(InvalidProbabilities);
    }
    var y :| y in w && w[y] != 0.0;
    assert y in Support(w);
    r := Ok(y);
  }
}
