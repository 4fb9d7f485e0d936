/** The back-trace list: the nodes an outbound ant has left, used as a
    stack on the way home, with loops cut out when popping. */
module Trail {
  import opened Outcomes
  import opened Graph

  function Last(s: seq<int>): int
    requires s != []
  {
    s[|s| - 1]
  }

  /** Python's `list.index`: the position of the first occurrence. */
  function IndexOf(s: seq<int>, x: int): (k: nat)
    requires x in s
    ensures k < |s| && s[k] == x
    ensures x !in s[..k]
  {
    if s[0] == x then 0
    else
      var k := 1 + IndexOf(s[1..], x);
      assert s[..k] == [s[0]] + s[1..][..k - 1];
      k
  }

  /** One returning step: the next node is the last one recorded, and the
      list is cut just before that node's first occurrence, so any loop
      made through it on the way out is dropped. */
  function PopBackTrace(trail: seq<int>): (r: Result<(int, seq<int>), Fault>)
    ensures r.Ok? <==> trail != []
    ensures trail == [] ==> r == Err(EmptyBackTrace)
    ensures r.Ok? ==> r.value.0 == Last(trail)
    ensures r.Ok? ==> |r.value.1| < |trail| && r.value.1 + [r.value.0] <= trail
    ensures r.Ok? ==> r.value.0 !in r.value.1
  {
    if trail == [] then Err(EmptyBackTrace)
    else
      var y := Last(trail);
      var k := IndexOf(trail, y);
      assert trail[..k] + [y] == trail[..k + 1];
      Ok((y, trail[..k]))
  }

  /** The nodes a returning ant heads for, in order, until the list is empty. */
  function Retrace(trail: seq<int>): (path: seq<int>)
    decreases |trail|
  {
    match PopBackTrace(trail)
    case Err(_) => []
    case Ok((y, rest)) => [y] + Retrace(rest)
  }

  /** `a` and `b` are the same node or `b` is a neighbour of `a`. */
  ghost predicate Linked(g: Topology, a: int, b: int) {
    a == b || (a in g && b in g[a])
  }

  /** Consecutive entries of `s` are the same node or neighbours. */
  ghost predicate Chain(g: Topology, s: seq<int>) {
    forall i, j | 0 <= i && j == i + 1 && j < |s| :: Linked(g, s[i], s[j])
  }

  /** Consecutive entries of `s` are joined by an edge. */
  ghost predicate Path(g: Topology, s: seq<int>) {
    forall i, j | 0 <= i && j == i + 1 && j < |s| :: s[i] in g && s[j] in g[s[i]]
  }

  lemma ChainPrefix(g: Topology, s: seq<int>, n: nat)
    requires Chain(g, s) && n <= |s|
    ensures Chain(g, s[..n])
  {
  }

  lemma ChainExtend(g: Topology, s: seq<int>, x: int)
    requires Chain(g, s) && s != [] && Linked(g, Last(s), x)
    ensures Chain(g, s + [x])
  {
  }

  /** The retraced route visits no node twice. */
  lemma {:induction false} RetraceHasNoRepeats(trail: seq<int>)
    ensures forall i, j | 0 <= i < j < |Retrace(trail)| :: Retrace(trail)[i] != Retrace(trail)[j]
    ensures forall x | x in Retrace(trail) :: x in trail
  {
    if trail != [] {
      var r := PopBackTrace(trail);
      var y, rest := r.value.0, r.value.1;
      RetraceHasNoRepeats(rest);
      assert Retrace(trail) == [y] + Retrace(rest);
      forall x | x in rest ensures x in trail {
        var i :| 0 <= i < |rest| && rest[i] == x;
        assert (rest + [y])[i] == x;
      }
    }
  }

  /** The retraced route ends at the first node of the list: for a list
      that starts with the nest, the ant comes home. */
  lemma {:induction false} RetraceEndsAtStart(trail: seq<int>)
    requires trail != []
    ensures Retrace(trail) != [] && Last(Retrace(trail)) == trail[0]
  {
    var r := PopBackTrace(trail);
    var y, rest := r.value.0, r.value.1;
    assert Retrace(trail) == [y] + Retrace(rest);
    if rest == [] {
      assert (rest + [y])[0] == trail[0];
    } else {
      RetraceEndsAtStart(rest);
      assert (rest + [y])[0] == trail[0];
    }
  }

  /** A returning ant at `x` whose list, followed by `x`, is a chain of
      neighbours only ever moves along edges: `[x] + Retrace(trail)` is a
      path of the graph. */
  lemma {:induction false} RetraceFollowsEdges(g: Topology, trail: seq<int>, x: int)
    requires WellFormed(g)
    requires Chain(g, trail + [x])
    requires trail != [] ==> Last(trail) != x
    ensures Path(g, [x] + Retrace(trail))
  {
    if trail != [] {
      var r := PopBackTrace(trail);
      var y, rest := r.value.0, r.value.1;
      var n := |trail| - 1;
      assert Linked(g, (trail + [x])[n], (trail + [x])[n + 1]);
      assert x in g[y];
      assert trail + [x] == rest + [y] + trail[|rest| + 1..] + [x];
      ChainPrefix(g, trail + [x], |rest| + 1);
      assert (trail + [x])[..|rest| + 1] == rest + [y];
      RetraceFollowsEdges(g, rest, y);
      assert Retrace(trail) == [y] + Retrace(rest);
      var p := [x] + Retrace(trail);
      assert p == [x] + ([y] + Retrace(rest));
      forall i | 0 <= i < |p| - 1 ensures p[i] in g && p[i + 1] in g[p[i]] {
        if i > 0 {
          assert p[i] == ([y] + Retrace(rest))[i - 1];
          assert p[i + 1] == ([y] + Retrace(rest))[i];
        }
      }
    }
  }

  /** Loops made on the way out are skipped on the way home: from the list
      A, B, C, B, D the ant heads for D, then B, then A. */
  lemma RetraceCollapsesLoops()
    ensures Retrace([1, 2, 3, 2, 4]) == [4, 2, 1]
  {
    var t0, t1, t2: seq<int> := [1, 2, 3, 2, 4], [1, 2, 3, 2], [1];
    assert IndexOf(t0, 4) == 4 by {
      assert t0[1..][1..][1..][1..] == [4];
    }
    assert Last(t0) == 4 && t0[..4] == t1;
    assert PopBackTrace(t0) == Ok((4, t1));
    assert IndexOf(t1, 2) == 1 by {
      assert t1[1..] == [2, 3, 2];
    }
    assert Last(t1) == 2 && t1[..1] == t2;
    assert PopBackTrace(t1) == Ok((2, t2));
    assert Last(t2) == 1 && IndexOf(t2, 1) == 0 && t2[..0] == [];
    assert PopBackTrace(t2) == Ok((1, []));
    assert Retrace([]) == [];
  }
}
