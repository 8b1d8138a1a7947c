/**
  Failures and recoveries of grid buses (powerNetwork.py): the bounded-depth
  partition failure, the per-tick fail / partition / recover schedule and the
  colour each bus is drawn in.
  Random draws are parameters: a boolean for each `random.random() < p` test
  and a natural number for each `random.choice` over a list, which picks the
  element at that number modulo the list's length.
 */
module Failures {
  import opened Wrappers
  import opened Graphs
  import opened Grid

  /** The buses that may become a failure centre: neither a source nor down, in bus order. */
  function Candidates(buses: seq<Bus>, down: set<Bus>): (r: seq<Bus>)
    ensures forall b :: b in r <==> b in buses && !IsSource(b) && b !in down
    ensures |r| <= |buses|
    decreases |buses|
  {
    if |buses| == 0 then []
    else
      var prev := Candidates(buses[..|buses| - 1], down);
      var b := buses[|buses| - 1];
      assert buses == buses[..|buses| - 1] + [b];
      if !IsSource(b) && b !in down then prev + [b] else prev
  }

  /** `random.choice(xs)` for the draw `pick`. */
  function Choose<T>(xs: seq<T>, pick: nat): (r: T)
    requires |xs| > 0
    ensures r in xs
  {
    xs[pick % |xs|]
  }

  /**
    The centre a partition failure starts from: the supplied one, or a random
    candidate; no centre at all when there is no candidate, even if one was
    supplied.
   */
  function PartitionCenter(net: PowerNetwork, down: set<Bus>, center: Option<Bus>, pick: nat): Option<Bus> {
    var candidates := Candidates(net.buses, down);
    if |candidates| == 0 then None
    else Some(center.GetOr(Choose(candidates, pick)))
  }

  /** `v` is exactly `k` hops away from `c`. */
  ghost predicate ExactHops(g: Graph<Bus>, c: Bus, v: Bus, k: int) {
    k >= 0 && v in Ball(g, c, k) && v !in Ball(g, c, k - 1)
  }

  /**
    Reference definition of the group a partition failure brings down: the
    buses within `depth` hops of the centre in the graph of buses that are up,
    or nothing when there is no centre or the centre is not in that graph.
   */
  ghost function PartitionGroup(net: PowerNetwork, down: set<Bus>, center: Option<Bus>, depth: int, pick: nat): set<Bus> {
    match PartitionCenter(net, down, center, pick)
    case None => {}
    case Some(c) =>
      var g := UpGraph(net, down);
      if c in g.nodes then Ball(g, c, depth) else {}
  }

  // ---------------------------------------------------------------------------
  // The breadth-first search

  /** Every neighbour of `v` is labelled. */
  ghost predicate Expanded(g: Graph<Bus>, v: Bus, labelled: set<Bus>) {
    Adj(g, v) <= labelled
  }

  /** Every labelled bus carries its exact hop distance from `c`. */
  ghost predicate Exact(g: Graph<Bus>, c: Bus, levels: map<Bus, int>) {
    forall v :: v in levels ==> ExactHops(g, c, v, levels[v])
  }

  /**
    The queue holds labelled buses in non-decreasing level order, no two of
    them more than one level apart.
   */
  predicate Layered(levels: map<Bus, int>, queue: seq<Bus>) {
    && (forall i :: 0 <= i < |queue| ==> queue[i] in levels)
    && (forall i, j :: 0 <= i < j < |queue| ==> levels[queue[i]] <= levels[queue[j]] <= levels[queue[i]] + 1)
  }

  /** The invariant of the search loop. */
  ghost predicate Searching(g: Graph<Bus>, c: Bus, depth: int, levels: map<Bus, int>, queue: seq<Bus>) {
    && levels.Keys <= g.nodes && c in levels && levels[c] == 0
    && Exact(g, c, levels)
    && Layered(levels, queue)
    && (forall i :: 0 <= i < |queue| ==> queue[i] == c || levels[queue[i]] < depth)
    && (forall v :: v in levels && v !in queue && (v == c || levels[v] < depth) ==> Expanded(g, v, levels.Keys))
    && (|queue| > 0 ==> Ball(g, c, levels[queue[0]]) <= levels.Keys)
  }

  /**
    Level-by-level search from `c` with a FIFO queue: every bus it labels gets
    its exact hop distance, every bus within `depth` hops gets labelled, and
    only buses labelled below `depth` (and the centre) are expanded.
   */
  method SearchLevels(g: Graph<Bus>, c: Bus, depth: int) returns (levels: map<Bus, int>)
    requires WellFormed(g) && c in g.nodes
    ensures c in levels && levels[c] == 0
    ensures levels.Keys <= g.nodes
    ensures forall v :: v in levels ==> ExactHops(g, c, v, levels[v])
    ensures Ball(g, c, depth) <= levels.Keys
  {
    levels := map[c := 0];
    var queue := [c];
    SearchStart(g, c, depth);
    while |queue| > 0
      invariant Searching(g, c, depth, levels, queue)
      decreases |g.nodes - levels.Keys|, |queue|
    {
      var current := queue[0];
      ghost var before, waiting := levels, queue;
      levels, queue := VisitNeighbours(g, c, depth, levels, queue[1..], current);
      if levels.Keys != before.Keys {
        ShrinkingRest(g.nodes, before.Keys, levels.Keys);
      }
      SearchStep(g, c, depth, before, waiting, levels, queue, before[current]);
    }
    SearchDone(g, c, depth, levels);
  }

  /** The search starts with only the centre labelled, at level 0, and queued. */
  lemma SearchStart(g: Graph<Bus>, c: Bus, depth: int)
    requires c in g.nodes
    ensures Searching(g, c, depth, map[c := 0], [c])
  {
  }

  /** When the queue runs dry, every bus within `depth` hops carries its exact distance. */
  lemma SearchDone(g: Graph<Bus>, c: Bus, depth: int, levels: map<Bus, int>)
    requires Searching(g, c, depth, levels, [])
    ensures c in levels && levels[c] == 0
    ensures levels.Keys <= g.nodes
    ensures forall v :: v in levels ==> ExactHops(g, c, v, levels[v])
    ensures Ball(g, c, depth) <= levels.Keys
  {
    BallsCovered(g, c, levels, depth, depth);
  }

  /**
    Labels every unlabelled neighbour of `current` one level below it,
    queueing those still short of `depth`.
   */
  method VisitNeighbours(g: Graph<Bus>, c: Bus, depth: int, levels0: map<Bus, int>, queue0: seq<Bus>, current: Bus)
    returns (levels: map<Bus, int>, queue: seq<Bus>)
    requires WellFormed(g) && current in levels0 && levels0.Keys <= g.nodes
    requires Exact(g, c, levels0)
    requires Ball(g, c, levels0[current]) <= levels0.Keys
    ensures levels0.Keys <= levels.Keys <= g.nodes
    ensures forall v :: v in levels0 ==> levels[v] == levels0[v]
    ensures forall v :: v in levels && v !in levels0 ==> levels[v] == levels0[current] + 1
    ensures Exact(g, c, levels)
    ensures Expanded(g, current, levels.Keys)
    ensures |queue0| <= |queue| && queue[..|queue0|] == queue0
    ensures forall i :: |queue0| <= i < |queue| ==> queue[i] in levels && queue[i] !in levels0
    ensures |queue| > |queue0| ==> levels0[current] + 1 < depth
    ensures forall v :: v in levels && v !in levels0 && levels[v] < depth ==> v in queue[|queue0|..]
    ensures levels.Keys == levels0.Keys ==> queue == queue0
  {
    var level := levels0[current];
    levels, queue := levels0, queue0;
    ghost var added: seq<Bus> := [];
    var todo := Adj(g, current);
    while todo != {}
      invariant todo <= Adj(g, current)
      invariant levels0.Keys <= levels.Keys <= g.nodes
      invariant forall v :: v in levels0 ==> levels[v] == levels0[v]
      invariant forall v :: v in levels && v !in levels0 ==> levels[v] == level + 1
      invariant levels.Keys - levels0.Keys <= Adj(g, current)
      invariant Adj(g, current) - todo <= levels.Keys
      invariant queue == queue0 + added
      invariant forall i :: 0 <= i < |added| ==> added[i] in levels && added[i] !in levels0
      invariant |added| > 0 ==> level + 1 < depth
      invariant forall v :: v in levels && v !in levels0 && levels[v] < depth ==> v in added
      invariant levels.Keys == levels0.Keys ==> added == []
      decreases todo
    {
      var n :| n in todo;
      todo := todo - {n};
      if n !in levels {
        levels := levels[n := level + 1];
        if level + 1 < depth {
          queue := queue + [n];
          added := added + [n];
        }
      }
    }
    AppendedTail(queue, queue0, added, levels0, levels);
    forall v | v in levels ensures ExactHops(g, c, v, levels[v]) {
      if v !in levels0 {
        NextRing(g, c, current, level, v, levels0.Keys);
      }
    }
  }

  /** Facts about the appended part `added` of a queue, restated by index. */
  lemma AppendedTail(queue: seq<Bus>, queue0: seq<Bus>, added: seq<Bus>, levels0: map<Bus, int>, levels: map<Bus, int>)
    requires queue == queue0 + added
    requires forall i :: 0 <= i < |added| ==> added[i] in levels && added[i] !in levels0
    ensures queue[..|queue0|] == queue0 && queue[|queue0|..] == added
    ensures forall i :: |queue0| <= i < |queue| ==> queue[i] in levels && queue[i] !in levels0
  {
    assert queue[..|queue0|] == queue0 && queue[|queue0|..] == added;
    forall i | |queue0| <= i < |queue|
      ensures queue[i] in levels && queue[i] !in levels0
    {
      assert queue[i] == added[i - |queue0|];
    }
  }

  /** An unlabelled neighbour of a bus at distance `level` is at distance `level + 1`. */
  lemma NextRing(g: Graph<Bus>, c: Bus, current: Bus, level: int, n: Bus, labelled: set<Bus>)
    requires ExactHops(g, c, current, level)
    requires Ball(g, c, level) <= labelled && n !in labelled
    requires n in Adj(g, current)
    ensures ExactHops(g, c, n, level + 1)
  {
    RingIntro(g, Ball(g, c, level), current, n);
  }

  /** One turn of the search loop keeps its invariant. */
  lemma SearchStep(g: Graph<Bus>, c: Bus, depth: int, before: map<Bus, int>, waiting: seq<Bus>,
                   levels: map<Bus, int>, queue: seq<Bus>, level: int)
    requires Searching(g, c, depth, before, waiting) && |waiting| > 0 && level == before[waiting[0]]
    requires before.Keys <= levels.Keys <= g.nodes
    requires forall v :: v in before ==> levels[v] == before[v]
    requires forall v :: v in levels && v !in before ==> levels[v] == level + 1
    requires Exact(g, c, levels)
    requires Expanded(g, waiting[0], levels.Keys)
    requires |waiting| - 1 <= |queue| && queue[..|waiting| - 1] == waiting[1..]
    requires forall i :: |waiting| - 1 <= i < |queue| ==> queue[i] in levels && queue[i] !in before
    requires |queue| > |waiting| - 1 ==> level + 1 < depth
    requires forall v :: v in levels && v !in before && levels[v] < depth ==> v in queue[|waiting| - 1..]
    ensures Searching(g, c, depth, levels, queue)
  {
    QueueStaysLayered(c, depth, before, waiting, levels, queue, level);
    ExpandedStep(g, c, depth, before, waiting, levels, queue);
    if |queue| > 0 {
      assert ExactHops(g, c, waiting[0], level);
      FrontStep(g, c, depth, before, waiting, levels, queue, level);
    }
  }

  /** Appending buses one level below the old front to the rest of the queue keeps it layered. */
  lemma QueueStaysLayered(c: Bus, depth: int, before: map<Bus, int>, waiting: seq<Bus>, levels: map<Bus, int>, queue: seq<Bus>, level: int)
    requires Layered(before, waiting) && |waiting| > 0 && level == before[waiting[0]]
    requires forall i :: 0 <= i < |waiting| ==> waiting[i] == c || before[waiting[i]] < depth
    requires before.Keys <= levels.Keys
    requires forall v :: v in before ==> levels[v] == before[v]
    requires forall v :: v in levels && v !in before ==> levels[v] == level + 1
    requires |waiting| - 1 <= |queue| && queue[..|waiting| - 1] == waiting[1..]
    requires forall i :: |waiting| - 1 <= i < |queue| ==> queue[i] in levels && queue[i] !in before
    requires |queue| > |waiting| - 1 ==> level + 1 < depth
    ensures Layered(levels, queue)
    ensures forall i :: 0 <= i < |queue| ==> queue[i] == c || levels[queue[i]] < depth
  {
    var k := |waiting| - 1;
    forall i | 0 <= i < k
      ensures queue[i] in before && levels[queue[i]] == before[waiting[i + 1]]
      ensures level <= levels[queue[i]] <= level + 1
      ensures queue[i] == c || levels[queue[i]] < depth
    {
      assert queue[i] == queue[..k][i] == waiting[i + 1];
    }
    forall i | k <= i < |queue| ensures levels[queue[i]] == level + 1 {
    }
    forall i, j | 0 <= i < j < |queue|
      ensures levels[queue[i]] <= levels[queue[j]] <= levels[queue[i]] + 1
    {
      if j < k {
        assert queue[j] == queue[..k][j] == waiting[j + 1];
      }
    }
  }

  /** After a turn every labelled bus that left the queue, or never joined it, is expanded. */
  lemma ExpandedStep(g: Graph<Bus>, c: Bus, depth: int, before: map<Bus, int>, waiting: seq<Bus>,
                     levels: map<Bus, int>, queue: seq<Bus>)
    requires Searching(g, c, depth, before, waiting) && |waiting| > 0
    requires before.Keys <= levels.Keys
    requires forall v :: v in before ==> levels[v] == before[v]
    requires Expanded(g, waiting[0], levels.Keys)
    requires |waiting| - 1 <= |queue| && queue[..|waiting| - 1] == waiting[1..]
    requires forall v :: v in levels && v !in before && levels[v] < depth ==> v in queue[|waiting| - 1..]
    ensures forall v :: v in levels && v !in queue && (v == c || levels[v] < depth) ==> Expanded(g, v, levels.Keys)
  {
    var k := |waiting| - 1;
    forall v | v in levels && v !in queue && (v == c || levels[v] < depth)
      ensures Expanded(g, v, levels.Keys)
    {
      assert v in queue[k..] ==> v in queue;
      if v != waiting[0] {
        forall i | 0 <= i < |waiting| ensures waiting[i] != v {
          if i > 0 {
            assert queue[i - 1] == queue[..k][i - 1] == waiting[i];
          }
        }
        assert Expanded(g, v, before.Keys);
      }
    }
  }

  /** After a turn the hop-ball of the new front's level is labelled. */
  lemma FrontStep(g: Graph<Bus>, c: Bus, depth: int, before: map<Bus, int>, waiting: seq<Bus>,
                  levels: map<Bus, int>, queue: seq<Bus>, level: int)
    requires Layered(before, waiting) && |waiting| > 0 && level == before[waiting[0]] && level >= 0
    requires Ball(g, c, level) <= before.Keys
    requires c in before && before[c] == 0
    requires before.Keys <= levels.Keys
    requires forall v :: v in before ==> levels[v] == before[v]
    requires forall v :: v in levels && v !in before ==> levels[v] == level + 1
    requires Exact(g, c, levels)
    requires Layered(levels, queue) && |queue| > 0
    requires |waiting| - 1 <= |queue| && queue[..|waiting| - 1] == waiting[1..]
    requires forall i :: |waiting| - 1 <= i < |queue| ==> queue[i] !in before
    requires forall i :: 0 <= i < |queue| ==> queue[i] == c || levels[queue[i]] < depth
    requires forall v :: v in levels && v !in queue && (v == c || levels[v] < depth) ==> Expanded(g, v, levels.Keys)
    ensures Ball(g, c, levels[queue[0]]) <= levels.Keys
  {
    FrontLevel(before, waiting, levels, queue, level);
    if levels[queue[0]] == level {
      assert Ball(g, c, level) <= before.Keys <= levels.Keys;
    } else {
      NextFront(g, c, depth, levels, queue, level);
    }
  }

  /** When the front moves one level past `level`, the next ring has been labelled. */
  lemma NextFront(g: Graph<Bus>, c: Bus, depth: int, levels: map<Bus, int>, queue: seq<Bus>, level: int)
    requires Layered(levels, queue) && |queue| > 0 && levels[queue[0]] == level + 1 && level >= 0
    requires c in levels && levels[c] == 0
    requires Ball(g, c, level) <= levels.Keys
    requires Exact(g, c, levels)
    requires forall i :: 0 <= i < |queue| ==> queue[i] == c || levels[queue[i]] < depth
    requires forall v :: v in levels && v !in queue && (v == c || levels[v] < depth) ==> Expanded(g, v, levels.Keys)
    ensures Ball(g, c, level + 1) <= levels.Keys
  {
    assert queue[0] != c;
    BelowFrontExpanded(g, c, depth, levels, queue, level);
    RingCovered(g, c, levels, level);
  }

  /** The new front sits at the old front's level or one below it. */
  lemma FrontLevel(before: map<Bus, int>, waiting: seq<Bus>, levels: map<Bus, int>, queue: seq<Bus>, level: int)
    requires Layered(before, waiting) && |waiting| > 0 && level == before[waiting[0]]
    requires before.Keys <= levels.Keys
    requires forall v :: v in before ==> levels[v] == before[v]
    requires forall v :: v in levels && v !in before ==> levels[v] == level + 1
    requires Layered(levels, queue) && |queue| > 0
    requires |waiting| - 1 <= |queue| && queue[..|waiting| - 1] == waiting[1..]
    requires forall i :: |waiting| - 1 <= i < |queue| ==> queue[i] !in before
    ensures levels[queue[0]] == level || levels[queue[0]] == level + 1
  {
    if |waiting| > 1 {
      assert queue[0] == queue[..|waiting| - 1][0] == waiting[1];
      assert level <= before[queue[0]] <= level + 1;
    }
  }

  /** With the front one level past `level`, every bus labelled at most `level` is expanded. */
  lemma BelowFrontExpanded(g: Graph<Bus>, c: Bus, depth: int, levels: map<Bus, int>, queue: seq<Bus>, level: int)
    requires Layered(levels, queue) && |queue| > 0
    requires levels[queue[0]] == level + 1 && level + 1 < depth
    requires forall v :: v in levels && v !in queue && (v == c || levels[v] < depth) ==> Expanded(g, v, levels.Keys)
    ensures forall v :: v in levels && levels[v] <= level ==> Expanded(g, v, levels.Keys)
  {
    forall v | v in levels && levels[v] <= level
      ensures Expanded(g, v, levels.Keys)
    {
      forall i | 0 <= i < |queue| ensures queue[i] != v {
        assert i == 0 || levels[queue[0]] <= levels[queue[i]];
      }
    }
  }

  /** A labelled bus lying within `bound` hops has a level of at most `bound`. */
  lemma LevelAtMost(g: Graph<Bus>, c: Bus, v: Bus, k: int, bound: int)
    requires ExactHops(g, c, v, k) && v in Ball(g, c, bound)
    ensures k <= bound
  {
    if k > bound {
      BallMonotone(g, c, bound, k - 1);
    }
  }

  /** If the `L`-ball is labelled and all of it expanded, the next ring is labelled too. */
  lemma RingCovered(g: Graph<Bus>, c: Bus, levels: map<Bus, int>, level: int)
    requires Ball(g, c, level) <= levels.Keys
    requires forall v :: v in levels ==> ExactHops(g, c, v, levels[v])
    requires forall v :: v in levels && levels[v] <= level ==> Expanded(g, v, levels.Keys)
    requires level >= 0
    ensures Ball(g, c, level + 1) <= levels.Keys
  {
    forall w | w in Ring(g, Ball(g, c, level)) ensures w in levels {
      var u := RingElim(g, Ball(g, c, level), w);
      LevelAtMost(g, c, u, levels[u], level);
      assert w in Adj(g, u);
    }
  }

  /** Once every labelled bus below `depth` is expanded, every ball up to `depth` is labelled. */
  lemma {:induction false} BallsCovered(g: Graph<Bus>, c: Bus, levels: map<Bus, int>, depth: int, k: int)
    requires c in levels
    requires forall v :: v in levels ==> ExactHops(g, c, v, levels[v])
    requires forall v :: v in levels && (v == c || levels[v] < depth) ==> Expanded(g, v, levels.Keys)
    requires k <= depth
    ensures Ball(g, c, k) <= levels.Keys
    decreases k
  {
    if k > 0 {
      BallsCovered(g, c, levels, depth, k - 1);
      ExpandedBelow(g, c, levels, depth, k - 1);
      RingCovered(g, c, levels, k - 1);
    }
  }

  /** Every labelled bus at a level below `depth` is expanded, in particular those at most `bound`. */
  lemma ExpandedBelow(g: Graph<Bus>, c: Bus, levels: map<Bus, int>, depth: int, bound: int)
    requires forall v :: v in levels && (v == c || levels[v] < depth) ==> Expanded(g, v, levels.Keys)
    requires bound < depth
    ensures forall v :: v in levels && levels[v] <= bound ==> Expanded(g, v, levels.Keys)
  {
  }

  /** Cutting the search's levels at `depth` gives exactly the `depth`-ball. */
  lemma LevelsCutIsBall(g: Graph<Bus>, c: Bus, levels: map<Bus, int>, depth: int)
    requires forall v :: v in levels ==> ExactHops(g, c, v, levels[v])
    requires Ball(g, c, depth) <= levels.Keys
    ensures (set v | v in levels && levels[v] <= depth) == Ball(g, c, depth)
  {
    forall v | v in levels && levels[v] <= depth ensures v in Ball(g, c, depth) {
      BallMonotone(g, c, levels[v], depth);
    }
    forall v | v in Ball(g, c, depth) ensures levels[v] <= depth {
      LevelAtMost(g, c, v, levels[v], depth);
    }
  }

  // ---------------------------------------------------------------------------
  // The partition failure

  /**
    Brings down the buses within `depth` hops of the centre in the graph of
    buses that are up, zeroing their loads. Returns the new network, the new
    down set and the group that failed.
   */
  method PartitionFailure(net: PowerNetwork, down: set<Bus>, center: Option<Bus>, depth: int, pick: nat)
    returns (net': PowerNetwork, down': set<Bus>, failed: set<Bus>)
    ensures failed == PartitionGroup(net, down, center, depth, pick)
    ensures failed !! down
    ensures down' == down + failed
    ensures net' == SetNodesDown(net, failed)
  {
    var candidates := Candidates(net.buses, down);
    if |candidates| == 0 {
      SetNodesDownNone(net);
      return net, down, {};
    }
    var c := center.GetOr(Choose(candidates, pick));
    var g := UpGraph(net, down);
    if c !in g.nodes {
      SetNodesDownNone(net);
      return net, down, {};
    }
    var levels := SearchLevels(g, c, depth);
    failed := set v | v in levels && levels[v] <= depth;
    LevelsCutIsBall(g, c, levels, depth);
    BallInNodes(g, c, depth);
    net', down' := ApplyFailures(net, down, failed);
  }

  /** Brings down every bus of `failed`, one at a time. */
  method ApplyFailures(net: PowerNetwork, down: set<Bus>, failed: set<Bus>) returns (net': PowerNetwork, down': set<Bus>)
    ensures down' == down + failed
    ensures net' == SetNodesDown(net, failed)
  {
    down', net' := down, net;
    SetNodesDownNone(net);
    var rest := failed;
    while rest != {}
      invariant rest <= failed
      invariant down' == down + (failed - rest)
      invariant net' == SetNodesDown(net, failed - rest)
      decreases rest
    {
      var b :| b in rest;
      SetNodesDownGrow(net, failed - rest, b);
      down' := down' + {b};
      net' := SetNodeDown(net', b);
      rest := rest - {b};
      assert failed - rest == (failed - (rest + {b})) + {b};
    }
  }

  /** With no candidate centre the partition failure changes nothing, even for a supplied centre. */
  lemma NoCandidatesNoChange(net: PowerNetwork, down: set<Bus>, center: Option<Bus>, depth: int, pick: nat)
    requires forall b :: b in net.buses && !IsSource(b) ==> b in down
    ensures PartitionGroup(net, down, center, depth, pick) == {}
  {
    var candidates := Candidates(net.buses, down);
  }

  /** A supplied centre that is down, or not in the graph of buses that are up, changes nothing. */
  lemma InvalidCenterNoChange(net: PowerNetwork, down: set<Bus>, c: Bus, depth: int, pick: nat)
    requires c in down || c !in UpGraph(net, down).nodes
    ensures PartitionGroup(net, down, Some(c), depth, pick) == {}
  {
  }

  /** A randomly drawn centre is never a source and never a bus that is already down. */
  lemma RandomCenterIsCandidate(net: PowerNetwork, down: set<Bus>, pick: nat)
    ensures var c := PartitionCenter(net, down, None, pick);
      c.Some? ==> !IsSource(c.value) && c.value !in down && c.value in net.buses
  {
  }

  /**
    When the centre is in the graph of buses that are up, the failed group is
    exactly the buses within `depth` hops of it in that graph.
   */
  lemma GroupIsWithinDepth(net: PowerNetwork, down: set<Bus>, center: Option<Bus>, depth: int, pick: nat, v: Bus)
    requires var c := PartitionCenter(net, down, center, pick);
      c.Some? && c.value in UpGraph(net, down).nodes
    ensures var c := PartitionCenter(net, down, center, pick).value;
      var g := UpGraph(net, down);
      v in PartitionGroup(net, down, center, depth, pick) <==> WithinHops(g, c, v, depth)
  {
    var c := PartitionCenter(net, down, center, pick).value;
    BallIsWithinHops(UpGraph(net, down), c, depth, v);
  }

  /** With depth 0 exactly the centre fails; with any depth of at least 0 the centre is in the group. */
  lemma CenterAlwaysFails(net: PowerNetwork, down: set<Bus>, center: Option<Bus>, depth: int, pick: nat)
    requires var c := PartitionCenter(net, down, center, pick);
      c.Some? && c.value in UpGraph(net, down).nodes
    requires depth >= 0
    ensures PartitionCenter(net, down, center, pick).value in PartitionGroup(net, down, center, depth, pick)
    ensures depth == 0 ==> PartitionGroup(net, down, center, depth, pick) == {PartitionCenter(net, down, center, pick).value}
  {
    var c := PartitionCenter(net, down, center, pick).value;
    BallMonotone(UpGraph(net, down), c, 0, depth);
  }

  /** A negative depth fails nothing: no level is at most a negative bound. */
  lemma NegativeDepthFailsNothing(net: PowerNetwork, down: set<Bus>, center: Option<Bus>, depth: int, pick: nat)
    requires depth < 0
    ensures PartitionGroup(net, down, center, depth, pick) == {}
  {
  }

  /**
    The search does not spare the sources: failing the only traffic light of
    a network with one feeder, two hops deep, brings down both sources.
   */
  lemma PartitionMayFailSources()
    ensures var net := CreatePowerNetwork(["J"], [], 1).network;
      PartitionGroup(net, {}, Some(Light(1)), 2, 0) == {Light(1), LocalSubstation, MainPowerGrid}
  {
    var net := CreatePowerNetwork(["J"], [], 1).network;
    assert net.buses == [MainPowerGrid, LocalSubstation, Light(1)];
    CreatedLines(["J"], [], 1);
    assert SliceLength(1, 1) == 1;
    assert |RoadLines([], LabelLights(["J"]).sumoToLabel)| == 0;
    SmallGridGroup(net);
  }

  /** The partition group around the one light of a grid with one feeder and the transformer. */
  lemma SmallGridGroup(net: PowerNetwork)
    requires net.buses == [MainPowerGrid, LocalSubstation, Light(1)]
    requires |net.lines| == 1 && net.lines[0].bus0 == LocalSubstation && net.lines[0].bus1 == Light(1)
    requires net.transformers == [Branch("GridTransformer", MainPowerGrid, LocalSubstation)]
    ensures PartitionGroup(net, {}, Some(Light(1)), 2, 0) == {Light(1), LocalSubstation, MainPowerGrid}
  {
    assert Candidates(net.buses, {}) == [Light(1)] by {
      assert Candidates(net.buses[..2], {}) == [] by {
        assert net.buses[..2][..1] == [MainPowerGrid];
      }
    }
    SmallUpGraph(net);
    SmallBall(UpGraph(net, {}));
  }

  /** The graph of that grid with every bus up: the path Light(1) - LocalSubstation - MainPowerGrid. */
  lemma SmallUpGraph(net: PowerNetwork)
    requires net.buses == [MainPowerGrid, LocalSubstation, Light(1)]
    requires |net.lines| == 1 && net.lines[0].bus0 == LocalSubstation && net.lines[0].bus1 == Light(1)
    requires net.transformers == [Branch("GridTransformer", MainPowerGrid, LocalSubstation)]
    ensures var g := UpGraph(net, {});
      && g.nodes == {MainPowerGrid, LocalSubstation, Light(1)}
      && (LocalSubstation, Light(1)) in g.edges && (MainPowerGrid, LocalSubstation) in g.edges
      && forall e :: e in g.edges ==> e == (LocalSubstation, Light(1)) || e == (MainPowerGrid, LocalSubstation)
  {
    var g := UpGraph(net, {});
    assert Branches(net) == [net.lines[0], Transformer];
    assert NetworkClosed(net);
    assert forall e :: e in g.edges ==> e == (LocalSubstation, Light(1)) || e == (MainPowerGrid, LocalSubstation);
  }

  /** In the path Light(1) - LocalSubstation - MainPowerGrid the 2-ball around the light is everything. */
  lemma SmallBall(g: Graph<Bus>)
    requires g.nodes == {MainPowerGrid, LocalSubstation, Light(1)}
    requires (LocalSubstation, Light(1)) in g.edges && (MainPowerGrid, LocalSubstation) in g.edges
    requires forall e :: e in g.edges ==> e == (LocalSubstation, Light(1)) || e == (MainPowerGrid, LocalSubstation)
    ensures Ball(g, Light(1), 2) == {Light(1), LocalSubstation, MainPowerGrid}
  {
    var b0 := Ball(g, Light(1), 0);
    assert b0 == {Light(1)};
    forall w ensures w in Ring(g, b0) <==> w == LocalSubstation {
      RingMember(g, b0, w);
      if w == LocalSubstation {
        assert Adjacent(g, Light(1), w);
      }
    }
    var b1 := Ball(g, Light(1), 1);
    assert b1 == {Light(1), LocalSubstation};
    forall w ensures w in Ring(g, b1) <==> w in g.nodes {
      RingMember(g, b1, w);
      if w == MainPowerGrid {
        assert Adjacent(g, LocalSubstation, w);
      } else if w == LocalSubstation {
        assert Adjacent(g, Light(1), w);
      } else if w == Light(1) {
        assert Adjacent(g, LocalSubstation, w);
      }
    }
  }

  // ---------------------------------------------------------------------------
  // One tick of the simulation

  datatype GridState = GridState(net: PowerNetwork, down: set<Bus>)

  /** Depth of the partition failure the simulation injects. */
  const PartitionDepth: int := 2

  /** Brings `b` down: adds it to the down set and zeroes its loads. */
  function FailBus(s: GridState, b: Bus): GridState {
    GridState(SetNodeDown(s.net, b), s.down + {b})
  }

  /**
    One tick: with `failRoll`, a random single failure among the candidates;
    then, with `partitionRoll`, a partition failure of depth 2 around a random
    centre; then, with `recoverRoll` and a non-empty down set, the recovery of
    one down bus.
   */
  method Tick(s: GridState, failRoll: bool, failPick: nat, partitionRoll: bool, partitionPick: nat, recoverRoll: bool)
    returns (afterFail: GridState, afterPartition: GridState, final: GridState, recovered: Option<Bus>)
    ensures var candidates := Candidates(s.net.buses, s.down);
      afterFail == if failRoll && |candidates| > 0 then FailBus(s, Choose(candidates, failPick)) else s
    ensures afterFail.down - s.down <= set b | b in s.net.buses && !IsSource(b)
    ensures partitionRoll ==>
      var group := PartitionGroup(afterFail.net, afterFail.down, None, PartitionDepth, partitionPick);
      afterPartition == GridState(SetNodesDown(afterFail.net, group), afterFail.down + group)
    ensures !partitionRoll ==> afterPartition == afterFail
    ensures recovered.Some? <==> recoverRoll && afterPartition.down != {}
    ensures recovered.Some? ==>
      && recovered.value in afterPartition.down
      && final == GridState(SetNodeUp(afterPartition.net, recovered.value), afterPartition.down - {recovered.value})
    ensures recovered.None? ==> final == afterPartition
  {
    afterFail := s;
    if failRoll {
      var candidates := Candidates(s.net.buses, s.down);
      if |candidates| > 0 {
        afterFail := FailBus(s, Choose(candidates, failPick));
      }
    }
    afterPartition := afterFail;
    if partitionRoll {
      var net, down, _ := PartitionFailure(afterFail.net, afterFail.down, None, PartitionDepth, partitionPick);
      afterPartition := GridState(net, down);
    }
    final, recovered := afterPartition, None;
    if recoverRoll && afterPartition.down != {} {
      var b :| b in afterPartition.down;
      recovered := Some(b);
      final := GridState(SetNodeUp(afterPartition.net, b), afterPartition.down - {b});
    }
  }

  // ---------------------------------------------------------------------------
  // Colours of the network drawing

  datatype Colour = Yellow | Red | Green | Orange

  /** Yellow for a source; otherwise red when down, green when energised, orange when cut off. */
  function BusColour(b: Bus, down: set<Bus>, powered: set<Bus>): (r: Colour)
    ensures r == Yellow <==> IsSource(b)
    ensures !IsSource(b) ==>
      && (r == Red <==> b in down)
      && (r == Green <==> b !in down && b in powered)
      && (r == Orange <==> b !in down && b !in powered)
  {
    if IsSource(b) then Yellow
    else if b in down then Red
    else if b in powered then Green
    else Orange
  }

  /** The colour of each bus, in bus order. */
  function NodeColours(net: PowerNetwork, down: set<Bus>): (r: seq<Colour>)
    ensures |r| == |net.buses|
    ensures forall i :: 0 <= i < |r| ==> r[i] == BusColour(net.buses[i], down, PoweredNodes(net, down))
    // sources are yellow; other buses are red when down, green when energised, orange when cut off
    ensures forall i :: 0 <= i < |r| ==>
      var b := net.buses[i];
      && (r[i] == Yellow <==> IsSource(b))
      && (!IsSource(b) ==>
            && (r[i] == Red <==> b in down)
            && (r[i] == Green <==> b !in down && b in PoweredNodes(net, down))
            && (r[i] == Orange <==> b !in down && b !in PoweredNodes(net, down)))
  {
    var powered := PoweredNodes(net, down);
    seq(|net.buses|, i requires 0 <= i < |net.buses| => BusColour(net.buses[i], down, powered))
  }

  /**
    The colour of a bus other than a source: red iff it is down, green iff it
    is up and some up source reaches it, orange iff it is up and none does.
   */
  lemma ColourMeaning(net: PowerNetwork, down: set<Bus>, b: Bus)
    requires NetworkClosed(net) && !IsSource(b)
    ensures var g := UpGraph(net, down);
      var fed := || (MainPowerGrid in net.buses && MainPowerGrid !in down && Reachable(g, MainPowerGrid, b))
                 || (LocalSubstation in net.buses && LocalSubstation !in down && Reachable(g, LocalSubstation, b));
      var colour := BusColour(b, down, PoweredNodes(net, down));
      && (colour == Red <==> b in down)
      && (colour == Green <==> b !in down && fed)
      && (colour == Orange <==> b !in down && !fed)
  {
    PoweredIffReachableFromSource(net, down, b);
  }

  /** Exactly the sources are yellow. */
  lemma YellowIffSource(b: Bus, down: set<Bus>, powered: set<Bus>)
    ensures BusColour(b, down, powered) == Yellow <==> IsSource(b)
  {
  }
}
