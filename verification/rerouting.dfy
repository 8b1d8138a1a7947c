/**
  Hazard-aware rerouting of vehicles (main.py): the edges a vehicle's
  rumour models mark as dangerous, the one-edge look-ahead that decides
  whether it is rerouted, the numbering of departed vehicles onto
  social-network nodes, and the rumour prompts generated from the car count.
  The routing engine (`findRoute`) is a function parameter and every random
  draw is a natural number that picks by index modulo the list's length.
 */
module Rerouting {
  import opened Wrappers

  type Edge = string

  /**
    A rumour's social-network model, reduced to what the rerouting reads: the
    status of each node (1 means infected) and the street edge the rumour is
    about. How the status evolves is not part of this model.
   */
  datatype RumourModel = RumourModel(status: map<int, int>, relatedEdge: Edge)

  /** `status.get(node, 0)`: a node the model does not know is not infected. */
  function StatusOf(m: RumourModel, node: int): int {
    if node in m.status then m.status[node] else 0
  }

  predicate Infected(m: RumourModel, node: int) {
    StatusOf(m, node) == 1
  }

  /** The edges of every rumour in which `node` is infected. */
  function DangerousEdges(models: seq<RumourModel>, node: int): (r: set<Edge>)
    ensures forall e :: e in r <==> exists i :: 0 <= i < |models| && Infected(models[i], node) && models[i].relatedEdge == e
    decreases |models|
  {
    if |models| == 0 then {}
    else
      var n := |models| - 1;
      var prev := DangerousEdges(models[..n], node);
      assert forall i :: 0 <= i < n ==> models[..n][i] == models[i];
      if Infected(models[n], node) then prev + {models[n].relatedEdge} else prev
  }

  /** The route `findRoute(current, e)` passes through `current` and avoids every dangerous edge. */
  predicate Safe(findRoute: (Edge, Edge) -> seq<Edge>, current: Edge, dangerous: set<Edge>, e: Edge) {
    var route := findRoute(current, e);
    current in route && forall d :: d in dangerous ==> d !in route
  }

  /** The destinations among `allEdges` whose route is safe, in the order of `allEdges`. */
  function SafeCandidates(findRoute: (Edge, Edge) -> seq<Edge>, current: Edge, dangerous: set<Edge>, allEdges: seq<Edge>): (r: seq<Edge>)
    ensures forall e :: e in r <==> e in allEdges && Safe(findRoute, current, dangerous, e)
    ensures |r| <= |allEdges|
    decreases |allEdges|
  {
    if |allEdges| == 0 then []
    else
      var n := |allEdges| - 1;
      var prev := SafeCandidates(findRoute, current, dangerous, allEdges[..n]);
      assert allEdges == allEdges[..n] + [allEdges[n]];
      if Safe(findRoute, current, dangerous, allEdges[n]) then prev + [allEdges[n]] else prev
  }

  /** The vehicle keeps its route, or gets the new one. */
  datatype Decision = Keep | SetRoute(route: seq<Edge>)

  /** The state of a vehicle as the rerouting reads it from the simulator. */
  datatype VehicleView = VehicleView(route: seq<Edge>, routeIndex: int, roadId: Edge)

  /** The edge after the current one on the route is dangerous. */
  predicate NextEdgeDangerous(v: VehicleView, dangerous: set<Edge>) {
    0 <= v.routeIndex + 1 < |v.route| && v.route[v.routeIndex + 1] in dangerous
  }

  /**
    The rerouting decision for `vehicle`, whose simulator state is `view`;
    `allEdges` are the network's edges and `pick` the random draw over the
    safe candidates.
   */
  function Reroute(vehicle: string, models: seq<RumourModel>, vehicleToNode: map<string, int>, view: VehicleView,
                   allEdges: seq<Edge>, findRoute: (Edge, Edge) -> seq<Edge>, pick: nat): (r: Decision)
    requires view.routeIndex >= -1
    // an unassigned vehicle, or one infected by no rumour, is left alone
    ensures vehicle !in vehicleToNode ==> r == Keep
    ensures vehicle in vehicleToNode && DangerousEdges(models, vehicleToNode[vehicle]) == {} ==> r == Keep
    // a new route is only set when the next edge is dangerous, and it is a safe route from the current edge
    ensures r.SetRoute? ==>
      && vehicle in vehicleToNode
      && (var dangerous := DangerousEdges(models, vehicleToNode[vehicle]);
          && NextEdgeDangerous(view, dangerous)
          && exists e :: e in allEdges && Safe(findRoute, view.roadId, dangerous, e) && r.route == findRoute(view.roadId, e))
    // and it is set whenever the next edge is dangerous and some destination is safe
    ensures vehicle in vehicleToNode ==>
      var dangerous := DangerousEdges(models, vehicleToNode[vehicle]);
      (r.SetRoute? <==> NextEdgeDangerous(view, dangerous) && exists e :: e in allEdges && Safe(findRoute, view.roadId, dangerous, e))
  {
    if vehicle !in vehicleToNode then Keep
    else
      var dangerous := DangerousEdges(models, vehicleToNode[vehicle]);
      if dangerous == {} then Keep
      else if !NextEdgeDangerous(view, dangerous) then Keep
      else
        var safe := SafeCandidates(findRoute, view.roadId, dangerous, allEdges);
        if |safe| == 0 then Keep
        else SetRoute(findRoute(view.roadId, safe[pick % |safe|]))
  }

  /** A new route passes through the current edge and through no dangerous edge. */
  lemma NewRouteIsClear(vehicle: string, models: seq<RumourModel>, vehicleToNode: map<string, int>, view: VehicleView,
                        allEdges: seq<Edge>, findRoute: (Edge, Edge) -> seq<Edge>, pick: nat)
    requires view.routeIndex >= -1
    requires Reroute(vehicle, models, vehicleToNode, view, allEdges, findRoute, pick).SetRoute?
    ensures var route := Reroute(vehicle, models, vehicleToNode, view, allEdges, findRoute, pick).route;
      && view.roadId in route
      && forall m :: m in models && Infected(m, vehicleToNode[vehicle]) ==> m.relatedEdge !in route
  {
    var dangerous := DangerousEdges(models, vehicleToNode[vehicle]);
    forall m | m in models && Infected(m, vehicleToNode[vehicle]) ensures m.relatedEdge in dangerous {
      var i :| 0 <= i < |models| && models[i] == m;
    }
  }

  /**
    The look-ahead is one edge: two routes with the same next edge (or both
    without one) get the same decision, whatever lies further along them.
   */
  lemma LookAheadIsOneEdge(vehicle: string, models: seq<RumourModel>, vehicleToNode: map<string, int>,
                           v1: VehicleView, v2: VehicleView, allEdges: seq<Edge>, findRoute: (Edge, Edge) -> seq<Edge>, pick: nat)
    requires v1.routeIndex == v2.routeIndex >= -1 && v1.roadId == v2.roadId
    requires v1.routeIndex + 1 < |v1.route| <==> v2.routeIndex + 1 < |v2.route|
    requires v1.routeIndex + 1 < |v1.route| ==> v1.route[v1.routeIndex + 1] == v2.route[v2.routeIndex + 1]
    ensures Reroute(vehicle, models, vehicleToNode, v1, allEdges, findRoute, pick)
         == Reroute(vehicle, models, vehicleToNode, v2, allEdges, findRoute, pick)
  {
  }

  /** On the last edge of its route a vehicle is never rerouted. */
  lemma LastEdgeKeepsRoute(vehicle: string, models: seq<RumourModel>, vehicleToNode: map<string, int>, view: VehicleView,
                           allEdges: seq<Edge>, findRoute: (Edge, Edge) -> seq<Edge>, pick: nat)
    requires view.routeIndex >= -1 && view.routeIndex + 1 >= |view.route|
    ensures Reroute(vehicle, models, vehicleToNode, view, allEdges, findRoute, pick) == Keep
  {
  }

  // ---------------------------------------------------------------------------
  // Numbering departed vehicles onto social-network nodes

  /**
    One pass over the vehicles that departed in this step: each is assigned
    the node `len(vehicle_to_node) % car_total`, overwriting an earlier
    assignment. The modulo raises on a zero car count, but only when some
    vehicle departed.
   */
  function AssignDeparted(m: map<string, int>, departed: seq<string>, carTotal: nat): (r: Result<map<string, int>, string>)
    ensures r.Failure? <==> carTotal == 0 && |departed| > 0
    ensures r.Success? ==> forall v :: v in r.value <==> v in m || v in departed
    ensures r.Success? ==> forall v :: v in r.value && v !in departed ==> r.value[v] == m[v]
    ensures r.Success? && carTotal > 0 ==> forall v :: v in departed ==> 0 <= r.value[v] < carTotal
    decreases |departed|
  {
    if |departed| == 0 then Success(m)
    else if carTotal == 0 then Failure("integer modulo by zero")
    else
      var v := departed[0];
      var rest := AssignDeparted(m[v := |m| % carTotal], departed[1..], carTotal);
      assert departed == [v] + departed[1..];
      assert forall x :: x in departed <==> x == v || x in departed[1..];
      rest
  }

  /**
    Vehicles departing for the first time, all different, get consecutive
    node numbers (modulo the car count) in departure order.
   */
  lemma {:induction false} AssignDepartedNumbersInOrder(m: map<string, int>, departed: seq<string>, carTotal: nat)
    requires carTotal > 0 && Distinct(departed)
    requires forall v :: v in departed ==> v !in m
    ensures var r := AssignDeparted(m, departed, carTotal);
      r.Success? && forall i :: 0 <= i < |departed| ==> r.value[departed[i]] == (|m| + i) % carTotal
    decreases |departed|
  {
    if |departed| > 0 {
      var v := departed[0];
      var m' := m[v := |m| % carTotal];
      FreshTail(m, departed, carTotal);
      AssignDepartedNumbersInOrder(m', departed[1..], carTotal);
      var r := AssignDeparted(m', departed[1..], carTotal);
      forall i | 0 <= i < |departed| ensures r.value[departed[i]] == (|m| + i) % carTotal {
        if i > 0 {
          assert departed[i] == departed[1..][i - 1];
          assert |m'| + (i - 1) == |m| + i;
        } else {
          assert r.value[v] == m'[v];
        }
      }
    }
  }

  /** After the first of distinct fresh vehicles is numbered, the rest are still distinct and fresh. */
  lemma FreshTail(m: map<string, int>, departed: seq<string>, carTotal: nat)
    requires carTotal > 0 && |departed| > 0 && Distinct(departed)
    requires forall v :: v in departed ==> v !in m
    ensures var m' := m[departed[0] := |m| % carTotal];
      && |m'| == |m| + 1
      && Distinct(departed[1..])
      && departed[0] !in departed[1..]
      && forall x :: x in departed[1..] ==> x !in m'
  {
    var tail := departed[1..];
    forall i, j | 0 <= i < j < |tail| ensures tail[i] != tail[j] {
      assert tail[i] == departed[i + 1] && tail[j] == departed[j + 1];
    }
    forall j | 0 <= j < |tail| ensures tail[j] != departed[0] {
      assert tail[j] == departed[j + 1];
    }
    assert departed[0] !in m;
  }

  /** A vehicle that already has a node is renumbered, not skipped. */
  lemma AssignedVehicleIsOverwritten(m: map<string, int>, v: string, carTotal: nat)
    requires carTotal > 0 && v in m
    ensures AssignDeparted(m, [v], carTotal) == Success(m[v := |m| % carTotal])
  {
  }

  /**
    The assignment as the simulation loop runs it: the pass over the departed
    vehicles sits inside the loop over the street edges, so it is repeated
    once per edge in every step.
   */
  function AssignPerEdge(m: map<string, int>, edges: seq<Edge>, departed: seq<string>, carTotal: nat): (r: Result<map<string, int>, string>)
    ensures |edges| == 0 ==> r == Success(m)
    ensures |edges| > 0 ==> (r.Failure? <==> carTotal == 0 && |departed| > 0)
    decreases |edges|
  {
    if |edges| == 0 then Success(m)
    else
      match AssignDeparted(m, departed, carTotal)
      case Failure(err) => Failure(err)
      case Success(m') => AssignPerEdge(m', edges[1..], departed, carTotal)
  }

  /**
    With two street edges, two vehicles departing together end up on the same
    node, and with no edges no vehicle is assigned at all; one pass numbers
    them 0 and 1.
   */
  lemma PerEdgeAssignmentCollides()
    ensures AssignPerEdge(map[], ["e1", "e2"], ["a", "b"], 10) == Success(map["a" := 2, "b" := 2])
    ensures AssignPerEdge(map[], [], ["a", "b"], 10) == Success(map[])
    ensures AssignDeparted(map[], ["a", "b"], 10) == Success(map["a" := 0, "b" := 1])
  {
    var m1 := map["a" := 0, "b" := 1];
    var m2 := map["a" := 2, "b" := 2];
    FirstPass();
    SecondPass();
    assert ["e1", "e2"][1..] == ["e2"];
    assert ["e2"][1..] == [];
    assert AssignPerEdge(m1, ["e2"], ["a", "b"], 10) == AssignPerEdge(m2, [], ["a", "b"], 10);
  }

  lemma FirstPass()
    ensures AssignDeparted(map[], ["a", "b"], 10) == Success(map["a" := 0, "b" := 1])
  {
    var m0: map<string, int> := map[];
    AssignTwo(m0, "a", "b", 10);
    assert |m0| == 0;
    assert |m0["a" := 0]| == 1 by { assert m0["a" := 0].Keys == {"a"}; }
    assert m0["a" := 0]["b" := 1] == map["a" := 0, "b" := 1];
  }

  lemma SecondPass()
    ensures AssignDeparted(map["a" := 0, "b" := 1], ["a", "b"], 10) == Success(map["a" := 2, "b" := 2])
  {
    var m1 := map["a" := 0, "b" := 1];
    AssignTwo(m1, "a", "b", 10);
    assert |m1| == 2 by { assert m1.Keys == {"a", "b"}; }
    assert |m1["a" := 2]| == 2 by { assert m1["a" := 2].Keys == {"a", "b"}; }
    assert m1["a" := 2]["b" := 2] == map["a" := 2, "b" := 2];
  }

  /** One pass over two departed vehicles, unfolded. */
  lemma AssignTwo(m: map<string, int>, a: string, b: string, carTotal: nat)
    requires carTotal > 0
    ensures var m' := m[a := |m| % carTotal];
      AssignDeparted(m, [a, b], carTotal) == Success(m'[b := |m'| % carTotal])
  {
    var m' := m[a := |m| % carTotal];
    assert [a, b][1..] == [b];
    assert [b][1..] == [];
    assert AssignDeparted(m', [b], carTotal) == AssignDeparted(m'[b := |m'| % carTotal], [], carTotal);
  }

  // ---------------------------------------------------------------------------
  // Rumour prompts

  const EventTypes: seq<string> := ["active shooter", "traffic jam"]

  function Prompt(event: string, street: string): string {
    "There is a " + event + " at " + street + "."
  }

  /** At least one prompt, and one per three cars. */
  function PromptCount(carTotal: nat): (r: nat)
    ensures r >= 1 && r >= carTotal / 3
    ensures r == 1 || r * 3 <= carTotal < r * 3 + 3
  {
    if carTotal / 3 > 1 then carTotal / 3 else 1
  }

  /** `p` is a prompt about one of the event types at one of `streets`. */
  ghost predicate IsPrompt(p: string, streets: seq<string>) {
    exists ev, st :: ev in EventTypes && st in streets && p == Prompt(ev, st)
  }

  /**
    The rumour prompts for `carTotal` cars; `draws(i)` gives the two random
    draws of the `i`-th prompt (event type, street). Choosing from an empty
    street list raises.
   */
  function GeneratePrompts(carTotal: nat, streetNames: seq<string>, draws: nat -> (nat, nat)): (r: Result<seq<string>, string>)
    ensures r.Failure? <==> |streetNames| == 0
    ensures r.Success? ==>
      && |r.value| == PromptCount(carTotal)
      && forall i :: 0 <= i < |r.value| ==> IsPrompt(r.value[i], streetNames)
  {
    if |streetNames| == 0 then Failure("Cannot choose from an empty sequence")
    else
      var prompts := seq(PromptCount(carTotal), i requires 0 <= i =>
        Prompt(EventTypes[draws(i).0 % |EventTypes|], streetNames[draws(i).1 % |streetNames|]));
      assert forall i :: 0 <= i < |prompts| ==> IsPrompt(prompts[i], streetNames) by {
        forall i | 0 <= i < |prompts| ensures IsPrompt(prompts[i], streetNames) {
          var ev := EventTypes[draws(i).0 % |EventTypes|];
          var st := streetNames[draws(i).1 % |streetNames|];
          assert ev in EventTypes && st in streetNames && prompts[i] == Prompt(ev, st);
        }
      }
      Success(prompts)
  }
}
