# SocialxTransportation core, modelled in Dafny

SocialxTransportation couples a SUMO road simulation with a power grid laid
over the city's traffic lights and with rumours spreading among drivers. This
project models the parts of it that are exact graph, set, map and sequence
logic, and proves properties of them:

- **The power grid** (`grid.dfy`, module `Grid`; powerNetworkGen.py).
  - Building the grid from the traffic lights and road edges: two source
    buses, the transformer, one bus and one 0.02 MW load per traffic light,
    feeder lines and road lines.
  - The traffic-light labels `N1`, `N2`, …
  - The graph of buses that are up, and the set of energised buses.
  - Zeroing and restoring the loads of a bus.
- **Generic graphs** (`graphs.dfy`, module `Graphs`). These are the
  undirected graphs NetworkX builds. Two reference definitions are related
  to explicit paths:
  - `Ball(g, c, k)`, the nodes within `k` hops of `c`;
  - `Closure(g, s)`, everything reachable from `s`.
- **Failures** (`failures.dfy`, module `Failures`; powerNetwork.py).
  - The depth-limited breadth-first partition failure, as an imperative
    queue-and-level-map loop. It is proved to fail exactly the `depth`-ball
    around its centre in the graph of buses that are up.
  - One simulation tick: a single failure, then a partition, then a recovery.
  - The colour each bus is drawn in.
- **Rerouting** (`rerouting.dfy`, module `Rerouting`; main.py).
  - The dangerous edges of a vehicle, taken from the rumours its node is
    infected by.
  - The one-edge look-ahead.
  - The safe alternative destinations.
  - Numbering departed vehicles onto social-network nodes.
  - The number of rumour prompts.
- **Streets** (`streets.dfy`, module `Streets`; network_utils.py).
  - The list of street-name attributes.
  - The edge→street map, with its sorted street list and danger levels.
  - The street→edges grouping.
  - The vehicle count of a route file.
- **Traffic-light patcher** (`traffic_lights.dfy`, module `TrafficLights`;
  addTrafficLights.py). It adds a fixed-time `tlLogic` program to every
  `priority` or `unregulated` junction that lacks one.

Wrappers (`wrappers.dfy`) holds `Option`, `Result` and two sequence helpers.

Modelling conventions:
- Buses are `MainPowerGrid`, `LocalSubstation` and `Light(i)`. `BusName`
  renders these as the strings the code uses, and `BusNameInjective` shows
  that no information is lost.
- XML documents become sequences of records in document order.
- Every `random.random() < p` test is a boolean parameter.
- Every `random.choice(xs)` over a list is a natural-number draw that
  picks `xs[pick % |xs|]`. The recovery draw in `Failures.Tick` is over a
  set, so there the recovered bus is any member of the down set.
- The routing engine `findRoute` is a function parameter.
- Python's integer operators are used only on non-negative values, where
  they agree with Dafny's.
- Python's slice `xs[:f]` with a negative `f` is modelled explicitly
  (`SliceLength`).

Source buses are meant to stay up at all times: both failure paths exclude
them as candidates (powerNetwork.py:172-175, 249-252). The partition search
itself does not skip them, though, so they fail whenever they lie within
the depth of the centre. The model follows the code, and
`PartitionMayFailSources` exhibits such a case.

main.py:15-83 repeats the street helpers of network_utils.py with the same
behaviour. They are modelled once, citing network_utils.py.

## Model

| member | source | states |
|---|---|---|
| Graphs.ClosureIsReachable | powerNetworkGen.py:164-167 | the nodes a breadth-first tree from `a` spans are exactly those reachable from `a` along edges |
| Graphs.BallIsWithinHops | powerNetwork.py:205-217 | a node is in the `k`-ball of `c` iff some path of at most `k` hops joins it to `c` |
| Grid.BusNameInjective | powerNetworkGen.py:56-80 | distinct buses carry distinct names, so the labels "N{i}" never clash with each other or with the two source buses |
| Grid.LabelLights | powerNetworkGen.py:77-82 | the i-th traffic light in input order gets label N{i}; both dictionaries have exactly the traffic lights and labels N1..Nk as keys |
| Grid.LabellingIsBijective | powerNetworkGen.py:77-82 | `sumo_to_label` and `label_to_sumo` are inverse to each other and both injective |
| Grid.RoadLines | powerNetworkGen.py:107-124 | a road edge yields a line named "{from}-{to}" iff both its ends are traffic lights; every other edge is dropped; every line joins two traffic-light buses; no two lines share a name, a repeated name being skipped |
| Grid.RoadLineNameInjective | powerNetworkGen.py:116-118 | the name "{from}-{to}" of a road line determines both its ends |
| Grid.RepeatedRoadEdgeAddsNothing | powerNetworkGen.py:107-124 | a road edge seen again in the same direction adds no second line |
| Grid.CreatedLineNamesUnique | powerNetworkGen.py:92-124 | every feeder and road line of a created network carries a name of its own |
| Grid.CreatePowerNetwork | powerNetworkGen.py:42-86 | the buses are MainPowerGrid, LocalSubstation, then one bus per traffic light in label order; the only transformer is GridTransformer from MainPowerGrid to LocalSubstation |
| Grid.CreatedLoads | powerNetworkGen.py:84-86 | one load per traffic light, named `load_N{i}`, on bus N{i}, with p_set 0.02 |
| Grid.CreatedLoadsOnePerLight | powerNetworkGen.py:84-86 | each traffic-light bus carries exactly one load |
| Grid.CreatedLines | powerNetworkGen.py:88-124 | feeders run from LocalSubstation to exactly the first `[:feeders]` labels, in label order, followed by the road lines |
| Grid.CreatedNetworkClosed | powerNetworkGen.py:56-124 | every line and transformer of a created network joins two of its buses |
| Grid.UpGraph | powerNetworkGen.py:129-154 | no down bus is a node, and in a closed network the nodes are exactly the buses that are up; a line or transformer is an edge iff neither end is down |
| Grid.PoweredNodes | powerNetworkGen.py:157-168 | no down bus is energised, and with both sources down nothing is |
| Grid.PoweredIffReachableFromSource | powerNetworkGen.py:157-168 | a bus is energised iff a source that is up reaches it through buses that are up |
| Grid.SetNodeDown | powerNetworkGen.py:171-177 | the loads on the bus get p_set 0; every other load, every bus and every branch stay as they were |
| Grid.SetNodeUp | powerNetworkGen.py:180-186 | the loads on the bus get p_set 0.02 again; every other load, every bus and every branch stay as they were |
| Grid.SetNodeDownChangesOnlyItsLoads | powerNetworkGen.py:171-177 | setting a bus down zeroes exactly the loads on that bus and leaves every other load as it was |
| Grid.SetNodeDownIdempotent | powerNetworkGen.py:171-177 | setting a bus down twice equals setting it down once |
| Grid.UpAfterDownRestores | powerNetworkGen.py:180-186 | down then up restores a network whose loads on that bus were nominal |
| Grid.CreatedUpAfterDownRestores | powerNetworkGen.py:180-186 | in a freshly created network, down then up on any bus gives back the network as created |
| Grid.SetNodesDownGrow | powerNetwork.py:226-228 | failing buses one at a time accumulates: one more bus set down gives the enlarged group set down |
| Failures.Candidates | powerNetwork.py:172-175 | the candidates are exactly the buses that are neither a source nor down |
| Failures.Choose | powerNetwork.py:181 | a random choice is a member of the list it is drawn from |
| Failures.SearchLevels | powerNetwork.py:205-217 | the FIFO search labels the centre 0, labels every bus with its exact hop distance, and labels every bus within `depth` hops |
| Failures.VisitNeighbours | powerNetwork.py:212-217 | expanding a bus labels all its unlabelled neighbours one level further, keeps earlier labels, and queues exactly the new ones still short of `depth` |
| Failures.LevelsCutIsBall | powerNetwork.py:219-223 | the labelled buses with level at most `depth` form exactly the `depth`-ball |
| Failures.PartitionFailure | powerNetwork.py:166-228 | the failed group is the reference group (nothing without a candidate or a centre in the up-graph, else the `depth`-ball); it is disjoint from the old down set; the down set gains exactly the group and its buses' loads are zeroed |
| Failures.ApplyFailures | powerNetwork.py:226-228 | adding each failed bus to the down set and setting it down yields the union and the group set down |
| Failures.NoCandidatesNoChange | powerNetwork.py:171-178 | when every non-source bus is down nothing fails, even with a supplied centre |
| Failures.InvalidCenterNoChange | powerNetwork.py:201-203 | a supplied centre that is down or absent from the up-graph fails nothing |
| Failures.RandomCenterIsCandidate | powerNetwork.py:172-181 | a randomly drawn centre is a bus that is neither a source nor down |
| Failures.GroupIsWithinDepth | powerNetwork.py:205-223 | with a centre in the up-graph, a bus fails iff it is within `depth` hops of the centre in that graph |
| Failures.CenterAlwaysFails | powerNetwork.py:207-223 | the centre always fails, and with depth 0 only the centre does |
| Failures.NegativeDepthFailsNothing | powerNetwork.py:219-223 | a negative depth fails nothing |
| Failures.PartitionMayFailSources | powerNetwork.py:184-223 | around the only traffic light of a one-feeder grid, depth 2 fails both source buses too |
| Failures.Tick | powerNetwork.py:247-268 | a tick is single failure (only non-source buses that are up), then partition of depth 2, then recovery of one member of a non-empty down set with its load restored, each when its roll allows |
| Failures.BusColour | powerNetwork.py:65-84 | yellow iff a source; a non-source bus is red iff down, green iff up and energised, orange iff up and not energised |
| Failures.NodeColours | powerNetwork.py:65-84 | one colour per bus, in bus order: sources yellow, other buses red when down, green when energised and orange when cut off |
| Failures.ColourMeaning | powerNetwork.py:65-84 | a non-source bus is red iff down, green iff up and reached from an up source, orange iff up and cut off |
| Failures.YellowIffSource | powerNetwork.py:66-69 | exactly the two source buses are yellow |
| Rerouting.DangerousEdges | main.py:168-172 | an edge is dangerous iff it is the related edge of a rumour in which the node has status 1; a node the rumour does not know counts as not infected |
| Rerouting.SafeCandidates | main.py:190-194 | a destination is a candidate iff its route from the current edge contains the current edge and none of the dangerous edges |
| Rerouting.Reroute | main.py:154-203 | unassigned or uninfected vehicles keep their route; a new route is set iff the next edge is dangerous and some destination is safe, and it is the route to a safe destination |
| Rerouting.NewRouteIsClear | main.py:197-200 | a new route contains the current edge and no edge of a rumour infecting the vehicle's node |
| Rerouting.LookAheadIsOneEdge | main.py:183 | routes that agree on the next edge get the same decision, whatever lies further along |
| Rerouting.LastEdgeKeepsRoute | main.py:183 | a vehicle on the last edge of its route is never rerouted |
| Rerouting.AssignDeparted | main.py:249-253 | the pass fails (modulo by zero) iff the car count is 0 and some vehicle departed; afterwards the departed vehicles are assigned, other entries are unchanged, and every departed vehicle's node number is below the car count |
| Rerouting.AssignDepartedNumbersInOrder | main.py:250-253 | distinct first-time vehicles get consecutive node numbers modulo the car count, in departure order |
| Rerouting.AssignedVehicleIsOverwritten | main.py:252-253 | an already assigned vehicle is renumbered, not skipped |
| Rerouting.AssignPerEdge | main.py:245-253 | the pass repeated once per street edge: with no edges nothing is assigned, otherwise it fails exactly as one pass does |
| Rerouting.PerEdgeAssignmentCollides | main.py:245-253 | two edges and two departing vehicles end on the same node, and no edges assign nothing, where one pass gives nodes 0 and 1 |
| Rerouting.PromptCount | main.py:141 | at least one prompt, and as many as whole groups of three cars |
| Rerouting.GeneratePrompts | main.py:132-149 | fails iff there is no street; otherwise gives the prompt count, each prompt "There is a {event} at {street}." with one of the two events and a listed street |
| Streets.ListedNames | network_utils.py:3-7 | a string is listed iff some record has it as its name attribute, empty names included |
| Streets.ListedNamesOne | network_utils.py:6 | one record contributes its name attribute if it has one, and nothing otherwise |
| Streets.ListedNamesAppend | network_utils.py:6 | the list over two consecutive parts of the document is the concatenation of their lists, so each named record contributes one entry in document order, duplicates kept |
| Streets.ListedNamesKeepsDuplicates | network_utils.py:6 | two records with the same name list it twice |
| Streets.EdgeToStreet | network_utils.py:15-19 | the keys are exactly the ids of records with a non-empty name; each maps to the name of its last such record |
| Streets.EdgeToStreetUnique | network_utils.py:15-19 | with unique ids every named record maps to its own name |
| Streets.SortedSet | network_utils.py:23 | `sorted(set)`: strictly increasing in Python's string order, holding exactly the given names |
| Streets.SortedIsUnique | network_utils.py:23 | two strictly sorted lists with the same members are equal, so the list does not depend on set iteration order |
| Streets.EdgeToStreetMapping | network_utils.py:9-23 | the street list is sorted, duplicate-free and holds exactly the non-empty names; the danger map has exactly those streets as keys, each at 0 |
| Streets.StreetsAreMapValues | network_utils.py:15-23 | with unique ids the street list holds exactly the values of the edge→street map |
| Streets.EmptyNameListedNotMapped | network_utils.py:6-18 | an empty name attribute is listed by the name list but gives no street in the mapping |
| Streets.StreetToEdges | network_utils.py:25-34 | the keys are exactly the non-empty names; each maps to the ids of its records in document order |
| Streets.StreetToEdgesMember | network_utils.py:29-33 | an id is grouped under a street iff some record is that id with that non-empty name |
| Streets.GroupingAgreesWithMap | network_utils.py:15-33 | with unique ids, an id is grouped under a street iff the edge→street map sends it there |
| Streets.CountVehicles | network_utils.py:36-40 | the count is at most the number of children, 0 iff there is no vehicle, and all of them iff every child is a vehicle |
| Streets.CountVehiclesAppend | network_utils.py:39 | counts over two parts of a document add up |
| TrafficLights.Visit | addTrafficLights.py:20-39 | one junction fails iff eligible with an id holding a quote (the model's stand-in for an invalid lookup); otherwise it appends a program exactly when eligible and no program has its id |
| TrafficLights.AddTlLogic | addTrafficLights.py:19-39 | fails iff an eligible junction's id holds a quote (the model's stand-in for an invalid lookup); else existing programs are kept as a prefix, added ones are the fixed static program for eligible ids absent before, with distinct ids, and every eligible junction has a program |
| TrafficLights.OneProgramPerJunction | addTrafficLights.py:19-39 | if program ids were unique they stay unique, so each eligible junction has exactly one program |
| TrafficLights.AddTlLogicIdempotent | addTrafficLights.py:24-25 | a second pass over its own output adds nothing |
| TrafficLights.CoveredUnchanged | addTrafficLights.py:22-25 | junctions that all already have a program change nothing |
| TrafficLights.IneligibleUnchanged | addTrafficLights.py:22 | junctions of other types (e.g. `traffic_light`) never get a program |
| TrafficLights.DuplicateJunctionAddsOnce | addTrafficLights.py:24-39 | two eligible junctions with the same id produce a single program |

## Left out

- XML parsing and writing (`ET.parse`, `findall`, `tree.write`): documents are sequences of records in document order. Elements without an `id` attribute are not modelled.
- pypsa numerics: power flow, generator, voltages, line lengths and impedances (`math.hypot`); traffic-light coordinates feed only these and are dropped.
- CSV logging, plotting, `print` and `time.sleep`: output only.
- LLM sentiment and street classification (main.py:93-130): external models with float thresholds.
- Rumour contagion: the social-network class the simulation instantiates is not part of this model; a rumour model is only its node status map and its related edge.
- The SUMO main loop (main.py:207-302): `findRoute`, the route, the route index and the road id are parameters; street-crossing counts and rumour injection are not modelled.
- Randomness: each draw is a parameter; probabilities are not modelled.
- Rerouting.Reroute: requires a route index of at least -1, the range the simulator reports; Python's negative indexing below that is not modelled.
- Failures.SearchLevels: the order in which a bus's neighbours are visited is left open (any order), since the levels do not depend on it.
- Failures.Tick: the recovered bus is any member of the down set, as `random.choice(list(down_nodes))` depends on set iteration order; the power flow and logging after each tick are not modelled.
- Grid.RoadLines: a second line under an existing name is skipped, as pypsa releases that log an error for a duplicate name do; releases whose `add` raises instead would stop the construction there, and that outcome is not modelled.
- Grid.CreatePowerNetwork: the traffic lights are a duplicate-free sequence of junction ids, as the keys of the source's dictionary are.
- TrafficLights.Visit: every id holding a single quote is treated as a failed lookup, although some such ids (`x'][@id='y`) form another valid query, for which the source looks up and appends as usual.
- TrafficLights.AddTlLogic: inherits the quote rule of `TrafficLights.Visit` above.
- TrafficLights.AddTlLogic: all `tlLogic` elements of the document (at any depth) form one sequence, new ones appended at its end; other elements of the document are not modelled.

## Findings

| source | as written | input that shows it | evidently intended | confidence | as-written member | corrected member |
|---|---|---|---|---|---|---|
| main.py:245-255 | the pass numbering departed vehicles is indented inside the loop over street edges, so it runs once per edge in every step | empty map, departed `["a", "b"]`, `car_total` 10, two street edges: both vehicles end on node 2; with no named edges no vehicle is ever assigned | one pass per simulation step, numbering `a` and `b` as nodes 0 and 1 | medium, not executed | Rerouting.AssignPerEdge, Rerouting.PerEdgeAssignmentCollides | Rerouting.AssignDeparted, Rerouting.AssignDepartedNumbersInOrder |
