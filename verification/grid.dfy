/**
  The power grid laid over the road network (powerNetworkGen.py): its buses,
  loads, feeder and road lines, the graph of buses that are up, the set of
  energised buses, and switching a bus's loads off and on.
  Electrical quantities other than a load's active power (`p_set`) are not part
  of this model: they only feed the power-flow solver.
 */
module Grid {
  import opened Wrappers
  import opened Graphs

  /**
    A bus of the grid. `Light(i)` is the bus of the i-th traffic light, whose
    name in the network is "N{i}" (see `BusName`).
   */
  datatype Bus = MainPowerGrid | LocalSubstation | Light(index: nat)

  /** The two buses energy flows from. */
  predicate IsSource(b: Bus) {
    b == MainPowerGrid || b == LocalSubstation
  }

  /** Active power drawn by one traffic light, in MW. */
  const NominalLoad: real := 0.02

  datatype Load = Load(name: string, bus: Bus, pSet: real)

  /** A line or transformer joining two buses. */
  datatype Branch = Branch(name: string, bus0: Bus, bus1: Bus)

  datatype PowerNetwork = PowerNetwork(
    buses: seq<Bus>,
    loads: seq<Load>,
    lines: seq<Branch>,
    transformers: seq<Branch>)

  /** Lines first, then transformers: the branches the grid graph is built from. */
  function Branches(net: PowerNetwork): seq<Branch> {
    net.lines + net.transformers
  }

  /** Every branch joins two buses of the network. */
  predicate NetworkClosed(net: PowerNetwork) {
    forall br :: br in Branches(net) ==> br.bus0 in net.buses && br.bus1 in net.buses
  }

  // ---------------------------------------------------------------------------
  // Bus names

  function Digit(d: nat): (c: char)
    requires d < 10
    ensures '0' <= c <= '9'
  {
    "0123456789"[d]
  }

  /** Decimal rendering of a natural number, as Python's `f"{i}"`. */
  function DecimalString(n: nat): (r: string)
    ensures |r| >= 1
    ensures n >= 10 ==> |r| >= 2
    ensures forall i :: 0 <= i < |r| ==> '0' <= r[i] <= '9'
    decreases n
  {
    if n < 10 then [Digit(n)] else DecimalString(n / 10) + [Digit(n % 10)]
  }

  lemma DigitInjective(a: nat, b: nat)
    requires a < 10 && b < 10 && Digit(a) == Digit(b)
    ensures a == b
  {
  }

  /** Different numbers are rendered as different strings. */
  lemma {:induction false} DecimalStringInjective(a: nat, b: nat)
    requires DecimalString(a) == DecimalString(b)
    ensures a == b
    decreases a
  {
    var ra, rb := DecimalString(a), DecimalString(b);
    if a < 10 && b < 10 {
      DigitInjective(a, b);
    } else if a >= 10 && b >= 10 {
      assert ra[|ra| - 1] == Digit(a % 10) && rb[|rb| - 1] == Digit(b % 10);
      DigitInjective(a % 10, b % 10);
      assert DecimalString(a / 10) == ra[..|ra| - 1] == rb[..|rb| - 1] == DecimalString(b / 10);
      DecimalStringInjective(a / 10, b / 10);
    }
  }

  /** The name a bus carries in the network. */
  function BusName(b: Bus): (r: string)
    ensures |r| >= 1 && (r[0] == 'N' <==> b.Light?)
  {
    match b
    case MainPowerGrid => "MainPowerGrid"
    case LocalSubstation => "LocalSubstation"
    case Light(i) => "N" + DecimalString(i)
  }

  /** No two buses share a name, so buses can stand for their names. */
  lemma BusNameInjective(a: Bus, b: Bus)
    requires BusName(a) == BusName(b)
    ensures a == b
  {
    if a.Light? && b.Light? {
      assert DecimalString(a.index) == BusName(a)[1..] == BusName(b)[1..] == DecimalString(b.index);
      DecimalStringInjective(a.index, b.index);
    }
  }

  // ---------------------------------------------------------------------------
  // Building the network

  /** The two dictionaries relating traffic-light junction ids and bus labels. */
  datatype Labelling = Labelling(sumoToLabel: map<string, Bus>, labelToSumo: map<Bus, string>)

  /**
    Labels the traffic lights in input order: the i-th (1-based) becomes
    `Light(i)`, that is "N{i}".
   */
  function LabelLights(lights: seq<string>): (r: Labelling)
    requires Distinct(lights)
    ensures forall s :: s in r.sumoToLabel <==> s in lights
    ensures forall i :: 0 <= i < |lights| ==> r.sumoToLabel[lights[i]] == Light(i + 1)
    ensures forall b :: b in r.labelToSumo <==> b.Light? && 1 <= b.index <= |lights|
    ensures forall i :: 0 <= i < |lights| ==> r.labelToSumo[Light(i + 1)] == lights[i]
    decreases |lights|
  {
    if |lights| == 0 then Labelling(map[], map[])
    else
      var n := |lights| - 1;
      var prefix := lights[..n];
      var id := lights[n];
      assert Distinct(prefix);
      var prev := LabelLights(prefix);
      LabelStep(lights, prev);
      Labelling(prev.sumoToLabel[id := Light(n + 1)], prev.labelToSumo[Light(n + 1) := id])
  }

  /** Labelling one more traffic light keeps the earlier labels and adds the next one. */
  lemma LabelStep(lights: seq<string>, prev: Labelling)
    requires Distinct(lights) && |lights| > 0
    requires var prefix := lights[..|lights| - 1];
      && (forall s :: s in prev.sumoToLabel <==> s in prefix)
      && (forall i :: 0 <= i < |prefix| ==> prev.sumoToLabel[prefix[i]] == Light(i + 1))
      && (forall b :: b in prev.labelToSumo <==> b.Light? && 1 <= b.index <= |prefix|)
      && (forall i :: 0 <= i < |prefix| ==> prev.labelToSumo[Light(i + 1)] == prefix[i])
    ensures var n := |lights| - 1; var id := lights[n];
      var r := Labelling(prev.sumoToLabel[id := Light(n + 1)], prev.labelToSumo[Light(n + 1) := id]);
      && (forall s :: s in r.sumoToLabel <==> s in lights)
      && (forall i :: 0 <= i < |lights| ==> r.sumoToLabel[lights[i]] == Light(i + 1))
      && (forall b :: b in r.labelToSumo <==> b.Light? && 1 <= b.index <= |lights|)
      && (forall i :: 0 <= i < |lights| ==> r.labelToSumo[Light(i + 1)] == lights[i])
  {
    var n := |lights| - 1;
    var prefix := lights[..n];
    var id := lights[n];
    assert lights == prefix + [id];
    forall i | 0 <= i < n ensures prefix[i] == lights[i] && lights[i] != id { }
  }

  /** The two label dictionaries are inverse to each other, hence both injective. */
  lemma LabellingIsBijective(lights: seq<string>)
    requires Distinct(lights)
    ensures var r := LabelLights(lights);
      && (forall s :: s in r.sumoToLabel ==>
            r.sumoToLabel[s] in r.labelToSumo && r.labelToSumo[r.sumoToLabel[s]] == s)
      && (forall b :: b in r.labelToSumo ==>
            r.labelToSumo[b] in r.sumoToLabel && r.sumoToLabel[r.labelToSumo[b]] == b)
      && (forall s, t :: s in r.sumoToLabel && t in r.sumoToLabel && r.sumoToLabel[s] == r.sumoToLabel[t] ==> s == t)
      && (forall a, b :: a in r.labelToSumo && b in r.labelToSumo && r.labelToSumo[a] == r.labelToSumo[b] ==> a == b)
  {
    var r := LabelLights(lights);
    forall s | s in r.sumoToLabel
      ensures r.sumoToLabel[s] in r.labelToSumo && r.labelToSumo[r.sumoToLabel[s]] == s
    {
      var i :| 0 <= i < |lights| && lights[i] == s;
    }
    forall b | b in r.labelToSumo
      ensures r.labelToSumo[b] in r.sumoToLabel && r.sumoToLabel[r.labelToSumo[b]] == b
    {
      var i := b.index - 1;
      assert b == Light(i + 1);
      assert r.labelToSumo[Light(i + 1)] == lights[i];
    }
  }

  /** Length of the Python slice `xs[:f]` of a list of length `n`. */
  function SliceLength(n: nat, f: int): (r: nat)
    ensures r <= n
    ensures f >= 0 ==> r == if f < n then f else n
  {
    if f >= 0 then (if f < n then f else n)
    else if n + f > 0 then n + f else 0
  }

  function TrafficLightLoad(i: nat): Load {
    Load("load_" + BusName(Light(i)), Light(i), NominalLoad)
  }

  function Feeder(i: nat): Branch {
    Branch("Feeder_" + BusName(Light(i)), LocalSubstation, Light(i))
  }

  const Transformer: Branch := Branch("GridTransformer", MainPowerGrid, LocalSubstation)

  /** The line a road edge yields: named "{from}-{to}" after the two labels. */
  function RoadLine(from: Bus, to: Bus): Branch {
    Branch(BusName(from) + "-" + BusName(to), from, to)
  }

  /** No bus name holds a dash, so "{from}-{to}" splits at its only dash. */
  lemma BusNameHasNoDash(b: Bus)
    ensures '-' !in BusName(b)
  {
    if b.Light? {
      var d := DecimalString(b.index);
      assert forall k :: 0 <= k < |d| ==> ("N" + d)[k + 1] == d[k];
    }
  }

  /** Two names joined by a dash, neither holding a dash, determine both names. */
  lemma SplitAtDash(x: string, y: string, u: string, v: string)
    requires '-' !in x && '-' !in u && x + "-" + y == u + "-" + v
    ensures x == u && y == v
  {
    var s := x + "-" + y;
    assert s[|x|] == '-' && forall k :: 0 <= k < |x| ==> s[k] == x[k];
    assert s[|u|] == '-' && forall k :: 0 <= k < |u| ==> s[k] == u[k];
    assert |x| == |u|;
    assert x == s[..|x|] && u == s[..|u|];
    assert y == s[|x| + 1..] && v == s[|u| + 1..];
  }

  /** The name of a road line identifies its two ends. */
  lemma RoadLineNameInjective(a: Bus, b: Bus, c: Bus, d: Bus)
    requires RoadLine(a, b).name == RoadLine(c, d).name
    ensures a == c && b == d
  {
    BusNameHasNoDash(a);
    BusNameHasNoDash(c);
    SplitAtDash(BusName(a), BusName(b), BusName(c), BusName(d));
    BusNameInjective(a, c);
    BusNameInjective(b, d);
  }

  /** Some line of `lines` already carries `name`. */
  predicate NameTaken(lines: seq<Branch>, name: string) {
    exists br :: br in lines && br.name == name
  }

  /** Among road lines, a taken name is taken by the very same line. */
  lemma SameNameSameLine(lines: seq<Branch>, from: Bus, to: Bus)
    requires forall br :: br in lines ==> br == RoadLine(br.bus0, br.bus1)
    requires NameTaken(lines, RoadLine(from, to).name)
    ensures RoadLine(from, to) in lines
  {
    var br :| br in lines && br.name == RoadLine(from, to).name;
    RoadLineNameInjective(br.bus0, br.bus1, from, to);
  }

  /**
    Keeps, in order, the road edges whose two ends are both traffic lights.
    The network holds one line per name, so an edge whose line name is
    already present (a second road between the same two lights, in the same
    direction) adds nothing.
   */
  function RoadLines(roadEdges: seq<(string, string)>, labels: map<string, Bus>): (r: seq<Branch>)
    ensures |r| <= |roadEdges|
    ensures forall br :: br in r ==>
      exists e :: e in roadEdges && e.0 in labels && e.1 in labels && br == RoadLine(labels[e.0], labels[e.1])
    ensures forall e :: e in roadEdges && e.0 in labels && e.1 in labels ==>
      RoadLine(labels[e.0], labels[e.1]) in r
    ensures forall br :: br in r ==> br.bus0 in labels.Values && br.bus1 in labels.Values
    // no two lines share a name
    ensures forall i, j :: 0 <= i < j < |r| ==> r[i].name != r[j].name
    decreases |roadEdges|
  {
    if |roadEdges| == 0 then []
    else
      var prev := RoadLines(roadEdges[..|roadEdges| - 1], labels);
      var e := roadEdges[|roadEdges| - 1];
      var r := if e.0 in labels && e.1 in labels && !NameTaken(prev, RoadLine(labels[e.0], labels[e.1]).name)
        then prev + [RoadLine(labels[e.0], labels[e.1])]
        else prev;
      RoadLinesStep(roadEdges, labels, prev, r);
      r
  }

  /** One more road edge keeps the facts `RoadLines` promises. */
  lemma RoadLinesStep(roadEdges: seq<(string, string)>, labels: map<string, Bus>, prev: seq<Branch>, r: seq<Branch>)
    requires |roadEdges| > 0
    requires var edges := roadEdges[..|roadEdges| - 1];
      && |prev| <= |edges|
      && (forall br :: br in prev ==>
            exists e :: e in edges && e.0 in labels && e.1 in labels && br == RoadLine(labels[e.0], labels[e.1]))
      && (forall e :: e in edges && e.0 in labels && e.1 in labels ==> RoadLine(labels[e.0], labels[e.1]) in prev)
      && (forall br :: br in prev ==> br.bus0 in labels.Values && br.bus1 in labels.Values)
      && (forall i, j :: 0 <= i < j < |prev| ==> prev[i].name != prev[j].name)
    requires var e := roadEdges[|roadEdges| - 1];
      r == if e.0 in labels && e.1 in labels && !NameTaken(prev, RoadLine(labels[e.0], labels[e.1]).name)
        then prev + [RoadLine(labels[e.0], labels[e.1])]
        else prev
    ensures |r| <= |roadEdges|
    ensures forall br :: br in r ==>
      exists e :: e in roadEdges && e.0 in labels && e.1 in labels && br == RoadLine(labels[e.0], labels[e.1])
    ensures forall e :: e in roadEdges && e.0 in labels && e.1 in labels ==>
      RoadLine(labels[e.0], labels[e.1]) in r
    ensures forall br :: br in r ==> br.bus0 in labels.Values && br.bus1 in labels.Values
    ensures forall i, j :: 0 <= i < j < |r| ==> r[i].name != r[j].name
  {
    var edges := roadEdges[..|roadEdges| - 1];
    var e := roadEdges[|roadEdges| - 1];
    assert forall x :: x in edges ==> x in roadEdges;
    assert forall x :: x in roadEdges ==> x in edges || x == e;
    if e.0 in labels && e.1 in labels {
      var line := RoadLine(labels[e.0], labels[e.1]);
      if NameTaken(prev, line.name) {
        forall br | br in prev ensures br == RoadLine(br.bus0, br.bus1) {
          var x :| x in edges && x.0 in labels && x.1 in labels && br == RoadLine(labels[x.0], labels[x.1]);
        }
        SameNameSameLine(prev, labels[e.0], labels[e.1]);
      } else {
        assert forall i :: 0 <= i < |prev| ==> prev[i] in prev;
      }
    }
  }

  datatype Created = Created(network: PowerNetwork, labels: Labelling)

  /**
    Builds the grid for the traffic lights `lights` (junction ids, in the
    order they were read) and the road edges `roadEdges` (from, to).
   */
  function CreatePowerNetwork(lights: seq<string>, roadEdges: seq<(string, string)>, feeders: int): (r: Created)
    requires Distinct(lights)
    ensures r.labels == LabelLights(lights)
    // the buses: the two sources, then one bus per traffic light
    ensures |r.network.buses| == |lights| + 2
    ensures r.network.buses[0] == MainPowerGrid && r.network.buses[1] == LocalSubstation
    ensures forall i :: 2 <= i < |r.network.buses| ==> r.network.buses[i] == Light(i - 1)
    // the transformer joins the two sources
    ensures r.network.transformers == [Branch("GridTransformer", MainPowerGrid, LocalSubstation)]
  {
    var k := |lights|;
    var labels := LabelLights(lights);
    var buses := SourceBuses + LightBuses(k);
    assert forall i :: 2 <= i < |buses| ==> buses[i] == LightBuses(k)[i - 2];
    Created(PowerNetwork(buses, LightLoads(k), FeederLines(k, feeders) + RoadLines(roadEdges, labels.sumoToLabel), [Transformer]), labels)
  }

  /** A created network carries one load of 0.02 MW per traffic-light bus, named after it. */
  lemma CreatedLoads(lights: seq<string>, roadEdges: seq<(string, string)>, feeders: int)
    requires Distinct(lights)
    ensures var net := CreatePowerNetwork(lights, roadEdges, feeders).network;
      && |net.loads| == |lights|
      && forall i :: 0 <= i < |net.loads| ==>
        && net.loads[i].bus == Light(i + 1)
        && net.loads[i].name == "load_" + BusName(Light(i + 1))
        && net.loads[i].pSet == NominalLoad
  {
  }

  /**
    The lines of a created network: feeders from the substation to the first
    labels, then one line per road edge whose ends are both traffic lights.
   */
  lemma CreatedLines(lights: seq<string>, roadEdges: seq<(string, string)>, feeders: int)
    requires Distinct(lights)
    ensures var r := CreatePowerNetwork(lights, roadEdges, feeders);
      && SliceLength(|lights|, feeders) <= |r.network.lines|
      && (forall i :: 0 <= i < SliceLength(|lights|, feeders) ==>
        r.network.lines[i].bus0 == LocalSubstation && r.network.lines[i].bus1 == Light(i + 1))
      && r.network.lines[SliceLength(|lights|, feeders)..] == RoadLines(roadEdges, r.labels.sumoToLabel)
  {
    var r := CreatePowerNetwork(lights, roadEdges, feeders);
    FeedersThenRoads(FeederLines(|lights|, feeders), RoadLines(roadEdges, r.labels.sumoToLabel));
  }

  lemma FeedersThenRoads(feederLines: seq<Branch>, roads: seq<Branch>)
    ensures (feederLines + roads)[|feederLines|..] == roads
    ensures forall i :: 0 <= i < |feederLines| ==> (feederLines + roads)[i] == feederLines[i]
  {
  }

  const SourceBuses: seq<Bus> := [MainPowerGrid, LocalSubstation]

  /** One bus per traffic light, in label order. */
  function LightBuses(k: nat): (r: seq<Bus>)
    ensures |r| == k && forall i :: 0 <= i < k ==> r[i] == Light(i + 1)
  {
    seq(k, i requires 0 <= i < k => Light(i + 1))
  }

  /** One nominal load per traffic light, in label order. */
  function LightLoads(k: nat): (r: seq<Load>)
    ensures |r| == k && forall i :: 0 <= i < k ==> r[i] == TrafficLightLoad(i + 1)
  {
    seq(k, i requires 0 <= i < k => TrafficLightLoad(i + 1))
  }

  /** Lines from the substation to the first labels, as many as the slice `[:feeders]` keeps. */
  function FeederLines(k: nat, feeders: int): (r: seq<Branch>)
    ensures |r| == SliceLength(k, feeders)
    ensures forall i :: 0 <= i < |r| ==> r[i] == Feeder(i + 1)
  {
    seq(SliceLength(k, feeders), i requires 0 <= i => Feeder(i + 1))
  }

  /** A road edge seen again, in the same direction, adds no second line. */
  lemma RepeatedRoadEdgeAddsNothing(roadEdges: seq<(string, string)>, labels: map<string, Bus>, e: (string, string))
    requires e in roadEdges
    ensures RoadLines(roadEdges + [e], labels) == RoadLines(roadEdges, labels)
  {
    var prev := RoadLines(roadEdges, labels);
    assert (roadEdges + [e])[..|roadEdges|] == roadEdges;
    if e.0 in labels && e.1 in labels {
      assert NameTaken(prev, RoadLine(labels[e.0], labels[e.1]).name);
    }
  }

  /** Different feeders carry different names. */
  lemma FeederNameInjective(a: nat, b: nat)
    requires Feeder(a).name == Feeder(b).name
    ensures a == b
  {
    assert BusName(Light(a)) == Feeder(a).name[7..];
    assert BusName(Light(b)) == Feeder(b).name[7..];
    BusNameInjective(Light(a), Light(b));
  }

  /** Every line of a created network carries a name of its own. */
  lemma CreatedLineNamesUnique(lights: seq<string>, roadEdges: seq<(string, string)>, feeders: int)
    requires Distinct(lights)
    ensures var lines := CreatePowerNetwork(lights, roadEdges, feeders).network.lines;
      forall i, j :: 0 <= i < j < |lines| ==> lines[i].name != lines[j].name
  {
    var k := |lights|;
    var labels := LabelLights(lights).sumoToLabel;
    forall b | b in labels.Values ensures b.Light? {
      var s :| s in labels && labels[s] == b;
      var a :| 0 <= a < k && lights[a] == s;
    }
    FeederAndRoadNamesApart(FeederLines(k, feeders), RoadLines(roadEdges, labels));
  }

  /** Feeders to distinct lights, followed by road lines with distinct names, never share a name. */
  lemma FeederAndRoadNamesApart(fl: seq<Branch>, rl: seq<Branch>)
    requires forall i :: 0 <= i < |fl| ==> fl[i] == Feeder(i + 1)
    requires forall br :: br in rl ==> br.bus0.Light? && br == RoadLine(br.bus0, br.bus1)
    requires forall i, j :: 0 <= i < j < |rl| ==> rl[i].name != rl[j].name
    ensures forall i, j :: 0 <= i < j < |fl + rl| ==> (fl + rl)[i].name != (fl + rl)[j].name
  {
    var lines: seq<Branch> := fl + rl;
    forall i, j | 0 <= i < j < |lines| ensures lines[i].name != lines[j].name {
      if j < |fl| {
        assert lines[i] == fl[i] && lines[j] == fl[j];
        if fl[i].name == fl[j].name {
          FeederNameInjective(i + 1, j + 1);
        }
      } else if i < |fl| {
        var br := rl[j - |fl|];
        assert br in rl;
        assert lines[i] == fl[i] && lines[j] == br;
        assert br.name[0] == BusName(br.bus0)[0] == 'N';
        assert fl[i].name[0] == 'F';
      } else {
        assert lines[i] == rl[i - |fl|] && lines[j] == rl[j - |fl|];
      }
    }
  }

  /** Each traffic-light bus carries exactly one load, and every load sits on such a bus. */
  lemma CreatedLoadsOnePerLight(lights: seq<string>, roadEdges: seq<(string, string)>, feeders: int, i: nat)
    requires Distinct(lights)
    requires 1 <= i <= |lights|
    ensures var net := CreatePowerNetwork(lights, roadEdges, feeders).network;
      forall j :: 0 <= j < |net.loads| ==>
        (net.loads[j].bus == Light(i) <==> j == i - 1)
  {
    CreatedLoads(lights, roadEdges, feeders);
  }

  /** Every branch of a created network joins two of its buses. */
  lemma CreatedNetworkClosed(lights: seq<string>, roadEdges: seq<(string, string)>, feeders: int)
    requires Distinct(lights)
    ensures NetworkClosed(CreatePowerNetwork(lights, roadEdges, feeders).network)
  {
    var k := |lights|;
    var labels := LabelLights(lights).sumoToLabel;
    forall b | b in labels.Values ensures b.Light? && 1 <= b.index <= k {
      var s :| s in labels && labels[s] == b;
      var a :| 0 <= a < k && lights[a] == s;
    }
    var buses := SourceBuses + LightBuses(k);
    var lines := FeederLines(k, feeders) + RoadLines(roadEdges, labels);
    LinesClosed(k, feeders, roadEdges, labels);
    assert buses[0] == MainPowerGrid && buses[1] == LocalSubstation;
    forall br | br in lines + [Transformer] ensures br.bus0 in buses && br.bus1 in buses {
      if br !in lines {
        assert br == Transformer;
      }
    }
  }

  /** Feeder and road lines only join the substation and traffic-light buses. */
  lemma LinesClosed(k: nat, feeders: int, roadEdges: seq<(string, string)>, labels: map<string, Bus>)
    requires forall b :: b in labels.Values ==> b.Light? && 1 <= b.index <= k
    ensures var buses := SourceBuses + LightBuses(k);
      forall br :: br in FeederLines(k, feeders) + RoadLines(roadEdges, labels) ==>
        br.bus0 in buses && br.bus1 in buses
  {
    var buses := SourceBuses + LightBuses(k);
    assert buses[1] == LocalSubstation;
    forall i | 1 <= i <= k ensures Light(i) in buses {
      assert buses[i + 1] == Light(i);
    }
  }

  // ---------------------------------------------------------------------------
  // The graph of buses that are up, and the energised buses

  /** The undirected graph of lines and transformers, leaving out every down bus. */
  function UpGraph(net: PowerNetwork, down: set<Bus>): (g: Graph<Bus>)
    ensures WellFormed(g)
    ensures forall b :: b in g.nodes ==> b !in down
    ensures forall b :: b in net.buses && b !in down ==> b in g.nodes
    ensures forall br :: br in Branches(net) && br.bus0 !in down && br.bus1 !in down ==>
      (br.bus0, br.bus1) in g.edges
    ensures forall e :: e in g.edges ==>
      exists br :: br in Branches(net) && br.bus0 == e.0 && br.bus1 == e.1
    ensures NetworkClosed(net) ==> forall b :: b in g.nodes <==> b in net.buses && b !in down
  {
    var edges := set br | br in Branches(net) && br.bus0 !in down && br.bus1 !in down :: (br.bus0, br.bus1);
    var nodes := (set b | b in net.buses && b !in down)
      + (set e | e in edges :: e.0) + (set e | e in edges :: e.1);
    Graph(nodes, edges)
  }

  /**
    The energised buses: everything a breadth-first search reaches from
    MainPowerGrid and from LocalSubstation, for each of the two that is in the
    graph of buses that are up.
   */
  function PoweredNodes(net: PowerNetwork, down: set<Bus>): (r: set<Bus>)
    ensures r !! down
    ensures MainPowerGrid in down && LocalSubstation in down ==> r == {}
  {
    var g := UpGraph(net, down);
    (if MainPowerGrid in g.nodes then Closure(g, {MainPowerGrid}) else {})
      + (if LocalSubstation in g.nodes then Closure(g, {LocalSubstation}) else {})
  }

  /** A bus is energised iff some source that is up reaches it through buses that are up. */
  lemma PoweredIffReachableFromSource(net: PowerNetwork, down: set<Bus>, v: Bus)
    requires NetworkClosed(net)
    ensures var g := UpGraph(net, down);
      v in PoweredNodes(net, down) <==>
        || (MainPowerGrid in net.buses && MainPowerGrid !in down && Reachable(g, MainPowerGrid, v))
        || (LocalSubstation in net.buses && LocalSubstation !in down && Reachable(g, LocalSubstation, v))
  {
    var g := UpGraph(net, down);
    if MainPowerGrid in g.nodes {
      ClosureIsReachable(g, MainPowerGrid, v);
    }
    if LocalSubstation in g.nodes {
      ClosureIsReachable(g, LocalSubstation, v);
    }
  }

  // ---------------------------------------------------------------------------
  // Switching loads

  /** Sets the active power of every load attached to a bus of `at` to `p`. */
  function SetLoads(loads: seq<Load>, at: set<Bus>, p: real): (r: seq<Load>)
    ensures |r| == |loads|
    ensures forall i :: 0 <= i < |loads| ==>
      r[i].name == loads[i].name && r[i].bus == loads[i].bus
      && r[i].pSet == (if loads[i].bus in at then p else loads[i].pSet)
    decreases |loads|
  {
    if |loads| == 0 then []
    else
      var last := loads[|loads| - 1];
      SetLoads(loads[..|loads| - 1], at, p) + [if last.bus in at then last.(pSet := p) else last]
  }

  /** Zeroes the loads attached to `node`; the bus itself stays in the network. */
  function SetNodeDown(net: PowerNetwork, node: Bus): (r: PowerNetwork)
    ensures r.buses == net.buses && r.lines == net.lines && r.transformers == net.transformers
    // the loads on `node` draw nothing; every other load is as it was
    ensures |r.loads| == |net.loads|
    ensures forall i :: 0 <= i < |net.loads| ==>
      r.loads[i] == if net.loads[i].bus == node then net.loads[i].(pSet := 0.0) else net.loads[i]
  {
    net.(loads := SetLoads(net.loads, {node}, 0.0))
  }

  /** Gives the loads attached to `node` their nominal 0.02 MW again. */
  function SetNodeUp(net: PowerNetwork, node: Bus): (r: PowerNetwork)
    ensures r.buses == net.buses && r.lines == net.lines && r.transformers == net.transformers
    // the loads on `node` draw 0.02 MW again; every other load is as it was
    ensures |r.loads| == |net.loads|
    ensures forall i :: 0 <= i < |net.loads| ==>
      r.loads[i] == if net.loads[i].bus == node then net.loads[i].(pSet := NominalLoad) else net.loads[i]
  {
    net.(loads := SetLoads(net.loads, {node}, NominalLoad))
  }

  /** Zeroes the loads attached to any bus of `nodes`. */
  function SetNodesDown(net: PowerNetwork, nodes: set<Bus>): (r: PowerNetwork)
    ensures r.buses == net.buses && r.lines == net.lines && r.transformers == net.transformers
  {
    net.(loads := SetLoads(net.loads, nodes, 0.0))
  }

  /** Setting a bus down changes exactly the loads on that bus, to zero. */
  lemma SetNodeDownChangesOnlyItsLoads(net: PowerNetwork, node: Bus)
    ensures var r := SetNodeDown(net, node);
      && |r.loads| == |net.loads|
      && (forall i :: 0 <= i < |net.loads| && net.loads[i].bus == node ==>
            r.loads[i] == net.loads[i].(pSet := 0.0))
      && (forall i :: 0 <= i < |net.loads| && net.loads[i].bus != node ==>
            r.loads[i] == net.loads[i])
  {
  }

  /** Setting a bus down twice is the same as setting it down once. */
  lemma SetNodeDownIdempotent(net: PowerNetwork, node: Bus)
    ensures SetNodeDown(SetNodeDown(net, node), node) == SetNodeDown(net, node)
  {
    var once := SetNodeDown(net, node);
    var twice := SetNodeDown(once, node);
    assert twice.loads == once.loads by {
      forall i | 0 <= i < |once.loads| ensures twice.loads[i] == once.loads[i] { }
    }
  }

  /** Bringing a bus back up after setting it down restores loads that were nominal. */
  lemma UpAfterDownRestores(net: PowerNetwork, node: Bus)
    requires forall l :: l in net.loads && l.bus == node ==> l.pSet == NominalLoad
    ensures SetNodeUp(SetNodeDown(net, node), node) == net
  {
    var r := SetNodeUp(SetNodeDown(net, node), node);
    assert r.loads == net.loads by {
      forall i | 0 <= i < |net.loads| ensures r.loads[i] == net.loads[i] {
        assert net.loads[i] in net.loads;
      }
    }
  }

  /** In a freshly created network, down-then-up on any bus gives the network back. */
  lemma CreatedUpAfterDownRestores(lights: seq<string>, roadEdges: seq<(string, string)>, feeders: int, node: Bus)
    requires Distinct(lights)
    ensures var net := CreatePowerNetwork(lights, roadEdges, feeders).network;
      SetNodeUp(SetNodeDown(net, node), node) == net
  {
    var net := CreatePowerNetwork(lights, roadEdges, feeders).network;
    CreatedLoads(lights, roadEdges, feeders);
    forall l | l in net.loads ensures l.pSet == NominalLoad {
      var i :| 0 <= i < |net.loads| && net.loads[i] == l;
    }
    UpAfterDownRestores(net, node);
  }

  /** Setting one more bus down after a group is setting the enlarged group down. */
  lemma SetNodesDownGrow(net: PowerNetwork, nodes: set<Bus>, node: Bus)
    ensures SetNodeDown(SetNodesDown(net, nodes), node) == SetNodesDown(net, nodes + {node})
  {
    var a := SetNodeDown(SetNodesDown(net, nodes), node);
    var b := SetNodesDown(net, nodes + {node});
    assert a.loads == b.loads by {
      forall i | 0 <= i < |net.loads| ensures a.loads[i] == b.loads[i] { }
    }
  }

  /** Setting no bus down leaves the network as it is. */
  lemma SetNodesDownNone(net: PowerNetwork)
    ensures SetNodesDown(net, {}) == net
  {
    assert SetNodesDown(net, {}).loads == net.loads;
  }
}
