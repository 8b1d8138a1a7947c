/**
  Street and edge bookkeeping over the `<edge>` records of a SUMO network
  (network_utils.py): the list of name attributes, the edge-to-street map
  with its sorted street list and danger levels, the street-to-edges
  grouping, and the vehicle count of a route file. The XML document is
  reduced to its sequence of edge records, in document order.
 */
module Streets {
  import opened Wrappers

  /** An `<edge>` element: its id and its `name` attribute, if present. */
  datatype EdgeRecord = EdgeRecord(id: string, name: Option<string>)

  /** `if street_name:` — the name is present and not empty. */
  predicate Named(e: EdgeRecord) {
    e.name.Some? && e.name.value != ""
  }

  /** No two edge records share an id. */
  predicate UniqueIds(edges: seq<EdgeRecord>) {
    forall i, j :: 0 <= i < j < |edges| ==> edges[i].id != edges[j].id
  }

  // ---------------------------------------------------------------------------
  // The listed name attributes

  /** Every present name attribute, in document order, duplicates and empty names included. */
  function ListedNames(edges: seq<EdgeRecord>): (r: seq<string>)
    ensures |r| <= |edges|
    ensures forall s :: s in r <==> exists i :: 0 <= i < |edges| && edges[i].name == Some(s)
    decreases |edges|
  {
    if |edges| == 0 then []
    else
      var n := |edges| - 1;
      var prev := ListedNames(edges[..n]);
      assert forall i :: 0 <= i < n ==> edges[..n][i] == edges[i];
      if edges[n].name.Some? then prev + [edges[n].name.value] else prev
  }

  /** A single record contributes its name attribute when it has one, empty or not. */
  lemma ListedNamesOne(e: EdgeRecord)
    ensures ListedNames([e]) == if e.name.Some? then [e.name.value] else []
  {
    assert [e][..0] == [];
  }

  /**
    The list over two consecutive parts of the document is the list over the
    first followed by the list over the second: with `ListedNamesOne`, every
    named record contributes exactly one entry, in document order, duplicates
    kept.
   */
  lemma {:induction false} ListedNamesAppend(a: seq<EdgeRecord>, b: seq<EdgeRecord>)
    ensures ListedNames(a + b) == ListedNames(a) + ListedNames(b)
    decreases |b|
  {
    if |b| == 0 {
      assert a + b == a;
    } else {
      var n := |b| - 1;
      assert (a + b)[..|a| + n] == a + b[..n];
      assert (a + b)[|a| + n] == b[n];
      ListedNamesAppend(a, b[..n]);
    }
  }

  /** Two records with the same name give that name twice. */
  lemma ListedNamesKeepsDuplicates(id1: string, id2: string, name: string)
    ensures ListedNames([EdgeRecord(id1, Some(name)), EdgeRecord(id2, Some(name))]) == [name, name]
  {
    var e1, e2 := EdgeRecord(id1, Some(name)), EdgeRecord(id2, Some(name));
    ListedNamesOne(e1);
    ListedNamesOne(e2);
    ListedNamesAppend([e1], [e2]);
    assert [e1] + [e2] == [e1, e2];
  }

  // ---------------------------------------------------------------------------
  // Edge to street

  /** The non-empty street names of the records. */
  function NamedStreets(edges: seq<EdgeRecord>): (r: set<string>)
    ensures forall s :: s in r <==> s != "" && exists i :: 0 <= i < |edges| && edges[i].name == Some(s)
  {
    set i | 0 <= i < |edges| && Named(edges[i]) :: edges[i].name.value
  }

  /** Record `i` is the last named record with id `id`. */
  ghost predicate LastNamed(edges: seq<EdgeRecord>, id: string, i: int) {
    && 0 <= i < |edges| && edges[i].id == id && Named(edges[i])
    && forall j :: i < j < |edges| && edges[j].id == id ==> !Named(edges[j])
  }

  /**
    Each id of a named record mapped to its street; a later record with the
    same id overrides an earlier one.
   */
  function EdgeToStreet(edges: seq<EdgeRecord>): (r: map<string, string>)
    ensures forall id :: id in r <==> exists i :: 0 <= i < |edges| && edges[i].id == id && Named(edges[i])
    ensures forall id :: id in r ==> exists i :: LastNamed(edges, id, i) && edges[i].name == Some(r[id])
    decreases |edges|
  {
    if |edges| == 0 then map[]
    else
      var n := |edges| - 1;
      var prev := EdgeToStreet(edges[..n]);
      var e := edges[n];
      assert forall i :: 0 <= i < n ==> edges[..n][i] == edges[i];
      assert forall id, i :: LastNamed(edges[..n], id, i) && id != e.id ==> LastNamed(edges, id, i);
      assert forall id, i :: LastNamed(edges[..n], id, i) && !Named(e) ==> LastNamed(edges, id, i);
      assert Named(e) ==> LastNamed(edges, e.id, n);
      if Named(e) then prev[e.id := e.name.value] else prev
  }

  /** With unique ids every named record is in the map with its own name. */
  lemma EdgeToStreetUnique(edges: seq<EdgeRecord>, i: int)
    requires UniqueIds(edges) && 0 <= i < |edges| && Named(edges[i])
    ensures edges[i].id in EdgeToStreet(edges)
    ensures EdgeToStreet(edges)[edges[i].id] == edges[i].name.value
  {
    var m := EdgeToStreet(edges);
    var k :| LastNamed(edges, edges[i].id, k) && edges[k].name == Some(m[edges[i].id]);
    assert k == i;
  }

  // ---------------------------------------------------------------------------
  // Sorting street names (Python compares strings code point by code point)

  /** `a` sorts strictly before `b`: a smaller character at the first difference, or a proper prefix. */
  predicate Below(a: string, b: string)
    decreases |a|
  {
    |b| > 0 && (|a| == 0 || a[0] < b[0] || (a[0] == b[0] && Below(a[1..], b[1..])))
  }

  lemma {:induction false} BelowIrreflexive(a: string)
    ensures !Below(a, a)
    decreases |a|
  {
    if |a| > 0 {
      BelowIrreflexive(a[1..]);
    }
  }

  lemma {:induction false} BelowTransitive(a: string, b: string, c: string)
    requires Below(a, b) && Below(b, c)
    ensures Below(a, c)
    decreases |a|
  {
    if |a| > 0 && a[0] == b[0] && b[0] == c[0] {
      BelowTransitive(a[1..], b[1..], c[1..]);
    }
  }

  lemma {:induction false} BelowTotal(a: string, b: string)
    requires a != b
    ensures Below(a, b) || Below(b, a)
    decreases |a|
  {
    if |a| > 0 && |b| > 0 && a[0] == b[0] {
      assert a == [a[0]] + a[1..] && b == [b[0]] + b[1..];
      BelowTotal(a[1..], b[1..]);
    }
  }

  lemma BelowAsymmetric(a: string, b: string)
    requires Below(a, b)
    ensures !Below(b, a)
  {
    if Below(b, a) {
      BelowTransitive(a, b, a);
      BelowIrreflexive(a);
    }
  }

  /** Strictly increasing, hence free of duplicates. */
  predicate StrictlySorted(s: seq<string>) {
    forall i, j :: 0 <= i < j < |s| ==> Below(s[i], s[j])
  }

  /** `x` inserted into its place in a sorted list, unless it is already there. */
  function Insert(s: seq<string>, x: string): (r: seq<string>)
    requires StrictlySorted(s)
    ensures StrictlySorted(r)
    ensures forall y :: y in r <==> y in s || y == x
    decreases |s|
  {
    if |s| == 0 then [x]
    else if x == s[0] then s
    else if Below(x, s[0]) then
      assert forall j :: 0 < j < |s| ==> Below(x, s[j]) by {
        forall j | 0 < j < |s| ensures Below(x, s[j]) {
          BelowTransitive(x, s[0], s[j]);
        }
      }
      [x] + s
    else
      BelowTotal(x, s[0]);
      var rest := Insert(s[1..], x);
      assert forall y :: y in rest ==> Below(s[0], y);
      [s[0]] + rest
  }

  /** `sorted(...)` of the distinct members of `names`. */
  function SortedSet(names: seq<string>): (r: seq<string>)
    ensures StrictlySorted(r)
    ensures forall y :: y in r <==> y in names
    decreases |names|
  {
    if |names| == 0 then []
    else
      var n := |names| - 1;
      assert forall y :: y in names <==> y in names[..n] || y == names[n];
      Insert(SortedSet(names[..n]), names[n])
  }

  /** Two strictly sorted lists with the same members are equal: the sorted order does not depend on the set's iteration order. */
  lemma {:induction false} SortedIsUnique(a: seq<string>, b: seq<string>)
    requires StrictlySorted(a) && StrictlySorted(b)
    requires forall y :: y in a <==> y in b
    ensures a == b
    decreases |a|
  {
    assert |a| > 0 ==> a[0] in b;
    assert |b| > 0 ==> b[0] in a;
    if |a| > 0 {
      assert a[0] == b[0] by {
        if a[0] != b[0] {
          FirstIsLeast(b, a[0]);
          FirstIsLeast(a, b[0]);
          BelowAsymmetric(a[0], b[0]);
        }
      }
      assert a == [a[0]] + a[1..] && b == [b[0]] + b[1..];
      forall y ensures y in a[1..] <==> y in b[1..] {
        TailMember(a, y);
        TailMember(b, y);
      }
      SortedIsUnique(a[1..], b[1..]);
    }
  }

  /** The first member of a strictly sorted list sorts before every other member. */
  lemma FirstIsLeast(a: seq<string>, y: string)
    requires StrictlySorted(a) && y in a && y != a[0]
    ensures Below(a[0], y)
  {
    var i :| 0 <= i < |a| && a[i] == y;
  }

  /** In a strictly sorted list, the members after the first are the members other than the first. */
  lemma TailMember(a: seq<string>, y: string)
    requires StrictlySorted(a) && |a| > 0
    ensures y in a[1..] <==> y in a && y != a[0]
  {
    if y in a[1..] {
      var i :| 1 <= i < |a| && a[i] == y;
      BelowIrreflexive(y);
    }
    if y in a && y != a[0] {
      var i :| 0 <= i < |a| && a[i] == y;
      assert a[1..][i - 1] == y;
    }
  }

  /** The non-empty names of the records, in document order. */
  function NamedStreetList(edges: seq<EdgeRecord>): (r: seq<string>)
    ensures forall s :: s in r <==> s in NamedStreets(edges)
    decreases |edges|
  {
    if |edges| == 0 then []
    else
      var n := |edges| - 1;
      var prev := NamedStreetList(edges[..n]);
      assert forall i :: 0 <= i < n ==> edges[..n][i] == edges[i];
      if Named(edges[n]) then prev + [edges[n].name.value] else prev
  }

  /** What the edge-to-street parse returns. */
  datatype StreetMapping = StreetMapping(edgeToStreet: map<string, string>, streets: seq<string>, danger: map<string, int>)

  function EdgeToStreetMapping(edges: seq<EdgeRecord>): (r: StreetMapping)
    ensures r.edgeToStreet == EdgeToStreet(edges)
    // the street list is sorted, duplicate-free, and holds every non-empty name
    ensures StrictlySorted(r.streets)
    ensures forall s :: s in r.streets <==> s in NamedStreets(edges)
    // every street starts at danger level 0
    ensures forall s :: s in r.danger <==> s in r.streets
    ensures forall s :: s in r.danger ==> r.danger[s] == 0
  {
    var streets := SortedSet(NamedStreetList(edges));
    StreetMapping(EdgeToStreet(edges), streets, map s | s in streets :: 0)
  }

  /** With unique ids the street list holds exactly the streets of the edge-to-street map. */
  lemma StreetsAreMapValues(edges: seq<EdgeRecord>)
    requires UniqueIds(edges)
    ensures var r := EdgeToStreetMapping(edges);
      forall s :: s in r.streets <==> s in r.edgeToStreet.Values
  {
    var r := EdgeToStreetMapping(edges);
    forall s ensures s in r.streets <==> s in r.edgeToStreet.Values {
      if s in r.streets {
        var i :| 0 <= i < |edges| && edges[i].name == Some(s) && s != "";
        EdgeToStreetUnique(edges, i);
        assert r.edgeToStreet[edges[i].id] == s;
      }
      if s in r.edgeToStreet.Values {
        var id :| id in r.edgeToStreet && r.edgeToStreet[id] == s;
        var i :| LastNamed(edges, id, i) && edges[i].name == Some(s);
      }
    }
  }

  /**
    The listed names can hold what the mapping drops: an edge whose name
    attribute is present but empty is listed, yet gives no street.
   */
  lemma EmptyNameListedNotMapped(edges: seq<EdgeRecord>, i: int)
    requires 0 <= i < |edges| && edges[i].name == Some("")
    ensures "" in ListedNames(edges)
    ensures "" !in EdgeToStreetMapping(edges).streets
    ensures forall id :: id in EdgeToStreet(edges) ==> EdgeToStreet(edges)[id] != ""
  {
    var m := EdgeToStreet(edges);
    forall id | id in m ensures m[id] != "" {
      var k :| LastNamed(edges, id, k) && edges[k].name == Some(m[id]);
    }
  }

  // ---------------------------------------------------------------------------
  // Street to edges

  /** Reference definition: the ids of the records named `s`, in document order. */
  function EdgesOn(edges: seq<EdgeRecord>, s: string): (r: seq<string>)
    decreases |edges|
  {
    if |edges| == 0 then []
    else if edges[0].name == Some(s) then [edges[0].id] + EdgesOn(edges[1..], s)
    else EdgesOn(edges[1..], s)
  }

  lemma {:induction false} EdgesOnSnoc(edges: seq<EdgeRecord>, e: EdgeRecord, s: string)
    ensures EdgesOn(edges + [e], s) == EdgesOn(edges, s) + (if e.name == Some(s) then [e.id] else [])
    decreases |edges|
  {
    if |edges| > 0 {
      assert (edges + [e])[1..] == edges[1..] + [e];
      EdgesOnSnoc(edges[1..], e, s);
    }
  }

  lemma {:induction false} EdgesOnMember(edges: seq<EdgeRecord>, s: string, id: string)
    ensures id in EdgesOn(edges, s) <==> exists i :: 0 <= i < |edges| && edges[i] == EdgeRecord(id, Some(s))
    decreases |edges|
  {
    if |edges| > 0 {
      EdgesOnMember(edges[1..], s, id);
      if exists i :: 0 <= i < |edges| && edges[i] == EdgeRecord(id, Some(s)) {
        var i :| 0 <= i < |edges| && edges[i] == EdgeRecord(id, Some(s));
        if i > 0 {
          assert edges[1..][i - 1] == edges[i];
        }
      }
      if exists i :: 0 <= i < |edges[1..]| && edges[1..][i] == EdgeRecord(id, Some(s)) {
        var i :| 0 <= i < |edges[1..]| && edges[1..][i] == EdgeRecord(id, Some(s));
        assert edges[i + 1] == edges[1..][i];
      }
    }
  }

  /** The ids of each street, grouped under it in document order. */
  function StreetToEdges(edges: seq<EdgeRecord>): (r: map<string, seq<string>>)
    ensures forall s :: s in r <==> s in NamedStreets(edges)
    ensures forall s :: s in r ==> r[s] == EdgesOn(edges, s)
    decreases |edges|
  {
    if |edges| == 0 then map[]
    else
      var n := |edges| - 1;
      var prefix := edges[..n];
      var e := edges[n];
      var prev := StreetToEdges(prefix);
      StreetToEdgesStep(prefix, e);
      assert edges == prefix + [e];
      if Named(e) then
        prev[e.name.value := (if e.name.value in prev then prev[e.name.value] else []) + [e.id]]
      else prev
  }

  /** How appending a record changes the street names and the reference grouping. */
  lemma StreetToEdgesStep(prefix: seq<EdgeRecord>, e: EdgeRecord)
    ensures forall s :: s in NamedStreets(prefix + [e]) <==> s in NamedStreets(prefix) || (Named(e) && s == e.name.value)
    ensures forall s :: EdgesOn(prefix + [e], s) == EdgesOn(prefix, s) + (if e.name == Some(s) then [e.id] else [])
    ensures forall s :: s != "" && s !in NamedStreets(prefix) ==> EdgesOn(prefix, s) == []
  {
    var edges := prefix + [e];
    forall s ensures s in NamedStreets(edges) <==> s in NamedStreets(prefix) || (Named(e) && s == e.name.value) {
      if s in NamedStreets(edges) {
        var i :| 0 <= i < |edges| && edges[i].name == Some(s);
        if i < |prefix| {
          assert prefix[i] == edges[i];
        }
      }
      if s in NamedStreets(prefix) {
        var i :| 0 <= i < |prefix| && prefix[i].name == Some(s);
        assert edges[i] == prefix[i];
      }
      if Named(e) && s == e.name.value {
        assert edges[|prefix|] == e;
      }
    }
    forall s ensures EdgesOn(edges, s) == EdgesOn(prefix, s) + (if e.name == Some(s) then [e.id] else []) {
      EdgesOnSnoc(prefix, e, s);
    }
    forall s | s != "" && s !in NamedStreets(prefix) ensures EdgesOn(prefix, s) == [] {
      if EdgesOn(prefix, s) != [] {
        EdgesOnMember(prefix, s, EdgesOn(prefix, s)[0]);
      }
    }
  }

  /** An id is grouped under street `s` exactly when some record is that id named `s`. */
  lemma StreetToEdgesMember(edges: seq<EdgeRecord>, s: string, id: string)
    ensures (s in StreetToEdges(edges) && id in StreetToEdges(edges)[s])
      <==> s != "" && exists i :: 0 <= i < |edges| && edges[i] == EdgeRecord(id, Some(s))
  {
    EdgesOnMember(edges, s, id);
  }

  /** With unique ids the grouping agrees with the edge-to-street map. */
  lemma GroupingAgreesWithMap(edges: seq<EdgeRecord>, s: string, id: string)
    requires UniqueIds(edges)
    ensures (s in StreetToEdges(edges) && id in StreetToEdges(edges)[s])
      <==> id in EdgeToStreet(edges) && EdgeToStreet(edges)[id] == s
  {
    StreetToEdgesMember(edges, s, id);
    var m := EdgeToStreet(edges);
    if s != "" && exists i :: 0 <= i < |edges| && edges[i] == EdgeRecord(id, Some(s)) {
      var i :| 0 <= i < |edges| && edges[i] == EdgeRecord(id, Some(s));
      EdgeToStreetUnique(edges, i);
    }
    if id in m && m[id] == s {
      var i :| LastNamed(edges, id, i) && edges[i].name == Some(s);
      assert edges[i] == EdgeRecord(id, Some(s));
    }
  }

  // ---------------------------------------------------------------------------
  // Vehicles in a route file

  /** The number of `<vehicle>` children among the root's children, given by tag. */
  function CountVehicles(tags: seq<string>): (r: nat)
    ensures r <= |tags|
    ensures r == 0 <==> "vehicle" !in tags
    ensures r == |tags| <==> forall i :: 0 <= i < |tags| ==> tags[i] == "vehicle"
    decreases |tags|
  {
    if |tags| == 0 then 0
    else
      var rest := CountVehicles(tags[1..]);
      assert forall x :: x in tags <==> x == tags[0] || x in tags[1..];
      assert forall i :: 1 <= i < |tags| ==> tags[i] == tags[1..][i - 1];
      (if tags[0] == "vehicle" then 1 else 0) + rest
  }

  /** Counting over two parts of a document adds up. */
  lemma {:induction false} CountVehiclesAppend(a: seq<string>, b: seq<string>)
    ensures CountVehicles(a + b) == CountVehicles(a) + CountVehicles(b)
    decreases |a|
  {
    if |a| == 0 {
      assert a + b == b;
    } else {
      assert (a + b)[1..] == a[1..] + b;
      assert (a + b)[0] == a[0];
      CountVehiclesAppend(a[1..], b);
    }
  }
}
