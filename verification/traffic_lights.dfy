/**
  The traffic-light patcher (addTrafficLights.py): every junction of type
  `priority` or `unregulated` that has no `<tlLogic>` yet gets a fixed-time
  program appended to the network. The document is reduced to its junction
  records and its `<tlLogic>` elements, in document order.
 */
module TrafficLights {
  import opened Wrappers

  /** A `<junction>` element: its id and its `type` attribute, if present. */
  datatype Junction = Junction(id: string, kind: Option<string>)

  datatype Phase = Phase(duration: string, state: string)

  /** A `<tlLogic>` element with its `<phase>` children. */
  datatype TlLogic = TlLogic(id: string, kind: string, programId: string, offset: string, phases: seq<Phase>)

  /** Junctions of these types are the ones that get a program. */
  predicate Eligible(j: Junction) {
    j.kind == Some("priority") || j.kind == Some("unregulated")
  }

  /** The program added for junction `id`: static, program "0", offset "0", 40 s mostly red then 10 s green. */
  function NewTlLogic(id: string): (t: TlLogic)
    ensures t.id == id
  {
    TlLogic(id, "static", "0", "0", [Phase("40", "rrGG"), Phase("10", "GGrr")])
  }

  predicate HasTlLogic(tls: seq<TlLogic>, id: string) {
    exists t :: t in tls && t.id == id
  }

  /**
    Stands for the lookup `.//tlLogic[@id='<id>']` being rejected as an
    invalid path: a single quote in the id ends the quoted literal early.
    Every id with a quote is treated so, although a few of them still spell
    a valid path (`x'][@id='y` adds a second predicate).
   */
  predicate BreaksLookup(id: string) {
    '\'' in id
  }

  /** One junction of the pass. */
  function Visit(tls: seq<TlLogic>, j: Junction): (r: Result<seq<TlLogic>, string>)
    ensures r.Failure? <==> Eligible(j) && BreaksLookup(j.id)
    ensures r.Success? ==> r.value == tls || (Eligible(j) && !HasTlLogic(tls, j.id) && r.value == tls + [NewTlLogic(j.id)])
    ensures r.Success? && Eligible(j) ==> HasTlLogic(r.value, j.id)
  {
    if !Eligible(j) then Success(tls)
    else if BreaksLookup(j.id) then Failure("invalid predicate")
    else if HasTlLogic(tls, j.id) then Success(tls)
    else
      assert NewTlLogic(j.id) in tls + [NewTlLogic(j.id)];
      Success(tls + [NewTlLogic(j.id)])
  }

  /** Some eligible junction has id `id`. */
  ghost predicate EligibleId(junctions: seq<Junction>, id: string) {
    exists j :: j in junctions && Eligible(j) && j.id == id
  }

  /** The programs in `tls` from index `from` on are new ones, for eligible junctions, with distinct ids absent before `from`. */
  ghost predicate AddedFor(junctions: seq<Junction>, tls: seq<TlLogic>, from: nat) {
    && from <= |tls|
    && (forall i :: from <= i < |tls| ==> tls[i] == NewTlLogic(tls[i].id))
    && (forall i :: from <= i < |tls| ==> EligibleId(junctions, tls[i].id))
    && (forall i :: from <= i < |tls| ==> !HasTlLogic(tls[..from], tls[i].id))
    && (forall i, k :: from <= i < k < |tls| ==> tls[i].id != tls[k].id)
  }

  /**
    The pass over the junctions in document order, each looked up against the
    programs present so far (including those added earlier in the pass).
   */
  function AddTlLogic(junctions: seq<Junction>, tls: seq<TlLogic>): (r: Result<seq<TlLogic>, string>)
    // the pass fails exactly when an eligible junction's id breaks the lookup
    ensures r.Failure? <==> exists j :: j in junctions && Eligible(j) && BreaksLookup(j.id)
    // existing programs are kept, new ones appended after them
    ensures r.Success? ==> |tls| <= |r.value| && r.value[..|tls|] == tls
    ensures r.Success? ==> AddedFor(junctions, r.value, |tls|)
    // every eligible junction ends up with a program
    ensures r.Success? ==> forall j :: j in junctions && Eligible(j) ==> HasTlLogic(r.value, j.id)
    decreases |junctions|
  {
    if |junctions| == 0 then Success(tls)
    else
      var j := junctions[0];
      assert forall x :: x in junctions <==> x == j || x in junctions[1..];
      match Visit(tls, j)
      case Failure(e) => Failure(e)
      case Success(next) =>
        var r := AddTlLogic(junctions[1..], next);
        if r.Success? then
          AddedAfterVisit(junctions, tls, next, r.value);
          r
        else r
  }

  /** Chaining one visited junction with the rest of the pass. */
  lemma AddedAfterVisit(junctions: seq<Junction>, tls: seq<TlLogic>, next: seq<TlLogic>, r: seq<TlLogic>)
    requires |junctions| > 0 && Visit(tls, junctions[0]) == Success(next)
    requires |next| <= |r| && r[..|next|] == next
    requires AddedFor(junctions[1..], r, |next|)
    requires forall j :: j in junctions[1..] && Eligible(j) ==> HasTlLogic(r, j.id)
    ensures |tls| <= |r| && r[..|tls|] == tls
    ensures AddedFor(junctions, r, |tls|)
    ensures forall j :: j in junctions && Eligible(j) ==> HasTlLogic(r, j.id)
  {
    var j := junctions[0];
    assert forall x :: x in junctions[1..] ==> x in junctions;
    AddedForMoreJunctions(junctions[1..], junctions, r, |next|);
    if next == tls {
      assert r[..|tls|] == tls;
    } else {
      assert r[..|tls|] == tls by {
        assert next[..|tls|] == tls;
      }
      AddedOneMore(junctions, tls, r);
    }
    if Eligible(j) {
      var t :| t in next && t.id == j.id;
      assert t in r[..|next|];
    }
  }

  lemma AddedForMoreJunctions(js: seq<Junction>, more: seq<Junction>, r: seq<TlLogic>, from: nat)
    requires AddedFor(js, r, from)
    requires forall x :: x in js ==> x in more
    ensures AddedFor(more, r, from)
  {
    forall i | from <= i < |r| ensures EligibleId(more, r[i].id) {
      assert EligibleId(js, r[i].id);
      var x :| x in js && Eligible(x) && x.id == r[i].id;
      assert x in more;
    }
  }

  /** The program added for the first junction, followed by programs added after it. */
  lemma AddedOneMore(junctions: seq<Junction>, tls: seq<TlLogic>, r: seq<TlLogic>)
    requires |junctions| > 0 && Eligible(junctions[0]) && !HasTlLogic(tls, junctions[0].id)
    requires |tls| < |r| && r[..|tls| + 1] == tls + [NewTlLogic(junctions[0].id)]
    requires AddedFor(junctions, r, |tls| + 1)
    ensures AddedFor(junctions, r, |tls|)
  {
    var j := junctions[0];
    var n := |tls|;
    assert r[n] == NewTlLogic(j.id) by {
      assert r[n] == r[..n + 1][n];
    }
    assert r[..n] == tls by {
      assert r[..n] == r[..n + 1][..n];
    }
    assert forall t :: t in tls ==> t in r[..n + 1];
    assert r[n] in r[..n + 1];
    forall i | n < i < |r| ensures r[i].id != j.id && !HasTlLogic(tls, r[i].id) {
      assert !HasTlLogic(r[..n + 1], r[i].id);
    }
    assert EligibleId(junctions, j.id);
  }

  /** Ids that were unique stay unique: every eligible junction has exactly one program. */
  lemma OneProgramPerJunction(junctions: seq<Junction>, tls: seq<TlLogic>)
    requires forall i, k :: 0 <= i < k < |tls| ==> tls[i].id != tls[k].id
    requires AddTlLogic(junctions, tls).Success?
    ensures var r := AddTlLogic(junctions, tls).value;
      forall i, k :: 0 <= i < k < |r| ==> r[i].id != r[k].id
  {
    var r := AddTlLogic(junctions, tls).value;
    forall i, k | 0 <= i < k < |r| ensures r[i].id != r[k].id {
      if i < |tls| && k >= |tls| {
        assert r[i] in r[..|tls|];
      } else if i < |tls| {
        assert r[i] == tls[i] && r[k] == tls[k];
      }
    }
  }

  /** Running the pass again on its own result adds nothing. */
  lemma {:induction false} AddTlLogicIdempotent(junctions: seq<Junction>, tls: seq<TlLogic>)
    requires AddTlLogic(junctions, tls).Success?
    ensures AddTlLogic(junctions, AddTlLogic(junctions, tls).value) == AddTlLogic(junctions, tls)
  {
    var r := AddTlLogic(junctions, tls).value;
    CoveredUnchanged(junctions, r);
  }

  /** A pass over junctions that all have a program, and none of whose ids breaks the lookup, changes nothing. */
  lemma {:induction false} CoveredUnchanged(junctions: seq<Junction>, tls: seq<TlLogic>)
    requires forall j :: j in junctions && Eligible(j) ==> HasTlLogic(tls, j.id) && !BreaksLookup(j.id)
    ensures AddTlLogic(junctions, tls) == Success(tls)
    decreases |junctions|
  {
    if |junctions| > 0 {
      assert forall x :: x in junctions[1..] ==> x in junctions;
      assert Visit(tls, junctions[0]) == Success(tls);
      CoveredUnchanged(junctions[1..], tls);
    }
  }

  /** Junctions of any other type never get a program. */
  lemma IneligibleUnchanged(junctions: seq<Junction>, tls: seq<TlLogic>)
    requires forall j :: j in junctions ==> !Eligible(j)
    ensures AddTlLogic(junctions, tls) == Success(tls)
  {
    CoveredUnchanged(junctions, tls);
  }

  /** Two eligible junctions with the same id get a single program, the first time round. */
  lemma DuplicateJunctionAddsOnce(id: string)
    requires !BreaksLookup(id)
    ensures AddTlLogic([Junction(id, Some("priority")), Junction(id, Some("unregulated"))], [])
         == Success([NewTlLogic(id)])
  {
    var js := [Junction(id, Some("priority")), Junction(id, Some("unregulated"))];
    var one := [NewTlLogic(id)];
    assert Visit([], js[0]) == Success(one) by {
      assert [] + one == one;
    }
    assert Visit(one, js[1]) == Success(one) by {
      assert HasTlLogic(one, id) by { assert NewTlLogic(id) in one; }
    }
    assert js[1..] == [js[1]] && js[1..][1..] == [];
    assert AddTlLogic(js[1..], one) == AddTlLogic([], one);
  }
}
