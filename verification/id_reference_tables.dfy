/** IdReferenceTables: which line each vehicle serves, and which lines
    stop at each stop facility. Lines are named by `getName()`, so lines
    sharing a name are indistinguishable in both tables. */
module IdReferenceTables {
  import opened Transit
  import opened Tables

  // ---------------------------------------------------------------------
  // vehicleId2lineName
  // ---------------------------------------------------------------------

  /** A departure of some route of the line uses the vehicle. */
  predicate UsesVehicle(line: TransitLine, v: Id)
  {
    exists j, k :: 0 <= j < |line.routes| && 0 <= k < |line.routes[j].departures| && line.routes[j].departures[k].vehicle == v
  }

  /** The vehicles of all departures of the routes, in order. */
  function RouteVehicles(routes: seq<TransitRoute>): (r: seq<Id>)
    ensures forall v :: v in r <==>
      exists j, k :: 0 <= j < |routes| && 0 <= k < |routes[j].departures| && routes[j].departures[k].vehicle == v
    decreases |routes|
  {
    if |routes| == 0 then []
    else
      var ds := routes[0].departures;
      var vs := seq(|ds|, k requires 0 <= k < |ds| => ds[k].vehicle);
      assert forall j :: 1 <= j < |routes| ==> routes[j] == routes[1..][j - 1];
      assert forall v :: v in vs <==> exists k :: 0 <= k < |ds| && ds[k].vehicle == v by {
        forall v | v in vs ensures exists k :: 0 <= k < |ds| && ds[k].vehicle == v {
          var k :| 0 <= k < |vs| && vs[k] == v;
        }
        forall v | exists k :: 0 <= k < |ds| && ds[k].vehicle == v ensures v in vs {
          var k :| 0 <= k < |ds| && ds[k].vehicle == v;
          assert vs[k] == v;
        }
      }
      vs + RouteVehicles(routes[1..])
  }

  /** Pairs every element with the same value. */
  function PairWith(ks: seq<Id>, name: string): (r: seq<(Id, string)>)
    ensures |r| == |ks|
    ensures forall p :: p in r <==> p.0 in ks && p.1 == name
  {
    var r := seq(|ks|, k requires 0 <= k < |ks| => (ks[k], name));
    assert forall p :: p in r ==> p.0 in ks && p.1 == name by {
      forall p | p in r ensures p.0 in ks && p.1 == name {
        var k :| 0 <= k < |r| && r[k] == p;
      }
    }
    assert forall x :: x in ks ==> (x, name) in r by {
      forall x | x in ks ensures (x, name) in r {
        var k :| 0 <= k < |ks| && ks[k] == x;
        assert r[k] == (x, name);
      }
    }
    r
  }

  /** The `put(vehicle, name)` calls of one line, in order. */
  function LineVehiclePairs(line: TransitLine): seq<(Id, string)>
  {
    PairWith(RouteVehicles(line.routes), line.name)
  }

  /** The `put` calls of all lines, in order. */
  function VehiclePairs(lines: seq<TransitLine>): seq<(Id, string)>
    decreases |lines|
  {
    if |lines| == 0 then []
    else
      var n := |lines| - 1;
      VehiclePairs(lines[..n]) + LineVehiclePairs(lines[n])
  }

  /** `vehicleId2lineName`. */
  function VehicleTable(lines: seq<TransitLine>): map<Id, string>
  {
    PutAll(map[], VehiclePairs(lines))
  }

  lemma {:induction false} VehiclePairsMembers(lines: seq<TransitLine>, v: Id, name: string)
    ensures (v, name) in VehiclePairs(lines) <==> exists i :: 0 <= i < |lines| && UsesVehicle(lines[i], v) && lines[i].name == name
    decreases |lines|
  {
    if |lines| > 0 {
      var n := |lines| - 1;
      VehiclePairsMembers(lines[..n], v, name);
      assert forall i :: 0 <= i < n ==> lines[..n][i] == lines[i];
      if (v, name) in VehiclePairs(lines) && (v, name) !in VehiclePairs(lines[..n]) {
        assert (v, name) in LineVehiclePairs(lines[n]);
      }
    }
  }

  /** Every vehicle of a departure has an entry, and only those. */
  lemma VehicleTableKeys(lines: seq<TransitLine>, v: Id)
    ensures v in VehicleTable(lines) <==> exists i :: 0 <= i < |lines| && UsesVehicle(lines[i], v)
  {
    var pairs := VehiclePairs(lines);
    if v in KeysOf(pairs) {
      var k :| 0 <= k < |pairs| && pairs[k].0 == v;
      VehiclePairsMembers(lines, v, pairs[k].1);
      assert pairs[k] in pairs;
    }
    if exists i :: 0 <= i < |lines| && UsesVehicle(lines[i], v) {
      var i :| 0 <= i < |lines| && UsesVehicle(lines[i], v);
      VehiclePairsMembers(lines, v, lines[i].name);
      var k :| 0 <= k < |pairs| && pairs[k] == (v, lines[i].name);
    }
  }

  /** A vehicle's entry names the last line, in iteration order, that has
      a departure using it. */
  lemma {:induction false} VehicleTableLastLine(lines: seq<TransitLine>, v: Id, i: int)
    requires 0 <= i < |lines| && UsesVehicle(lines[i], v)
    requires forall j :: i < j < |lines| ==> !UsesVehicle(lines[j], v)
    ensures v in VehicleTable(lines) && VehicleTable(lines)[v] == lines[i].name
    decreases |lines|
  {
    var n := |lines| - 1;
    var before := VehiclePairs(lines[..n]);
    var last := LineVehiclePairs(lines[n]);
    PutAllAppend(map[], before, last);
    if i == n {
      var j, k :| 0 <= j < |lines[n].routes| && 0 <= k < |lines[n].routes[j].departures| && lines[n].routes[j].departures[k].vehicle == v;
      assert (v, lines[n].name) in last;
      var p :| 0 <= p < |last| && last[p] == (v, lines[n].name);
      assert v in KeysOf(last);
      assert forall q :: 0 <= q < |last| && last[q].0 == v ==> last[q].1 == lines[n].name by {
        forall q | 0 <= q < |last| && last[q].0 == v ensures last[q].1 == lines[n].name {
          assert last[q] in last;
        }
      }
      PutAllUniform(PutAll(map[], before), last, v, lines[n].name);
    } else {
      assert forall j :: 0 <= j < n ==> lines[..n][j] == lines[j];
      VehicleTableLastLine(lines[..n], v, i);
      assert v !in KeysOf(last);
      PutAllUntouched(PutAll(map[], before), last, v);
    }
  }

  // ---------------------------------------------------------------------
  // facilityId2lineName
  // ---------------------------------------------------------------------

  /** The `(facility, name)` additions of all lines, in order. */
  function FacilityPairs(lines: seq<TransitLine>): (r: seq<(Id, string)>)
    ensures forall f, name :: (f, name) in r <==> exists i :: 0 <= i < |lines| && StopsAt(lines[i], f) && lines[i].name == name
    decreases |lines|
  {
    if |lines| == 0 then []
    else
      assert forall i :: 1 <= i < |lines| ==> lines[i] == lines[1..][i - 1];
      PairWith(StopFacilities(lines[0].routes), lines[0].name) + FacilityPairs(lines[1..])
  }

  /** `facilityId2lineName`. */
  function FacilityTable(lines: seq<TransitLine>): map<Id, set<string>>
  {
    AddAll(map[], FacilityPairs(lines))
  }

  /** A facility has an entry iff some line stops at it. */
  lemma FacilityTableKeys(lines: seq<TransitLine>, f: Id)
    ensures f in FacilityTable(lines) <==> exists i :: 0 <= i < |lines| && StopsAt(lines[i], f)
  {
    var pairs := FacilityPairs(lines);
    if f in KeysOf(pairs) {
      var k :| 0 <= k < |pairs| && pairs[k].0 == f;
      assert pairs[k] in pairs;
    }
    if exists i :: 0 <= i < |lines| && StopsAt(lines[i], f) {
      var i :| 0 <= i < |lines| && StopsAt(lines[i], f);
      assert (f, lines[i].name) in pairs;
      var k :| 0 <= k < |pairs| && pairs[k] == (f, lines[i].name);
    }
  }

  /** A facility's set holds exactly the names of the lines stopping there,
      so it is never empty. */
  lemma FacilityTableIsStoppingLines(lines: seq<TransitLine>, f: Id)
    requires exists i :: 0 <= i < |lines| && StopsAt(lines[i], f)
    ensures f in FacilityTable(lines)
    ensures FacilityTable(lines)[f] == (set i | 0 <= i < |lines| && StopsAt(lines[i], f) :: lines[i].name)
    ensures FacilityTable(lines)[f] != {}
  {
    FacilityTableKeys(lines, f);
    var pairs := FacilityPairs(lines);
    var names := set i | 0 <= i < |lines| && StopsAt(lines[i], f) :: lines[i].name;
    forall name | name in ValuesOf(pairs, f) ensures name in names {
      var k :| 0 <= k < |pairs| && pairs[k].0 == f && pairs[k].1 == name;
      assert pairs[k] in pairs;
    }
    forall name | name in names ensures name in ValuesOf(pairs, f) {
      var i :| 0 <= i < |lines| && StopsAt(lines[i], f) && lines[i].name == name;
      assert (f, name) in pairs;
      var k :| 0 <= k < |pairs| && pairs[k] == (f, name);
    }
    var i :| 0 <= i < |lines| && StopsAt(lines[i], f);
    assert lines[i].name in names;
  }
}
