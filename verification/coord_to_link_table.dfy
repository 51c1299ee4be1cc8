/** CoordToLinkTable: how many transit lines run over each link, and which
    car link (and its opposite) each counting station's street is matched
    to. */
module CoordToLinkTable {
  import opened Wrappers
  import opened Transit
  import opened Tables

  // ---------------------------------------------------------------------
  // Bus usage per link
  // ---------------------------------------------------------------------

  /** The inner links (`getLinkIds()`) of the routes, as a set. */
  function RoutesLinks(routes: seq<TransitRoute>): (r: set<Id>)
    ensures forall id :: id in r <==>
      exists j, k :: 0 <= j < |routes| && 0 <= k < |routes[j].route.inner| && routes[j].route.inner[k] == id
    decreases |routes|
  {
    if |routes| == 0 then {}
    else
      var n := |routes| - 1;
      var inner := routes[n].route.inner;
      assert forall j :: 0 <= j < n ==> routes[..n][j] == routes[j];
      assert forall id :: id in inner <==> exists k :: 0 <= k < |inner| && inner[k] == id;
      RoutesLinks(routes[..n]) + set k | 0 <= k < |inner| :: inner[k]
  }

  /** The links some route of the line runs over. */
  function LineLinks(line: TransitLine): set<Id>
  {
    RoutesLinks(line.routes)
  }

  /** The counts after one more line: every link it uses counts once more. */
  function AddLine(usage: map<Id, nat>, links: set<Id>): (r: map<Id, nat>)
    ensures r.Keys == usage.Keys + links
  {
    map k | k in usage.Keys + links :: (if k in usage then usage[k] else 0) + (if k in links then 1 else 0)
  }

  /** The counts after the lines, taken in order. */
  function Usage(lines: seq<TransitLine>): map<Id, nat>
    decreases |lines|
  {
    if |lines| == 0 then map[]
    else
      var n := |lines| - 1;
      AddLine(Usage(lines[..n]), LineLinks(lines[n]))
  }

  /** The positions of the sets that hold `k`. */
  function Holders(sets: seq<set<Id>>, k: Id): set<int>
  {
    set i | 0 <= i < |sets| && k in sets[i]
  }

  /** The lines among `lines` that use link `k`, by position. */
  function UsersOf(lines: seq<TransitLine>, k: Id): (r: set<int>)
    ensures forall i :: i in r <==> 0 <= i < |lines| && k in LineLinks(lines[i])
  {
    Holders(seq(|lines|, i requires 0 <= i < |lines| => LineLinks(lines[i])), k)
  }

  /** `getBusUsageMap`. */
  method BusUsageMap(lines: seq<TransitLine>) returns (usage: map<Id, nat>)
    ensures usage == Usage(lines)
  {
    usage := map[];
    var i := 0;
    while i < |lines|
      invariant 0 <= i <= |lines|
      invariant usage == Usage(lines[..i])
    {
      usage := CountLine(usage, lines[i]);
      assert lines[..i + 1][..i] == lines[..i];
      i := i + 1;
    }
    assert lines[..i] == lines;
  }

  /** The body of the loop over the lines: `checked` keeps a link from
      counting twice for the same line. */
  method CountLine(base: map<Id, nat>, line: TransitLine) returns (usage: map<Id, nat>)
    ensures usage == AddLine(base, LineLinks(line))
  {
    usage := base;
    var checked: set<Id> := {};
    var r := 0;
    while r < |line.routes|
      invariant 0 <= r <= |line.routes|
      invariant checked == RoutesLinks(line.routes[..r])
      invariant usage == AddLine(base, checked)
    {
      usage, checked := CountRoute(base, usage, checked, line.routes[r].route.inner);
      assert line.routes[..r + 1][..r] == line.routes[..r];
      r := r + 1;
    }
    assert line.routes[..r] == line.routes;
  }

  /** The loop over one route's links. */
  method CountRoute(base: map<Id, nat>, usage0: map<Id, nat>, checked0: set<Id>, ids: seq<Id>)
    returns (usage: map<Id, nat>, checked: set<Id>)
    requires usage0 == AddLine(base, checked0)
    ensures checked == checked0 + set k | 0 <= k < |ids| :: ids[k]
    ensures usage == AddLine(base, checked)
  {
    usage, checked := usage0, checked0;
    var j := 0;
    while j < |ids|
      invariant 0 <= j <= |ids|
      invariant checked == checked0 + set k | 0 <= k < j :: ids[k]
      invariant usage == AddLine(base, checked)
    {
      var id := ids[j];
      if id !in checked {
        AddLineStep(base, checked, id);
        usage := usage[id := (if id in usage then usage[id] else 0) + 1];
        checked := checked + {id};
      }
      assert (set k | 0 <= k < j + 1 :: ids[k]) == (set k | 0 <= k < j :: ids[k]) + {ids[j]};
      j := j + 1;
    }
  }

  /** Counting one more link of the current line. */
  lemma AddLineStep(base: map<Id, nat>, checked: set<Id>, id: Id)
    requires id !in checked
    ensures var u := AddLine(base, checked);
      AddLine(base, checked + {id}) == u[id := (if id in u then u[id] else 0) + 1]
  {
  }

  /** The map holds exactly the links some line uses. */
  lemma {:induction false} UsageKeys(lines: seq<TransitLine>, k: Id)
    ensures k in Usage(lines) <==> exists i :: 0 <= i < |lines| && k in LineLinks(lines[i])
    decreases |lines|
  {
    if |lines| > 0 {
      var n := |lines| - 1;
      UsageKeys(lines[..n], k);
      UsageSnoc(lines, k);
      assert forall i :: 0 <= i < n ==> lines[..n][i] == lines[i];
    }
  }

  /** Each link's count is the number of lines using it: between 1 and the
      number of lines. */
  lemma {:induction false} UsageCountsLines(lines: seq<TransitLine>, k: Id)
    ensures k in Usage(lines) ==> Usage(lines)[k] == |UsersOf(lines, k)| && 1 <= Usage(lines)[k] <= |lines|
    decreases |lines|
  {
    if |lines| > 0 {
      var n := |lines| - 1;
      UsageCountsLines(lines[..n], k);
      UsageSnoc(lines, k);
      UsersOfSnoc(lines, k);
      UsageKeys(lines[..n], k);
      UsersOfBelow(lines[..n], k);
    }
  }

  /** One more line adds one to each of its links. */
  lemma UsageSnoc(lines: seq<TransitLine>, k: Id)
    requires |lines| > 0
    ensures var n := |lines| - 1;
      && (k in Usage(lines) <==> k in Usage(lines[..n]) || k in LineLinks(lines[n]))
      && (k in Usage(lines) ==>
            Usage(lines)[k] == (if k in Usage(lines[..n]) then Usage(lines[..n])[k] else 0) + (if k in LineLinks(lines[n]) then 1 else 0))
  {
  }

  /** The users among one more line: the line itself joins when it uses `k`. */
  lemma UsersOfSnoc(lines: seq<TransitLine>, k: Id)
    requires |lines| > 0
    ensures var n := |lines| - 1;
      |UsersOf(lines, k)| == |UsersOf(lines[..n], k)| + (if k in LineLinks(lines[n]) then 1 else 0)
  {
    var n := |lines| - 1;
    var sets := seq(|lines|, i requires 0 <= i < |lines| => LineLinks(lines[i]));
    assert sets[..n] == seq(n, i requires 0 <= i < n => LineLinks(lines[..n][i]));
    HoldersSnoc(sets, k);
  }

  lemma HoldersSnoc(sets: seq<set<Id>>, k: Id)
    requires |sets| > 0
    ensures var n := |sets| - 1;
      |Holders(sets, k)| == |Holders(sets[..n], k)| + (if k in sets[n] then 1 else 0)
  {
    var n := |sets| - 1;
    var before := Holders(sets[..n], k);
    assert n !in before;
    assert Holders(sets, k) == before + (if k in sets[n] then {n} else {});
  }

  /** No user when no line uses `k`; never more users than lines. */
  lemma UsersOfBelow(lines: seq<TransitLine>, k: Id)
    ensures (forall i :: 0 <= i < |lines| ==> k !in LineLinks(lines[i])) ==> UsersOf(lines, k) == {}
  {
  }

  // ---------------------------------------------------------------------
  // Street name -> (link, opposite link)
  // ---------------------------------------------------------------------

  /** One counting station of the CSV input: its street and its position
      (already projected). */
  datatype Station = Station(street: string, coord: Coord)

  /** A street's entry: the nearest car link and its opposite, if any. */
  type Entry = (Id, Option<Id>)

  /** The entry for one station: the nearest car link is dereferenced, so a
      `null` answer throws. */
  function StreetEntry(carNet: Network, geo: Geometry, c: Coord): (r: Result<Entry, Error>)
    ensures r.Failure? <==> geo.nearest(carNet, c) !in carNet
    ensures r.Success? ==>
      var nearest := carNet[geo.nearest(carNet, c)];
      && r.value.0 == nearest.id
      && (r.value.1.Some? <==> OppositeLink(carNet, geo, nearest).Some?)
      && (r.value.1.Some? ==> r.value.1.value == OppositeLink(carNet, geo, nearest).value.id)
  {
    var nearest :- NearestLink(carNet, geo, c);
    match OppositeLink(carNet, geo, nearest)
    case None => Success((nearest.id, None))
    case Some(o) => Success((nearest.id, Some(o.id)))
  }

  /** Each station's street with its entry, in record order. */
  function StreetPairs(stations: seq<Station>, carNet: Network, geo: Geometry): (r: Result<seq<(string, Entry)>, Error>)
    ensures r.Failure? <==> exists i :: 0 <= i < |stations| && geo.nearest(carNet, stations[i].coord) !in carNet
    ensures r.Success? ==> |r.value| == |stations| && forall i :: 0 <= i < |stations| ==>
      r.value[i].0 == stations[i].street && Success(r.value[i].1) == StreetEntry(carNet, geo, stations[i].coord)
    decreases |stations|
  {
    if |stations| == 0 then Success([])
    else
      assert forall i :: 1 <= i < |stations| ==> stations[i] == stations[1..][i - 1];
      var e :- StreetEntry(carNet, geo, stations[0].coord);
      var rest :- StreetPairs(stations[1..], carNet, geo);
      Success([(stations[0].street, e)] + rest)
  }

  /** `streetName2linkIds`. */
  function StreetTable(stations: seq<Station>, carNet: Network, geo: Geometry): (r: Result<map<string, Entry>, Error>)
    ensures r.Failure? <==> exists i :: 0 <= i < |stations| && geo.nearest(carNet, stations[i].coord) !in carNet
    ensures r.Success? ==> forall name :: name in r.value <==> exists i :: 0 <= i < |stations| && stations[i].street == name
  {
    var pairs :- StreetPairs(stations, carNet, geo);
    assert forall name :: name in KeysOf(pairs) <==> exists i :: 0 <= i < |stations| && stations[i].street == name by {
      forall name | name in KeysOf(pairs) ensures exists i :: 0 <= i < |stations| && stations[i].street == name {
        var i :| 0 <= i < |pairs| && pairs[i].0 == name;
      }
      forall name | exists i :: 0 <= i < |stations| && stations[i].street == name ensures name in KeysOf(pairs) {
        var i :| 0 <= i < |stations| && stations[i].street == name;
        assert pairs[i].0 == name;
      }
    }
    Success(PutAll(map[], pairs))
  }

  /** A street's entry is the one of the last station on that street. */
  lemma StreetTableLastWins(stations: seq<Station>, carNet: Network, geo: Geometry, i: int)
    requires StreetTable(stations, carNet, geo).Success?
    requires 0 <= i < |stations|
    requires forall j :: i < j < |stations| ==> stations[j].street != stations[i].street
    ensures var t := StreetTable(stations, carNet, geo).value;
      stations[i].street in t && Success(t[stations[i].street]) == StreetEntry(carNet, geo, stations[i].coord)
  {
    var pairs := StreetPairs(stations, carNet, geo).value;
    assert IsLastWith(pairs, stations[i].street, i);
    PutAllLastWins(map[], pairs, stations[i].street, i);
  }
}
