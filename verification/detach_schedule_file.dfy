/** DetachScheduleFile: re-anchors the stop facilities of the original
    schedule onto links of the (car-filtered) original network, using the
    bus lines known to stop at links of the prepared network as a guide.
    Geometry is the `Geometry` oracle; the networks are values. */
module DetachScheduleFile {
  import opened Wrappers
  import opened Strings
  import opened Transit
  import opened Tables
  import opened Selection

  const BusMode: string := "bus"

  /** The radius, in metres, of every link search. */
  const Radius: real := 100.0

  /** Separates the line name from the rest of an original line id. */
  const LineIdSeparator: string := "---"

  /** Separates the prefix of a prepared line id from the line name. */
  const LineNameSeparator: string := ":"

  // ---------------------------------------------------------------------
  // Lines that use a facility
  // ---------------------------------------------------------------------

  /** The mode of the line's first route is `bus` (the line has routes). */
  predicate IsBusLine(line: TransitLine)
  {
    |line.routes| > 0 && line.routes[0].mode == BusMode
  }

  /** The name a using line contributes: its id up to the first `---`. */
  function LinePrefix(line: TransitLine): Option<string>
  {
    SplitFirst(line.id, LineIdSeparator)
  }

  /** The loop over the lines throws at this line: it has no routes, or it
      is a bus line stopping at the facility whose id splits into nothing. */
  predicate BreaksUsingLines(line: TransitLine, fid: Id)
  {
    |line.routes| == 0 || (IsBusLine(line) && StopsAt(line, fid) && LinePrefix(line).None?)
  }

  /** `getUsingLines`: the names of the bus lines stopping at the facility. */
  function UsingLines(lines: seq<TransitLine>, fid: Id): (r: Result<set<string>, Error>)
    ensures r.Failure? <==> exists i :: 0 <= i < |lines| && BreaksUsingLines(lines[i], fid)
    ensures r.Success? ==>
      (r.value == set i | 0 <= i < |lines| && IsBusLine(lines[i]) && StopsAt(lines[i], fid) && LinePrefix(lines[i]).Some?
                    :: LinePrefix(lines[i]).value)
    decreases |lines|
  {
    if |lines| == 0 then Success({})
    else
      var line := lines[0];
      var rest := UsingLines(lines[1..], fid);
      assert forall i :: 1 <= i < |lines| ==> lines[i] == lines[1..][i - 1];
      if |line.routes| == 0 then Failure(LineWithoutRoutes(line.id))
      else if !IsBusLine(line) || !StopsAt(line, fid) then
        rest
      else
        match LinePrefix(line)
        case None => Failure(EmptySplit(line.id))
        case Some(p) =>
          var names :- rest;
          Success({p} + names)
  }

  /** A name in the set is the text of a line id before its first `---`,
      for a bus line stopping at the facility. */
  lemma UsingLineNamesArePrefixes(lines: seq<TransitLine>, fid: Id, name: string)
    requires UsingLines(lines, fid).Success? && name in UsingLines(lines, fid).value
    ensures exists i ::
      && 0 <= i < |lines| && IsBusLine(lines[i]) && StopsAt(lines[i], fid)
      && |name| <= |lines[i].id| && lines[i].id[..|name|] == name
      && (forall j :: 0 <= j < |name| ==> !OccursAt(lines[i].id, LineIdSeparator, j))
      && (|name| == |lines[i].id| || OccursAt(lines[i].id, LineIdSeparator, |name|))
  {
    var i :| 0 <= i < |lines| && IsBusLine(lines[i]) && StopsAt(lines[i], fid) && LinePrefix(lines[i]).Some?
      && LinePrefix(lines[i]).value == name;
    SplitFirstIsTextBeforeFirstSeparator(lines[i].id, LineIdSeparator);
  }

  // ---------------------------------------------------------------------
  // Transferring a link of the prepared network
  // ---------------------------------------------------------------------

  /** `transferLink`: the target link a prepared link corresponds to. The
      nearest link to its centre is taken when it points the same way;
      otherwise the best-aligned link in the radius around the centre (or,
      failing any, around the nearest link's centre), seeded with the first. */
  function TransferLink(target: Network, link: Link, geo: Geometry): (r: Result<Link, Error>)
    ensures r.Failure? <==>
      || geo.nearest(target, LinkCoord(link)) !in target
      || (&& geo.similarity(link, target[geo.nearest(target, LinkCoord(link))]) <= 0.0
          && |geo.inRadius(target.Values, LinkCoord(link), Radius)| == 0
          && |geo.inRadius(target.Values, LinkCoord(target[geo.nearest(target, LinkCoord(link))]), Radius)| == 0)
    ensures r.Success? ==>
      var found := target[geo.nearest(target, LinkCoord(link))];
      && (geo.similarity(link, found) > 0.0 ==> r.value == found)
      && (geo.similarity(link, found) <= 0.0 ==>
            var cands := FallbackCandidates(target, link, found, geo);
            exists k :: IsSeededArgMax(cands, AnyLink, (l: Link) => geo.similarity(link, l), k) && r.value == cands[k])
  {
    var found :- NearestLink(target, geo, LinkCoord(link));
    if geo.similarity(link, found) > 0.0 then Success(found)
    else
      var cands := FallbackCandidates(target, link, found, geo);
      if |cands| == 0 then Failure(NoCandidates)
      else
        var k := SeededArgMax(cands, AnyLink, (l: Link) => geo.similarity(link, l));
        Success(cands[k])
  }

  /** The deeper search of `transferLink`. */
  function FallbackCandidates(target: Network, link: Link, found: Link, geo: Geometry): seq<Link>
  {
    var near := geo.inRadius(target.Values, LinkCoord(link), Radius);
    if |near| > 0 then near else geo.inRadius(target.Values, LinkCoord(found), Radius)
  }

  /** In `transferLink` every candidate competes. */
  predicate AnyLink(l: Link)
  {
    true
  }

  // ---------------------------------------------------------------------
  // The link -> line names table
  // ---------------------------------------------------------------------

  /** A facility's link in the prepared network allows `bus`. */
  predicate IsBusStationLink(prepNet: Network, id: Id)
  {
    id in prepNet && BusMode in prepNet[id].modes
  }

  /** The first loop: the link ids of the prepared facilities whose link
      allows `bus`, in order; a link missing from the network throws. */
  function BusStationLinkIds(fs: seq<Facility>, prepNet: Network): (r: Result<seq<Id>, Error>)
    ensures r.Failure? <==> exists i :: 0 <= i < |fs| && fs[i].linkId !in prepNet
    ensures r.Success? ==> forall id :: id in r.value <==>
      (IsBusStationLink(prepNet, id) && exists i :: 0 <= i < |fs| && fs[i].linkId == id)
    decreases |fs|
  {
    if |fs| == 0 then Success([])
    else
      assert forall i :: 1 <= i < |fs| ==> fs[i] == fs[1..][i - 1];
      var id := fs[0].linkId;
      if id !in prepNet then Failure(UnknownLink(id))
      else
        var rest :- BusStationLinkIds(fs[1..], prepNet);
        if BusMode in prepNet[id].modes then Success([id] + rest) else Success(rest)
  }

  /** The second loop: each bus station link with its transferred link. */
  function TransferAll(ids: seq<Id>, prepNet: Network, target: Network, geo: Geometry): (r: Result<seq<(Id, Link)>, Error>)
    requires forall id :: id in ids ==> id in prepNet
    ensures r.Failure? <==> exists i :: 0 <= i < |ids| && TransferLink(target, prepNet[ids[i]], geo).Failure?
    ensures r.Success? ==> |r.value| == |ids| && forall i :: 0 <= i < |ids| ==>
      r.value[i].0 == ids[i] && Success(r.value[i].1) == TransferLink(target, prepNet[ids[i]], geo)
    decreases |ids|
  {
    if |ids| == 0 then Success([])
    else
      assert forall i :: 1 <= i < |ids| ==> ids[i] == ids[1..][i - 1];
      var l :- TransferLink(target, prepNet[ids[0]], geo);
      var rest :- TransferAll(ids[1..], prepNet, target, geo);
      Success([(ids[0], l)] + rest)
  }

  /** The line a prepared line id names: the text after its last `:`. */
  function LineName(line: TransitLine): Option<string>
  {
    SplitLast(line.id, LineNameSeparator)
  }

  /** Every stop refers to a facility of the list. */
  predicate AllStopsResolve(lines: seq<TransitLine>, fs: seq<Facility>)
  {
    forall i, fid :: 0 <= i < |lines| && fid in StopFacilities(lines[i].routes) ==> HasFacility(fs, fid)
  }

  /** The link of the stop's facility, in the prepared network. */
  function StopLink(fs: seq<Facility>, fid: Id): Id
    requires HasFacility(fs, fid)
  {
    FacilityOf(fs, fid).value.linkId
  }

  /** The transferred link of each stop, in order; a stop whose link was
      not transferred makes the lookup answer `null`, which is dereferenced. */
  function StopTargets(fids: seq<Id>, fs: seq<Facility>, p2o: map<Id, Link>): (r: Result<seq<Link>, Error>)
    requires forall fid :: fid in fids ==> HasFacility(fs, fid)
    ensures r.Failure? <==> exists k :: 0 <= k < |fids| && StopLink(fs, fids[k]) !in p2o
    ensures r.Success? ==> forall l :: l in r.value <==> exists k :: 0 <= k < |fids| && StopLink(fs, fids[k]) in p2o && p2o[StopLink(fs, fids[k])] == l
    decreases |fids|
  {
    if |fids| == 0 then Success([])
    else
      assert forall k :: 1 <= k < |fids| ==> fids[k] == fids[1..][k - 1];
      var id := StopLink(fs, fids[0]);
      if id !in p2o then Failure(StopLinkNotTransferred(fids[0]))
      else
        var rest :- StopTargets(fids[1..], fs, p2o);
        Success([p2o[id]] + rest)
  }

  /** Line `line` adds `name` to the set of link `l`. */
  predicate Contributes(line: TransitLine, fs: seq<Facility>, p2o: map<Id, Link>, l: Link, name: string)
    requires forall fid :: fid in StopFacilities(line.routes) ==> HasFacility(fs, fid)
  {
    && IsBusLine(line) && LineName(line) == Some(name)
    && exists fid :: fid in StopFacilities(line.routes) && StopLink(fs, fid) in p2o && p2o[StopLink(fs, fid)] == l
  }

  /** The loop over the lines throws at this line: a bus line whose id
      splits into nothing, or one of whose stops has no transferred link. */
  predicate BreaksNaming(line: TransitLine, fs: seq<Facility>, p2o: map<Id, Link>)
    requires forall fid :: fid in StopFacilities(line.routes) ==> HasFacility(fs, fid)
  {
    && IsBusLine(line)
    && (|| LineName(line).None?
        || exists fid :: fid in StopFacilities(line.routes) && StopLink(fs, fid) !in p2o)
  }

  /** The third loop: the (link, line name) additions, in order. Lines
      without routes and non-bus lines are skipped. */
  function NamePairs(lines: seq<TransitLine>, fs: seq<Facility>, p2o: map<Id, Link>): (r: Result<seq<(Link, string)>, Error>)
    requires AllStopsResolve(lines, fs)
    ensures r.Failure? <==> exists i :: 0 <= i < |lines| && BreaksNaming(lines[i], fs, p2o)
    ensures r.Success? ==> forall l, name :: (l, name) in r.value <==>
      exists i :: 0 <= i < |lines| && Contributes(lines[i], fs, p2o, l, name)
    decreases |lines|
  {
    if |lines| == 0 then Success([])
    else
      var line := lines[0];
      assert forall i :: 1 <= i < |lines| ==> lines[i] == lines[1..][i - 1];
      assert AllStopsResolve(lines[1..], fs) by {
        forall i, fid | 0 <= i < |lines[1..]| && fid in StopFacilities(lines[1..][i].routes)
          ensures HasFacility(fs, fid)
        {
          assert lines[1..][i] == lines[i + 1];
        }
      }
      assert forall fid :: fid in StopFacilities(line.routes) ==> HasFacility(fs, fid) by {
        assert lines[0] == line;
      }
      if !IsBusLine(line) then NamePairs(lines[1..], fs, p2o)
      else
        match LineName(line)
        case None => Failure(EmptySplit(line.id))
        case Some(name) =>
          var fids := StopFacilities(line.routes);
          var targets :- StopTargets(fids, fs, p2o);
          var rest :- NamePairs(lines[1..], fs, p2o);
          var mine := seq(|targets|, k requires 0 <= k < |targets| => (targets[k], name));
          assert forall l, n :: (l, n) in mine <==> n == name && l in targets by {
            forall l, n | (l, n) in mine ensures n == name && l in targets {
              var k :| 0 <= k < |mine| && mine[k] == (l, n);
            }
            forall l | l in targets ensures (l, name) in mine {
              var k :| 0 <= k < |targets| && targets[k] == l;
              assert mine[k] == (l, name);
            }
          }
          Success(mine + rest)
  }

  /** Some facility of the list sits on the link. */
  predicate StopsOnLink(fs: seq<Facility>, id: Id)
  {
    exists i :: 0 <= i < |fs| && fs[i].linkId == id
  }

  /** Line `line` adds `name` to the set of `l`: it is a bus line named
      `name`, with a stop on a bus station link that transfers to `l`. */
  predicate NamesLink(line: TransitLine, fs: seq<Facility>, prepNet: Network, target: Network, geo: Geometry, l: Link, name: string)
    requires forall fid :: fid in StopFacilities(line.routes) ==> HasFacility(fs, fid)
  {
    && IsBusLine(line) && LineName(line) == Some(name)
    && exists fid :: fid in StopFacilities(line.routes) && IsBusStationLink(prepNet, StopLink(fs, fid))
         && TransferLink(target, prepNet[StopLink(fs, fid)], geo) == Success(l)
  }

  /** The naming loop throws at this bus line: its id splits into nothing,
      or one of its stops sits on a link that is not a bus station link. */
  predicate BreaksTable(line: TransitLine, fs: seq<Facility>, prepNet: Network)
    requires forall fid :: fid in StopFacilities(line.routes) ==> HasFacility(fs, fid)
  {
    && IsBusLine(line)
    && (|| LineName(line).None?
        || exists fid :: fid in StopFacilities(line.routes) && !IsBusStationLink(prepNet, StopLink(fs, fid)))
  }

  /** `computeTransferedFacilityMap` over the prepared schedule and
      network, transferring onto `target` (the filtered original network). */
  function TransferedFacilityMap(prep: Schedule, prepNet: Network, target: Network, geo: Geometry): (r: Result<map<Link, set<string>>, Error>)
    requires AllStopsResolve(prep.lines, prep.facilities)
    ensures r.Failure? <==>
      || (exists i :: 0 <= i < |prep.facilities| && prep.facilities[i].linkId !in prepNet)
      || (exists id :: IsBusStationLink(prepNet, id) && StopsOnLink(prep.facilities, id)
                       && TransferLink(target, prepNet[id], geo).Failure?)
      || (exists i :: 0 <= i < |prep.lines| && BreaksTable(prep.lines[i], prep.facilities, prepNet))
    ensures r.Success? ==>
      forall l :: l in r.value <==>
        exists id :: IsBusStationLink(prepNet, id) && StopsOnLink(prep.facilities, id) &&
          TransferLink(target, prepNet[id], geo) == Success(l)
    ensures r.Success? ==>
      forall l, name :: l in r.value ==>
        (name in r.value[l] <==>
           exists i :: 0 <= i < |prep.lines| && NamesLink(prep.lines[i], prep.facilities, prepNet, target, geo, l, name))
  {
    var fs, lines := prep.facilities, prep.lines;
    match BusStationLinkIds(fs, prepNet)
    case Failure(e) => Failure(e)
    case Success(ids) =>
      match TransferAll(ids, prepNet, target, geo)
      case Failure(e) =>
        TransferFailures(fs, prepNet, target, geo, ids);
        Failure(e)
      case Success(pairs) =>
        var p2o := PutAll(map[], pairs);
        var table := map l | l in p2o.Values :: {};
        P2OKeys(fs, prepNet, target, geo, ids, pairs);
        P2OValues(prepNet, target, geo, ids, pairs);
        TransferFailures(fs, prepNet, target, geo, ids);
        NamingFacts(lines, fs, prepNet, target, geo, p2o);
        match NamePairs(lines, fs, p2o)
        case Failure(e) => Failure(e)
        case Success(names) =>
          NamesBridge(lines, fs, prepNet, target, geo, p2o, names);
          TableFacts(p2o, names);
          Success(AddAll(table, names))
  }

  lemma TransferFailures(fs: seq<Facility>, prepNet: Network, target: Network, geo: Geometry, ids: seq<Id>)
    requires BusStationLinkIds(fs, prepNet) == Success(ids)
    ensures forall id :: id in ids ==> id in prepNet
    ensures TransferAll(ids, prepNet, target, geo).Failure? <==>
      exists id :: IsBusStationLink(prepNet, id) && StopsOnLink(fs, id) && TransferLink(target, prepNet[id], geo).Failure?
  {
    if TransferAll(ids, prepNet, target, geo).Failure? {
      var i :| 0 <= i < |ids| && TransferLink(target, prepNet[ids[i]], geo).Failure?;
      assert ids[i] in ids;
    }
    if exists id :: IsBusStationLink(prepNet, id) && StopsOnLink(fs, id) && TransferLink(target, prepNet[id], geo).Failure? {
      var id :| IsBusStationLink(prepNet, id) && StopsOnLink(fs, id) && TransferLink(target, prepNet[id], geo).Failure?;
      var i :| 0 <= i < |ids| && ids[i] == id;
    }
  }

  /** The prepared-to-target map is keyed by the bus station links. */
  lemma P2OKeys(fs: seq<Facility>, prepNet: Network, target: Network, geo: Geometry, ids: seq<Id>, pairs: seq<(Id, Link)>)
    requires BusStationLinkIds(fs, prepNet) == Success(ids)
    requires forall id :: id in ids ==> id in prepNet
    requires TransferAll(ids, prepNet, target, geo) == Success(pairs)
    ensures forall id :: id in PutAll(map[], pairs) <==> IsBusStationLink(prepNet, id) && StopsOnLink(fs, id)
  {
    forall id | id in KeysOf(pairs) ensures id in ids {
      var k :| 0 <= k < |pairs| && pairs[k].0 == id;
    }
    forall id | id in ids ensures id in KeysOf(pairs) {
      var k :| 0 <= k < |ids| && ids[k] == id;
      assert pairs[k].0 == id;
    }
  }

  /** ... and sends each to its transferred link. */
  lemma P2OValues(prepNet: Network, target: Network, geo: Geometry, ids: seq<Id>, pairs: seq<(Id, Link)>)
    requires forall id :: id in ids ==> id in prepNet
    requires TransferAll(ids, prepNet, target, geo) == Success(pairs)
    ensures forall id :: id in PutAll(map[], pairs) ==>
      id in prepNet && TransferLink(target, prepNet[id], geo) == Success(PutAll(map[], pairs)[id])
  {
    var p2o := PutAll(map[], pairs);
    forall id | id in p2o
      ensures id in prepNet && TransferLink(target, prepNet[id], geo) == Success(p2o[id])
    {
      var i :| 0 <= i < |pairs| && pairs[i].0 == id;
      PutAllUniform(map[], pairs, id, pairs[i].1);
    }
  }

  /** The naming loop, read with the prepared-to-target map unfolded. */
  lemma NamingFacts(lines: seq<TransitLine>, fs: seq<Facility>, prepNet: Network, target: Network, geo: Geometry, p2o: map<Id, Link>)
    requires AllStopsResolve(lines, fs)
    requires forall id :: id in p2o <==> IsBusStationLink(prepNet, id) && StopsOnLink(fs, id)
    requires forall id :: id in p2o ==> id in prepNet && TransferLink(target, prepNet[id], geo) == Success(p2o[id])
    ensures forall i :: 0 <= i < |lines| ==> (BreaksNaming(lines[i], fs, p2o) <==> BreaksTable(lines[i], fs, prepNet))
    ensures forall i, l, name :: 0 <= i < |lines| ==>
      (Contributes(lines[i], fs, p2o, l, name) <==> NamesLink(lines[i], fs, prepNet, target, geo, l, name))
  {
    forall fid | HasFacility(fs, fid)
      ensures StopsOnLink(fs, StopLink(fs, fid))
    {
      var f := FacilityOf(fs, fid).value;
      var i :| 0 <= i < |fs| && fs[i] == f;
    }
  }

  /** The table's keys are the transferred links and each set collects
      the names paired with its key. */
  lemma TableFacts(p2o: map<Id, Link>, names: seq<(Link, string)>)
    requires forall k :: 0 <= k < |names| ==> names[k].0 in p2o.Values
    ensures var r := AddAll(map l | l in p2o.Values :: {}, names);
      && r.Keys == p2o.Values
      && forall l, name :: l in r ==> (name in r[l] <==> (l, name) in names)
  {
    var table := map l | l in p2o.Values :: {};
    forall l | l in KeysOf(names) ensures l in table {
      var k :| 0 <= k < |names| && names[k].0 == l;
    }
    forall l, name | l in AddAll(table, names)
      ensures name in AddAll(table, names)[l] <==> (l, name) in names
    {
      NamesOfLink(names, l, name);
    }
  }

  /** The naming pairs, read with the prepared-to-target map unfolded. */
  lemma NamesBridge(lines: seq<TransitLine>, fs: seq<Facility>, prepNet: Network, target: Network, geo: Geometry,
                    p2o: map<Id, Link>, names: seq<(Link, string)>)
    requires AllStopsResolve(lines, fs)
    requires NamePairs(lines, fs, p2o) == Success(names)
    requires forall i, l, name :: 0 <= i < |lines| ==>
      (Contributes(lines[i], fs, p2o, l, name) <==> NamesLink(lines[i], fs, prepNet, target, geo, l, name))
    ensures forall k :: 0 <= k < |names| ==> names[k].0 in p2o.Values
    ensures forall l, name :: (l, name) in names <==>
      exists i :: 0 <= i < |lines| && NamesLink(lines[i], fs, prepNet, target, geo, l, name)
  {
    forall k | 0 <= k < |names| ensures names[k].0 in p2o.Values {
      assert names[k] in names;
      var i :| 0 <= i < |lines| && Contributes(lines[i], fs, p2o, names[k].0, names[k].1);
    }
  }

  lemma NamesOfLink(names: seq<(Link, string)>, l: Link, name: string)
    ensures name in ValuesOf(names, l) <==> (l, name) in names
  {
    if name in ValuesOf(names, l) {
      var k :| 0 <= k < |names| && names[k].0 == l && names[k].1 == name;
      assert names[k] == (l, name);
    }
    if (l, name) in names {
      var k :| 0 <= k < |names| && names[k] == (l, name);
    }
  }

  // ---------------------------------------------------------------------
  // Re-anchoring the facilities
  // ---------------------------------------------------------------------

  /** The candidate links for a facility at `c`: the table's links in the
      radius, or else just the nearest link of the filtered network (a
      `null` one is dereferenced only after the loop). */
  function Candidates(table: map<Link, set<string>>, filtered: Network, geo: Geometry, c: Coord): (r: Result<seq<Link>, Error>)
    ensures r.Success? ==> |r.value| > 0
    ensures |geo.inRadius(table.Keys, c, Radius)| > 0 ==> r == Success(geo.inRadius(table.Keys, c, Radius))
    ensures |geo.inRadius(table.Keys, c, Radius)| == 0 ==>
      && (r.Success? <==> geo.nearest(filtered, c) in filtered)
      && (r.Success? ==> r.value == [filtered[geo.nearest(filtered, c)]])
  {
    var near := geo.inRadius(table.Keys, c, Radius);
    if |near| > 0 then Success(near)
    else
      var l :- NearestLink(filtered, geo, c);
      Success([l])
  }

  /** A candidate may be chosen only if it is a station link of a line
      that also uses the facility. */
  predicate SharesLine(table: map<Link, set<string>>, using: set<string>, l: Link)
  {
    l in table && table[l] * using != {}
  }

  /** The loop body of `call()` for one facility: facilities no bus line
      uses are left alone; the others move to the candidate picked by the
      seeded strict-`>` rule over the similarity to their current link. */
  function DetachFacility(f: Facility, lines: seq<TransitLine>, table: map<Link, set<string>>,
                          origNet: Network, filtered: Network, geo: Geometry): (r: Result<Facility, Error>)
    ensures r.Failure? <==>
      || UsingLines(lines, f.id).Failure?
      || (&& UsingLines(lines, f.id).Success? && UsingLines(lines, f.id).value != {}
          && (|| f.linkId !in origNet
              || (|geo.inRadius(table.Keys, f.coord, Radius)| == 0 && geo.nearest(filtered, f.coord) !in filtered)))
    ensures r.Success? ==> r.value.(linkId := f.linkId) == f
    ensures UsingLines(lines, f.id) == Success({}) ==> r == Success(f)
    ensures r.Success? && UsingLines(lines, f.id).value != {} ==>
      var using := UsingLines(lines, f.id).value;
      var cands := Candidates(table, filtered, geo, f.coord).value;
      exists k :: && IsSeededArgMax(cands, (l: Link) => SharesLine(table, using, l),
                                    (l: Link) => geo.similarity(origNet[f.linkId], l), k)
                  && r.value.linkId == cands[k].id
  {
    var using :- UsingLines(lines, f.id);
    if using == {} then Success(f)
    else if f.linkId !in origNet then Failure(UnknownLink(f.linkId))
    else
      var pt := origNet[f.linkId];
      var cands :- Candidates(table, filtered, geo, f.coord);
      var k := SeededArgMax(cands, (l: Link) => SharesLine(table, using, l), (l: Link) => geo.similarity(pt, l));
      Success(f.(linkId := cands[k].id))
  }

  /** The loop over all facilities of the original schedule. */
  function DetachAll(fs: seq<Facility>, lines: seq<TransitLine>, table: map<Link, set<string>>,
                     origNet: Network, filtered: Network, geo: Geometry): (r: Result<seq<Facility>, Error>)
    ensures r.Failure? <==> exists i :: 0 <= i < |fs| && DetachFacility(fs[i], lines, table, origNet, filtered, geo).Failure?
    ensures r.Success? ==> (|r.value| == |fs| &&
      forall i :: 0 <= i < |fs| ==> Success(r.value[i]) == DetachFacility(fs[i], lines, table, origNet, filtered, geo))
    decreases |fs|
  {
    if |fs| == 0 then Success([])
    else
      assert forall i :: 1 <= i < |fs| ==> fs[i] == fs[1..][i - 1];
      var f :- DetachFacility(fs[0], lines, table, origNet, filtered, geo);
      var rest :- DetachAll(fs[1..], lines, table, origNet, filtered, geo);
      Success([f] + rest)
  }

  /** `DetachScheduleFile.call()` from the parsed inputs to the schedule
      it writes. `origNet` is the original network as the motorway filter
      left it, `filtered` its car sub-network. */
  function Run(original: Schedule, origNet: Network, filtered: Network,
               prep: Schedule, prepNet: Network, geo: Geometry): (r: Result<Schedule, Error>)
    requires AllStopsResolve(prep.lines, prep.facilities)
    ensures var t := TransferedFacilityMap(prep, prepNet, filtered, geo);
      r.Failure? <==>
        || t.Failure?
        || exists i :: 0 <= i < |original.facilities| &&
             DetachFacility(original.facilities[i], original.lines, t.value, origNet, filtered, geo).Failure?
    ensures r.Success? ==>
      var table := TransferedFacilityMap(prep, prepNet, filtered, geo).value;
      && |r.value.facilities| == |original.facilities|
      && forall i :: 0 <= i < |original.facilities| ==>
           Success(r.value.facilities[i]) == DetachFacility(original.facilities[i], original.lines, table, origNet, filtered, geo)
    ensures r.Success? ==>
      && r.value.lines == original.lines
      && |r.value.facilities| == |original.facilities|
      && forall i :: 0 <= i < |original.facilities| ==>
           && r.value.facilities[i].(linkId := original.facilities[i].linkId) == original.facilities[i]
           && (UsingLines(original.lines, original.facilities[i].id) == Success({}) ==>
                 r.value.facilities[i] == original.facilities[i])
  {
    var table :- TransferedFacilityMap(prep, prepNet, filtered, geo);
    var fs :- DetachAll(original.facilities, original.lines, table, origNet, filtered, geo);
    Success(original.(facilities := fs))
  }
}
