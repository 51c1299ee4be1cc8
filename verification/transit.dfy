/** The MATSim entities the commands manipulate, as immutable values, and the
    geometric and network queries they delegate to MATSim, JTS and floating
    point arithmetic, as uninterpreted functions. */
module Transit {
  import opened Wrappers

  type Id = string

  datatype Coord = Coord(x: real, y: real)

  datatype Node = Node(id: Id, coord: Coord)

  /** A directed network link. `capacity` and `lanes` are doubles in MATSim. */
  datatype Link = Link(
    id: Id,
    from: Node,
    to: Node,
    length: real,
    freespeed: real,
    capacity: real,
    lanes: real,
    modes: set<string>)

  /** A network's links, keyed by link id. */
  type Network = map<Id, Link>

  /** The network map is keyed by the links' own ids. */
  predicate WellKeyed(net: Network)
  {
    forall k :: k in net ==> net[k].id == k
  }

  /** `l` is the link the network holds under its id. */
  predicate InNetwork(net: Network, l: Link)
  {
    l.id in net && net[l.id] == l
  }

  /** `CoordUtils.getCenter`. */
  function Center(a: Coord, b: Coord): Coord
  {
    Coord((a.x + b.x) / 2.0, (a.y + b.y) / 2.0)
  }

  /** `Link.getCoord()`: the centre of the link. */
  function LinkCoord(l: Link): Coord
  {
    Center(l.from.coord, l.to.coord)
  }

  datatype Facility = Facility(id: Id, coord: Coord, linkId: Id, isBlockingLane: bool)

  /** A network route: start link, the inner links `getLinkIds()` returns,
      and end link. */
  datatype NetworkRoute = NetworkRoute(start: Id, inner: seq<Id>, end: Id)

  datatype Departure = Departure(id: Id, vehicle: Id)

  /** A transit route; each stop is the id of the facility it refers to. */
  datatype TransitRoute = TransitRoute(
    id: Id,
    mode: string,
    route: NetworkRoute,
    stops: seq<Id>,
    departures: seq<Departure>)

  datatype TransitLine = TransitLine(id: Id, name: string, routes: seq<TransitRoute>)

  /** A transit schedule; both sequences are in the schedule's iteration order. */
  datatype Schedule = Schedule(facilities: seq<Facility>, lines: seq<TransitLine>)

  /** Some facility of the list has this id. */
  predicate HasFacility(fs: seq<Facility>, id: Id)
  {
    exists i :: 0 <= i < |fs| && fs[i].id == id
  }

  /** Every stop refers to a facility of the schedule (in MATSim a stop holds
      the facility object itself). */
  predicate StopsResolve(s: Schedule)
  {
    forall l, r, k ::
      0 <= l < |s.lines| && 0 <= r < |s.lines[l].routes| && 0 <= k < |s.lines[l].routes[r].stops|
      ==> HasFacility(s.facilities, s.lines[l].routes[r].stops[k])
  }

  /** Some stop of some route of the line refers to the facility. */
  predicate StopsAt(line: TransitLine, fid: Id)
  {
    exists j, k :: 0 <= j < |line.routes| && 0 <= k < |line.routes[j].stops| && line.routes[j].stops[k] == fid
  }

  /** The facilities of all stops of the routes, in order. */
  function StopFacilities(routes: seq<TransitRoute>): (r: seq<Id>)
    ensures forall fid :: fid in r <==> exists j, k :: 0 <= j < |routes| && 0 <= k < |routes[j].stops| && routes[j].stops[k] == fid
    decreases |routes|
  {
    if |routes| == 0 then []
    else
      assert forall j :: 1 <= j < |routes| ==> routes[j] == routes[1..][j - 1];
      assert forall fid :: fid in routes[0].stops <==> exists k :: 0 <= k < |routes[0].stops| && routes[0].stops[k] == fid;
      routes[0].stops + StopFacilities(routes[1..])
  }

  /** The facility with the given id (the first, should there be several). */
  function FacilityOf(fs: seq<Facility>, id: Id): (r: Option<Facility>)
    ensures r.Some? <==> HasFacility(fs, id)
    ensures r.Some? ==> r.value.id == id && r.value in fs
  {
    if |fs| == 0 then None
    else if fs[0].id == id then Some(fs[0])
    else
      var r := FacilityOf(fs[1..], id);
      assert HasFacility(fs, id) ==> HasFacility(fs[1..], id) by {
        if HasFacility(fs, id) {
          var i :| 0 <= i < |fs| && fs[i].id == id;
          assert fs[1..][i - 1].id == id;
        }
      }
      r
  }

  /** Why the Java code would throw. */
  datatype Error =
    | NoNearestLink                 // getNearestLinkExactly returned null and it was dereferenced
    | LinkIdCollision(linkId: Id)   // Network.addLink refuses an id that is already taken
    | RouteWithoutStops(routeId: Id)   // getStops().get(0) on an empty stop list
    | LineWithoutRoutes(lineId: Id)    // stream().toList().get(0) on a line without routes
    | EmptySplit(text: string)         // split(..)[k] on an empty array
    | UnknownLink(linkId: Id)          // getLinks().get(id) returned null and it was dereferenced
    | NoCandidates                     // linksInRadius.get(0) on an empty list
    | StopLinkNotTransferred(facilityId: Id)  // a stop's link has no transferred counterpart (null)

  /** The queries the commands delegate to MATSim and JTS, whose answers rest
      on floating point geometry.
      - `nearest(net, c)`: id of `NetworkUtils.getNearestLinkExactly(net, c)`;
      - `opposite(net, l)`: id of `NetworkUtils.findLinkInOppositeDirection(l)`;
      - `inRadius(links, c, r)`: the links of the collection, in its iteration
        order, whose segment crosses the buffer of radius `r` around `c`;
      - `similarity(a, b)`: the normalised dot product of the direction vectors
        of `a` and `b` (a NaN from a zero-length link behaves like 0 in every
        comparison the code makes, so a real value models it);
      - `aligned(s, e, l)`: the angle check of a way segment from `s` to
        `e` against link `l` (at most 5 degrees, computed with `Math.acos`).
      An id that names no link of the network stands for Java's `null`. */
  datatype Geometry = Geometry(
    nearest: (Network, Coord) -> Id,
    opposite: (Network, Link) -> Option<Id>,
    inRadius: (set<Link>, Coord, real) -> seq<Link>,
    similarity: (Link, Link) -> real,
    aligned: (Coord, Coord, Link) -> bool)

  /** The link a query answered with; `None` for Java's `null`. */
  function Resolve(net: Network, id: Id): (r: Option<Link>)
    ensures r.Some? <==> id in net
    ensures r.Some? ==> r.value == net[id]
  {
    if id in net then Some(net[id]) else None
  }

  /** `getNearestLinkExactly`, dereferenced: a `null` answer throws. */
  function NearestLink(net: Network, geo: Geometry, c: Coord): (r: Result<Link, Error>)
    ensures r.Success? <==> geo.nearest(net, c) in net
    ensures r.Success? ==> r.value == net[geo.nearest(net, c)]
  {
    match Resolve(net, geo.nearest(net, c))
    case None => Failure(NoNearestLink)
    case Some(l) => Success(l)
  }

  /** `findLinkInOppositeDirection`, or `None` for `null`. */
  function OppositeLink(net: Network, geo: Geometry, l: Link): (r: Option<Link>)
    ensures r.Some? ==>
      (geo.opposite(net, l).Some? && geo.opposite(net, l).value in net &&
       r.value == net[geo.opposite(net, l).value])
    ensures r.None? ==> geo.opposite(net, l).None? || geo.opposite(net, l).value !in net
  {
    match geo.opposite(net, l)
    case None => None
    case Some(id) => Resolve(net, id)
  }
}
