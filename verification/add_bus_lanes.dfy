/** AddBusLanes: OSM ways tagged as bus lanes are matched onto the network,
    every matched car link gets a parallel `pt`-only link, and the transit
    schedule is moved onto those links (stop facilities first, then every
    route's link list). */
module AddBusLanes {
  import opened Wrappers
  import opened Strings
  import opened Transit
  import LinkDistance

  // ---------------------------------------------------------------------
  // Classifying ways
  // ---------------------------------------------------------------------

  /** An OSM way: its nodes in order and its tags in iteration order. */
  datatype Way = Way(id: Id, nodes: seq<Node>, tags: seq<(string, string)>)

  /** One tag marks a bus lane. */
  predicate TagMarksBusLane(key: string, value: string)
  {
    || Contains(key, "busway") || Contains(key, "bus:lanes") || Contains(key, "psv:lanes")
    || ((Contains(key, "lanes:psv") || Contains(key, "lanes:bus")) && value != "0")
    || (Contains(key, "cycleway") && value == "share_busway")
  }

  /** The loop over a way's tags, leaving at the first hit. */
  function ScanTags(tags: seq<(string, string)>): bool
  {
    if |tags| == 0 then false
    else if TagMarksBusLane(tags[0].0, tags[0].1) then true
    else ScanTags(tags[1..])
  }

  /** A way is a bus way iff one of its tags marks a bus lane. */
  lemma {:induction false} ScanTagsFindsAnyMarkingTag(tags: seq<(string, string)>)
    ensures ScanTags(tags) <==> exists i :: 0 <= i < |tags| && TagMarksBusLane(tags[i].0, tags[i].1)
  {
    if |tags| > 0 {
      ScanTagsFindsAnyMarkingTag(tags[1..]);
      if !TagMarksBusLane(tags[0].0, tags[0].1) {
        assert (exists i :: 0 <= i < |tags| && TagMarksBusLane(tags[i].0, tags[i].1)) ==>
               (exists i :: 0 <= i < |tags[1..]| && TagMarksBusLane(tags[1..][i].0, tags[1..][i].1)) by {
          if exists i :: 0 <= i < |tags| && TagMarksBusLane(tags[i].0, tags[i].1) {
            var i :| 0 <= i < |tags| && TagMarksBusLane(tags[i].0, tags[i].1);
            assert tags[1..][i - 1] == tags[i];
          }
        }
      }
    }
  }

  /** The verdict does not depend on the order in which the tags are visited. */
  lemma ScanTagsOrderIndependent(a: seq<(string, string)>, b: seq<(string, string)>)
    requires forall t :: t in a <==> t in b
    ensures ScanTags(a) == ScanTags(b)
  {
    ScanTagsFindsAnyMarkingTag(a);
    ScanTagsFindsAnyMarkingTag(b);
    if ScanTags(a) {
      var i :| 0 <= i < |a| && TagMarksBusLane(a[i].0, a[i].1);
      assert a[i] in b;
    }
    if ScanTags(b) {
      var i :| 0 <= i < |b| && TagMarksBusLane(b[i].0, b[i].1);
      assert b[i] in a;
    }
  }

  /** The bus ways among the OSM ways, in iteration order. */
  function BusWays(ways: seq<Way>): (r: seq<Way>)
    ensures forall w :: w in r <==> w in ways && ScanTags(w.tags)
    ensures |r| <= |ways|
  {
    if |ways| == 0 then []
    else (if ScanTags(ways[0].tags) then [ways[0]] else []) + BusWays(ways[1..])
  }

  // ---------------------------------------------------------------------
  // Matching a way onto network links
  // ---------------------------------------------------------------------

  predicate Distinct<T(==)>(s: seq<T>)
  {
    forall i, j :: 0 <= i < j < |s| ==> s[i] != s[j]
  }

  /** The candidate for the pair (a, b): the nearest link to their centre. */
  function CandidateId(net: Network, geo: Geometry, a: Node, b: Node): Id
  {
    geo.nearest(net, Center(a.coord, b.coord))
  }

  /** The pair (a, b) makes the sweep throw: its nearest link is `null`. */
  predicate Unresolved(net: Network, geo: Geometry, a: Node, b: Node)
  {
    a != b && CandidateId(net, geo, a, b) !in net
  }

  /** The candidate survives both checks for the segment from `s` to `e`:
      the distance check, with the denominator the code computes, lets both
      end points through, and the candidate is aligned. */
  predicate Passes(geo: Geometry, s: Coord, e: Coord, c: Link)
  {
    && !LinkDistance.TooFarAsWritten(s, c.from.coord, c.to.coord)
    && !LinkDistance.TooFarAsWritten(e, c.from.coord, c.to.coord)
    && geo.aligned(s, e, c)
  }

  /** `l` is added for the ordered pair (a, b): the pair's candidate passes
      both checks and `l` is that candidate or its opposite link. */
  predicate Matched(net: Network, geo: Geometry, a: Node, b: Node, l: Link)
  {
    && a != b
    && CandidateId(net, geo, a, b) in net
    && var c := net[CandidateId(net, geo, a, b)];
       && Passes(geo, a.coord, b.coord, c)
       && (l == c || OppositeLink(net, geo, c) == Some(l))
  }

  /** `mappedLinks.add(l)` on a set kept in insertion order. */
  function AddLink(acc: seq<Link>, l: Link): (r: seq<Link>)
    ensures forall x :: x in r <==> x in acc || x == l
    ensures Distinct(acc) ==> Distinct(r)
  {
    if l in acc then acc else acc + [l]
  }

  /** The body of the inner loop for the ordered pair (a, b). */
  function Visit(net: Network, geo: Geometry, a: Node, b: Node, acc: seq<Link>): (r: Result<seq<Link>, Error>)
    requires WellKeyed(net)
    ensures r.Failure? <==> Unresolved(net, geo, a, b)
    ensures a == b ==> r == Success(acc)
    ensures r.Success? ==> forall l :: l in r.value <==> l in acc || Matched(net, geo, a, b, l)
    ensures r.Success? && Distinct(acc) ==> Distinct(r.value)
    ensures r.Success? && (forall l :: l in acc ==> InNetwork(net, l)) ==>
      forall l :: l in r.value ==> InNetwork(net, l)
  {
    if a == b then Success(acc)
    else
      var c :- NearestLink(net, geo, Center(a.coord, b.coord));
      if !Passes(geo, a.coord, b.coord, c) then Success(acc)
      else
        var acc1 := AddLink(acc, c);
        match OppositeLink(net, geo, c)
        case Some(o) => Success(AddLink(acc1, o))
        case None => Success(acc1)
  }

  /** The inner loop: start node `a` against every node of `ends`. */
  function Row(net: Network, geo: Geometry, a: Node, ends: seq<Node>, acc: seq<Link>): (r: Result<seq<Link>, Error>)
    requires WellKeyed(net)
    ensures r.Failure? <==> exists j :: 0 <= j < |ends| && Unresolved(net, geo, a, ends[j])
    ensures (forall j :: 0 <= j < |ends| ==> ends[j] == a) ==> r == Success(acc)
    ensures r.Success? ==>
      forall l :: l in r.value <==> l in acc || exists j :: 0 <= j < |ends| && Matched(net, geo, a, ends[j], l)
    ensures r.Success? && Distinct(acc) ==> Distinct(r.value)
    ensures r.Success? && (forall l :: l in acc ==> InNetwork(net, l)) ==>
      forall l :: l in r.value ==> InNetwork(net, l)
    decreases |ends|
  {
    if |ends| == 0 then Success(acc)
    else
      var acc1 :- Visit(net, geo, a, ends[0], acc);
      var r := Row(net, geo, a, ends[1..], acc1);
      assert forall j :: 1 <= j < |ends| ==> ends[1..][j - 1] == ends[j];
      r
  }

  /** The outer loop: every start node of `starts` against every node. */
  function Sweep(net: Network, geo: Geometry, starts: seq<Node>, nodes: seq<Node>, acc: seq<Link>): (r: Result<seq<Link>, Error>)
    requires WellKeyed(net)
    ensures r.Failure? <==>
      exists i, j :: 0 <= i < |starts| && 0 <= j < |nodes| && Unresolved(net, geo, starts[i], nodes[j])
    ensures (forall i, j :: 0 <= i < |starts| && 0 <= j < |nodes| ==> starts[i] == nodes[j]) ==> r == Success(acc)
    ensures r.Success? ==>
      forall l :: l in r.value <==>
        l in acc || exists i, j :: 0 <= i < |starts| && 0 <= j < |nodes| && Matched(net, geo, starts[i], nodes[j], l)
    ensures r.Success? && Distinct(acc) ==> Distinct(r.value)
    ensures r.Success? && (forall l :: l in acc ==> InNetwork(net, l)) ==>
      forall l :: l in r.value ==> InNetwork(net, l)
    decreases |starts|
  {
    if |starts| == 0 then Success(acc)
    else
      var acc1 :- Row(net, geo, starts[0], nodes, acc);
      var r := Sweep(net, geo, starts[1..], nodes, acc1);
      assert forall i :: 1 <= i < |starts| ==> starts[1..][i - 1] == starts[i];
      r
  }

  /** `mapWayToNetworkLinks`: the links matched by some ordered pair of
      distinct nodes of the way, each once. It throws when some pair's
      nearest link is `null`. */
  function MapWayToNetworkLinks(net: Network, geo: Geometry, way: Way): (r: Result<seq<Link>, Error>)
    requires WellKeyed(net)
    ensures r.Failure? <==>
      exists i, j :: 0 <= i < |way.nodes| && 0 <= j < |way.nodes| && Unresolved(net, geo, way.nodes[i], way.nodes[j])
    ensures r.Success? ==>
      forall l :: l in r.value <==>
        exists i, j :: 0 <= i < |way.nodes| && 0 <= j < |way.nodes| && Matched(net, geo, way.nodes[i], way.nodes[j], l)
    ensures r.Success? ==> Distinct(r.value) && forall l :: l in r.value ==> InNetwork(net, l)
  {
    Sweep(net, geo, way.nodes, way.nodes, [])
  }

  /** A way with fewer than two nodes has no pair of distinct nodes and
      matches nothing. */
  lemma ShortWayMatchesNothing(net: Network, geo: Geometry, way: Way)
    requires WellKeyed(net)
    requires |way.nodes| < 2
    ensures MapWayToNetworkLinks(net, geo, way) == Success([])
  {
  }

  /** The opposite link of an accepted candidate is always matched too. */
  lemma OppositeOfAcceptedIsMatched(net: Network, geo: Geometry, way: Way, i: int, j: int)
    requires WellKeyed(net)
    requires 0 <= i < |way.nodes| && 0 <= j < |way.nodes| && way.nodes[i] != way.nodes[j]
    requires CandidateId(net, geo, way.nodes[i], way.nodes[j]) in net
    requires Passes(geo, way.nodes[i].coord, way.nodes[j].coord, net[CandidateId(net, geo, way.nodes[i], way.nodes[j])])
    requires OppositeLink(net, geo, net[CandidateId(net, geo, way.nodes[i], way.nodes[j])]).Some?
    ensures var r := MapWayToNetworkLinks(net, geo, way);
      var c := net[CandidateId(net, geo, way.nodes[i], way.nodes[j])];
      r.Success? ==> c in r.value && OppositeLink(net, geo, c).value in r.value
  {
    var c := net[CandidateId(net, geo, way.nodes[i], way.nodes[j])];
    if MapWayToNetworkLinks(net, geo, way).Success? {
      assert Matched(net, geo, way.nodes[i], way.nodes[j], c);
      assert Matched(net, geo, way.nodes[i], way.nodes[j], OppositeLink(net, geo, c).value);
    }
  }

  // ---------------------------------------------------------------------
  // Synthesising bus lanes
  // ---------------------------------------------------------------------

  const CarMode: string := "car"
  const PtMode: string := "pt"
  const BusLaneCapacity: real := 1200.0
  const BusLaneLanes: real := 1.0

  /** `normalLane2busLane`: original link id to the id of its bus lane. */
  type Substitution = map<Id, Id>

  /** `link.getId() + "_bus_" + i`. */
  function BusLaneId(original: Id, i: nat): Id
  {
    original + "_bus_" + NatToString(i)
  }

  /** The `pt`-only copy of `l` made as the `i`-th duplicate of a way. */
  function BusLaneOf(l: Link, i: nat): Link
  {
    Link(BusLaneId(l.id, i), l.from, l.to, l.length, l.freespeed, BusLaneCapacity, BusLaneLanes, {PtMode})
  }

  /** `d` is a bus lane duplicating `l`. */
  ghost predicate IsBusLaneOf(d: Link, l: Link)
  {
    && d.from == l.from && d.to == l.to && d.length == l.length && d.freespeed == l.freespeed
    && d.capacity == BusLaneCapacity && d.lanes == BusLaneLanes && d.modes == {PtMode}
    && exists i: nat :: d.id == BusLaneId(l.id, i)
  }

  /** What the substitution map and the network satisfy throughout: every
      key is a car link of the network and its value the id of a bus lane
      duplicating it. */
  ghost predicate SubstitutionInv(net: Network, dup: Substitution)
  {
    forall k :: k in dup ==>
      && k in net && CarMode in net[k].modes
      && dup[k] in net && IsBusLaneOf(net[dup[k]], net[k])
  }

  /** No value of the map is also a key. */
  predicate ValuesAreNotKeys(dup: Substitution)
  {
    forall k :: k in dup ==> dup[k] !in dup
  }

  /** A duplicate allows only `pt`, so it is never a key: keys are car links. */
  lemma DuplicatesAreNeverKeys(net: Network, dup: Substitution)
    requires SubstitutionInv(net, dup)
    ensures ValuesAreNotKeys(dup)
  {
    forall k | k in dup
      ensures dup[k] !in dup
    {
    }
  }

  /** Each duplicate duplicates exactly one original link. */
  lemma DuplicatesAreDistinct(net: Network, dup: Substitution, o1: Id, o2: Id)
    requires WellKeyed(net) && SubstitutionInv(net, dup)
    requires o1 in dup && o2 in dup && dup[o1] == dup[o2]
    ensures o1 == o2
  {
    var i1: nat :| net[dup[o1]].id == BusLaneId(net[o1].id, i1);
    var i2: nat :| net[dup[o2]].id == BusLaneId(net[o2].id, i2);
    BusLaneIdInjective(o1, i1, o2, i2);
  }

  /** `(net', dup')` is `(net, dup)` grown by new links only: existing
      links and entries stay as they were, and every new link is the image
      of a new key, made fresh. */
  ghost predicate Grows(net: Network, dup: Substitution, net': Network, dup': Substitution)
  {
    && (forall k :: k in net ==> k in net' && net'[k] == net[k])
    && (forall k :: k in dup ==> k in dup' && dup'[k] == dup[k])
    && (forall k :: k in net' && k !in net ==> exists o :: o in dup' && o !in dup && dup'[o] == k)
    && (forall o :: o in dup' && o !in dup ==> dup'[o] !in net)
  }

  /** The growth keeps the network well keyed and the invariant. */
  ghost predicate Extends(net: Network, dup: Substitution, net': Network, dup': Substitution)
  {
    WellKeyed(net') && SubstitutionInv(net', dup') && Grows(net, dup, net', dup')
  }

  lemma GrowsTransitive(n1: Network, d1: Substitution, n2: Network, d2: Substitution, n3: Network, d3: Substitution)
    requires Grows(n1, d1, n2, d2) && Grows(n2, d2, n3, d3)
    ensures Grows(n1, d1, n3, d3)
  {
    forall o | o in d3 && o !in d1
      ensures d3[o] !in n1
    {
      if o in d2 {
        assert d3[o] == d2[o];
      }
    }
    forall k | k in n3 && k !in n1
      ensures exists o :: o in d3 && o !in d1 && d3[o] == k
    {
      if k in n2 {
        var o :| o in d2 && o !in d1 && d2[o] == k;
        assert d3[o] == k;
      } else {
        var o :| o in d3 && o !in d2 && d3[o] == k;
        assert o !in d1;
      }
    }
  }

  /** Distinct duplicate ids: the id determines the original id and the
      index, since the index is rendered in digits only. */
  lemma BusLaneIdInjective(a: Id, i: nat, b: Id, j: nat)
    requires BusLaneId(a, i) == BusLaneId(b, j)
    ensures a == b && i == j
  {
    var s := BusLaneId(a, i);
    var da, db := NatToString(i), NatToString(j);
    assert s == (a + "_bus_") + da && s == (b + "_bus_") + db;
    assert forall k :: |s| - |db| <= k < |s| ==> s[k] == db[k - (|s| - |db|)];
    assert forall k :: |s| - |da| <= k < |s| ==> s[k] == da[k - (|s| - |da|)];
    assert s[|s| - |da| - 1] == '_' && s[|s| - |db| - 1] == '_';
    assert da == s[|s| - |da|..] == db;
    NatToStringInjective(i, j);
    assert a + "_bus_" == s[..|s| - |da|] == b + "_bus_";
    assert a == (a + "_bus_")[..|a|];
  }

  /** Adding the duplicate of one car link that has none yet. */
  lemma DuplicateOne(net: Network, dup: Substitution, l: Link, i: nat)
    requires InNetwork(net, l) && l.id !in dup && CarMode in l.modes
    requires BusLaneId(l.id, i) !in net
    ensures var d := BusLaneOf(l, i);
      Grows(net, dup, net[d.id := d], dup[l.id := d.id])
    ensures var d := BusLaneOf(l, i);
      WellKeyed(net) && SubstitutionInv(net, dup) ==>
        WellKeyed(net[d.id := d]) && SubstitutionInv(net[d.id := d], dup[l.id := d.id])
  {
    var d := BusLaneOf(l, i);
    var net1, dup1 := net[d.id := d], dup[l.id := d.id];
    assert IsBusLaneOf(net1[dup1[l.id]], net1[l.id]);
  }

  /** The inner loop of the duplication for one way: `i` counts the
      duplicates already made for this way. A link already in the map or
      without `car` is skipped; adding a link whose id is taken throws. */
  function DuplicateForWay(net: Network, dup: Substitution, links: seq<Link>, i: nat): (r: Result<(Network, Substitution), Error>)
    requires forall l :: l in links ==> InNetwork(net, l)
    ensures r.Success? ==> Grows(net, dup, r.value.0, r.value.1)
    ensures r.Success? && WellKeyed(net) && SubstitutionInv(net, dup) ==>
      WellKeyed(r.value.0) && SubstitutionInv(r.value.0, r.value.1)
    decreases |links|
  {
    if |links| == 0 then Success((net, dup))
    else
      var l := links[0];
      if l.id in dup || CarMode !in l.modes then
        DuplicateForWay(net, dup, links[1..], i)
      else
        var d := BusLaneOf(l, i);
        if d.id in net then Failure(LinkIdCollision(d.id))
        else
          var net1 := net[d.id := d];
          var dup1 := dup[l.id := d.id];
          DuplicateOne(net, dup, l, i);
          RestStayInNetwork(net, links, d);
          var r := DuplicateForWay(net1, dup1, links[1..], i + 1);
          if r.Success? then
            GrowsTransitive(net, dup, net1, dup1, r.value.0, r.value.1);
            r
          else r
  }

  lemma RestStayInNetwork(net: Network, links: seq<Link>, d: Link)
    requires |links| > 0 && forall l :: l in links ==> InNetwork(net, l)
    requires d.id !in net
    ensures forall l :: l in links[1..] ==> InNetwork(net[d.id := d], l)
  {
    forall l | l in links[1..] ensures InNetwork(net[d.id := d], l) {
      assert l in links;
    }
  }

  /** The links of a way that get a duplicate, in order: those not yet
      duplicated that allow `car`. */
  function Eligible(dup: Substitution, links: seq<Link>): (r: seq<Link>)
    ensures forall l :: l in r <==> l in links && l.id !in dup && CarMode in l.modes
    decreases |links|
  {
    if |links| == 0 then []
    else
      assert forall l :: l in links <==> l == links[0] || l in links[1..];
      (if links[0].id in dup || CarMode !in links[0].modes then [] else [links[0]]) + Eligible(dup, links[1..])
  }

  lemma {:induction false} EligibleIgnoresOtherKeys(dup: Substitution, links: seq<Link>, x: Id, y: Id)
    requires forall l :: l in links ==> l.id != x
    ensures Eligible(dup[x := y], links) == Eligible(dup, links)
    decreases |links|
  {
    if |links| > 0 {
      assert forall l :: l in links[1..] ==> l in links;
      EligibleIgnoresOtherKeys(dup, links[1..], x, y);
    }
  }

  /** Where a way's duplication stands after its first link: the link is
      duplicated with index `i` and the rest of the way continues with
      `i + 1`, over the same eligible links. */
  lemma DuplicateFirst(net: Network, dup: Substitution, links: seq<Link>, i: nat)
    requires forall l :: l in links ==> InNetwork(net, l)
    requires Distinct(links)
    requires |links| > 0 && links[0].id !in dup && CarMode in links[0].modes
    requires BusLaneId(links[0].id, i) !in net
    ensures var l := links[0];
      var d := BusLaneOf(l, i);
      && Grows(net, dup, net[d.id := d], dup[l.id := d.id])
      && (forall m :: m in links[1..] ==> InNetwork(net[d.id := d], m))
      && Distinct(links[1..])
      && Eligible(dup[l.id := d.id], links[1..]) == Eligible(dup, links[1..])
      && DuplicateForWay(net, dup, links, i) == DuplicateForWay(net[d.id := d], dup[l.id := d.id], links[1..], i + 1)
  {
    var l := links[0];
    var d := BusLaneOf(l, i);
    DuplicateOne(net, dup, l, i);
    RestStayInNetwork(net, links, d);
    assert Distinct(links[1..]);
    assert forall m :: m in links[1..] ==> m.id != l.id by {
      forall m | m in links[1..] ensures m.id != l.id {
        var k :| 0 <= k < |links[1..]| && links[1..][k] == m;
        assert links[k + 1] == m && links[0] != links[k + 1];
        assert InNetwork(net, m) && InNetwork(net, l);
      }
    }
    EligibleIgnoresOtherKeys(dup, links[1..], l.id, d.id);
  }

  /** Where a way's duplication stands after a first link that is skipped. */
  lemma DuplicateSkip(net: Network, dup: Substitution, links: seq<Link>, i: nat)
    requires forall l :: l in links ==> InNetwork(net, l)
    requires Distinct(links)
    requires |links| > 0 && (links[0].id in dup || CarMode !in links[0].modes)
    ensures forall m :: m in links[1..] ==> InNetwork(net, m)
    ensures Distinct(links[1..])
    ensures Eligible(dup, links) == Eligible(dup, links[1..])
    ensures DuplicateForWay(net, dup, links, i) == DuplicateForWay(net, dup, links[1..], i)
  {
    assert forall m :: m in links[1..] ==> m in links;
  }

  /** Some link of `c` at position `j` would get a duplicate with index
      `i + j` whose id the network already holds. */
  predicate Collides(net: Network, c: seq<Link>, i: nat)
  {
    exists j :: 0 <= j < |c| && BusLaneId(c[j].id, i + j) in net
  }

  lemma CollidesCons(net: Network, l: Link, c: seq<Link>, i: nat)
    ensures Collides(net, [l] + c, i) <==> BusLaneId(l.id, i) in net || Collides(net, c, i + 1)
  {
    var lc := [l] + c;
    if Collides(net, lc, i) {
      var j :| 0 <= j < |lc| && BusLaneId(lc[j].id, i + j) in net;
      if j > 0 {
        assert lc[j] == c[j - 1] && i + j == (i + 1) + (j - 1);
      }
    }
    if Collides(net, c, i + 1) {
      var j :| 0 <= j < |c| && BusLaneId(c[j].id, i + 1 + j) in net;
      assert lc[j + 1] == c[j] && i + (j + 1) == i + 1 + j;
    }
    if BusLaneId(l.id, i) in net {
      assert lc[0] == l;
    }
  }

  /** A fresh duplicate of one link does not make later indices collide. */
  lemma CollidesIgnoresFresh(net: Network, d: Link, l: Link, c: seq<Link>, i: nat)
    requires d.id == BusLaneId(l.id, i)
    ensures Collides(net[d.id := d], c, i + 1) <==> Collides(net, c, i + 1)
  {
    forall j | 0 <= j < |c| && BusLaneId(c[j].id, i + 1 + j) == d.id
      ensures false
    {
      BusLaneIdInjective(c[j].id, i + 1 + j, l.id, i);
    }
  }

  /** The loop over a way throws exactly when the id of some eligible
      link's duplicate is taken; the `j`-th eligible link gets index `i + j`. */
  lemma {:induction false} DuplicateForWayFails(net: Network, dup: Substitution, links: seq<Link>, i: nat)
    requires forall l :: l in links ==> InNetwork(net, l)
    requires Distinct(links)
    ensures DuplicateForWay(net, dup, links, i).Failure? <==> Collides(net, Eligible(dup, links), i)
    decreases |links|
  {
    if |links| > 0 {
      var l := links[0];
      if l.id in dup || CarMode !in l.modes {
        DuplicateSkip(net, dup, links, i);
        DuplicateForWayFails(net, dup, links[1..], i);
      } else {
        var c' := Eligible(dup, links[1..]);
        assert Eligible(dup, links) == [l] + c';
        CollidesCons(net, l, c', i);
        var d := BusLaneOf(l, i);
        if d.id !in net {
          DuplicateFirst(net, dup, links, i);
          DuplicateForWayFails(net[d.id := d], dup[l.id := d.id], links[1..], i + 1);
          CollidesIgnoresFresh(net, d, l, c', i);
        }
      }
    }
  }

  /** The `j`-th link of `c` is mapped to its duplicate with index
      `i + j`, which the network holds. */
  predicate Numbered(net: Network, dup: Substitution, c: seq<Link>, i: nat)
  {
    forall j :: 0 <= j < |c| ==> DuplicatedAs(net, dup, c[j], i + j)
  }

  predicate DuplicatedAs(net: Network, dup: Substitution, l: Link, i: nat)
  {
    && l.id in dup && dup[l.id] == BusLaneId(l.id, i)
    && BusLaneId(l.id, i) in net && net[BusLaneId(l.id, i)] == BusLaneOf(l, i)
  }

  lemma NumberedCons(net: Network, dup: Substitution, l: Link, c: seq<Link>, i: nat)
    requires DuplicatedAs(net, dup, l, i) && Numbered(net, dup, c, i + 1)
    ensures Numbered(net, dup, [l] + c, i)
  {
    var lc := [l] + c;
    forall j | 0 <= j < |lc| ensures DuplicatedAs(net, dup, lc[j], i + j) {
      if j > 0 {
        assert lc[j] == c[j - 1] && i + j == i + 1 + (j - 1);
      }
    }
  }

  /** On success, the `j`-th eligible link of the way is mapped to its
      duplicate with index `i + j`, which the network now holds. */
  lemma {:induction false} DuplicateForWayNumbers(net: Network, dup: Substitution, links: seq<Link>, i: nat)
    requires forall l :: l in links ==> InNetwork(net, l)
    requires Distinct(links)
    requires DuplicateForWay(net, dup, links, i).Success?
    ensures var r := DuplicateForWay(net, dup, links, i).value;
      Numbered(r.0, r.1, Eligible(dup, links), i)
    decreases |links|
  {
    if |links| > 0 {
      var l := links[0];
      if l.id in dup || CarMode !in l.modes {
        DuplicateSkip(net, dup, links, i);
        DuplicateForWayNumbers(net, dup, links[1..], i);
      } else {
        var c' := Eligible(dup, links[1..]);
        assert Eligible(dup, links) == [l] + c';
        var d := BusLaneOf(l, i);
        DuplicateFirst(net, dup, links, i);
        var net1, dup1 := net[d.id := d], dup[l.id := d.id];
        DuplicateForWayNumbers(net1, dup1, links[1..], i + 1);
        var r := DuplicateForWay(net1, dup1, links[1..], i + 1).value;
        assert DuplicatedAs(r.0, r.1, l, i);
        NumberedCons(r.0, r.1, l, c', i);
      }
    }
  }

  /** The loop over the bus ways: match each way against the network as it
      stands, then duplicate the matched links. */
  function SynthesizeBusLanes(net: Network, dup: Substitution, ways: seq<Way>, geo: Geometry): (r: Result<(Network, Substitution), Error>)
    requires WellKeyed(net) && SubstitutionInv(net, dup)
    ensures r.Success? ==> Extends(net, dup, r.value.0, r.value.1)
    decreases |ways|
  {
    if |ways| == 0 then Success((net, dup))
    else
      var links :- MapWayToNetworkLinks(net, geo, ways[0]);
      var p :- DuplicateForWay(net, dup, links, 0);
      var r := SynthesizeBusLanes(p.0, p.1, ways[1..], geo);
      if r.Success? then
        GrowsTransitive(net, dup, p.0, p.1, r.value.0, r.value.1);
        r
      else r
  }

  /** Handling the ways in two runs, the first `w` and then the rest, is
      handling them in one. */
  lemma {:induction false} SynthesizeSplit(net: Network, dup: Substitution, ways: seq<Way>, geo: Geometry, w: int)
    requires WellKeyed(net) && SubstitutionInv(net, dup)
    requires 0 <= w <= |ways|
    ensures var s := SynthesizeBusLanes(net, dup, ways[..w], geo);
      SynthesizeBusLanes(net, dup, ways, geo) ==
        if s.Failure? then s else SynthesizeBusLanes(s.value.0, s.value.1, ways[w..], geo)
    decreases w
  {
    if w == 0 {
      assert ways[..0] == [] && ways[0..] == ways;
    } else {
      assert ways[..w][0] == ways[0] && ways[..w][1..] == ways[1..][..w - 1];
      assert ways[1..][w - 1..] == ways[w..];
      var m := MapWayToNetworkLinks(net, geo, ways[0]);
      if m.Success? {
        var d := DuplicateForWay(net, dup, m.value, 0);
        if d.Success? {
          SynthesizeSplit(d.value.0, d.value.1, ways[1..], geo, w - 1);
        }
      }
    }
  }

  /** Handling one way on `(net, dup)` throws: its matching throws, or the
      id of the duplicate of some link it would duplicate is taken. */
  predicate StepFails(net: Network, dup: Substitution, way: Way, geo: Geometry)
    requires WellKeyed(net)
  {
    var m := MapWayToNetworkLinks(net, geo, way);
    m.Failure? || Collides(net, Eligible(dup, m.value), 0)
  }

  /** Way `w` is reached, and handling it throws. */
  predicate FailsAt(net: Network, dup: Substitution, ways: seq<Way>, geo: Geometry, w: int)
    requires WellKeyed(net) && SubstitutionInv(net, dup)
    requires 0 <= w < |ways|
  {
    var s := SynthesizeBusLanes(net, dup, ways[..w], geo);
    s.Success? && StepFails(s.value.0, s.value.1, ways[w], geo)
  }

  /** Handling the single way `way` throws exactly when its step does. */
  lemma SynthesizeOne(net: Network, dup: Substitution, way: Way, geo: Geometry)
    requires WellKeyed(net) && SubstitutionInv(net, dup)
    ensures SynthesizeBusLanes(net, dup, [way], geo).Failure? <==> StepFails(net, dup, way, geo)
  {
    assert [way][0] == way && [way][1..] == [];
    var m := MapWayToNetworkLinks(net, geo, way);
    if m.Success? {
      DuplicateForWayFails(net, dup, m.value, 0);
    }
  }

  /** When no way throws, every prefix of the ways is handled. */
  lemma {:induction false} NoStepFails(net: Network, dup: Substitution, ways: seq<Way>, geo: Geometry, w: int)
    requires WellKeyed(net) && SubstitutionInv(net, dup)
    requires 0 <= w <= |ways|
    requires forall v :: 0 <= v < |ways| ==> !FailsAt(net, dup, ways, geo, v)
    ensures SynthesizeBusLanes(net, dup, ways[..w], geo).Success?
    decreases w
  {
    if w == 0 {
      assert ways[..0] == [];
    } else {
      NoStepFails(net, dup, ways, geo, w - 1);
      var pre := ways[..w];
      SynthesizeSplit(net, dup, pre, geo, w - 1);
      assert pre[..w - 1] == ways[..w - 1] && pre[w - 1..] == [ways[w - 1]];
      assert !FailsAt(net, dup, ways, geo, w - 1);
      var s := SynthesizeBusLanes(net, dup, ways[..w - 1], geo).value;
      SynthesizeOne(s.0, s.1, ways[w - 1], geo);
    }
  }

  /** The loop over the bus ways throws exactly when some way is reached
      and its matching throws or a duplicate's id is taken. */
  lemma SynthesizeBusLanesFails(net: Network, dup: Substitution, ways: seq<Way>, geo: Geometry)
    requires WellKeyed(net) && SubstitutionInv(net, dup)
    ensures SynthesizeBusLanes(net, dup, ways, geo).Failure? <==>
      exists w :: 0 <= w < |ways| && FailsAt(net, dup, ways, geo, w)
  {
    if exists w :: 0 <= w < |ways| && FailsAt(net, dup, ways, geo, w) {
      var w :| 0 <= w < |ways| && FailsAt(net, dup, ways, geo, w);
      SynthesizeSplit(net, dup, ways, geo, w);
      var s := SynthesizeBusLanes(net, dup, ways[..w], geo).value;
      assert ways[w..][0] == ways[w];
      var m := MapWayToNetworkLinks(s.0, geo, ways[w]);
      if m.Success? {
        DuplicateForWayFails(s.0, s.1, m.value, 0);
      }
    } else {
      NoStepFails(net, dup, ways, geo, |ways|);
      assert ways[..|ways|] == ways;
    }
  }

  /** Every car link matched for a way, in the network as it stood when
      the way was reached, ends up with a bus lane duplicating it. */
  lemma SynthesisCoversMatchedCarLinks(net: Network, dup: Substitution, ways: seq<Way>, geo: Geometry, w: int)
    requires WellKeyed(net) && SubstitutionInv(net, dup)
    requires 0 <= w < |ways|
    ensures var r := SynthesizeBusLanes(net, dup, ways, geo);
      var s := SynthesizeBusLanes(net, dup, ways[..w], geo);
      r.Success? ==>
        && s.Success?
        && MapWayToNetworkLinks(s.value.0, geo, ways[w]).Success?
        && forall l :: l in MapWayToNetworkLinks(s.value.0, geo, ways[w]).value && CarMode in l.modes ==>
             && l.id in r.value.1 && r.value.1[l.id] in r.value.0
             && IsBusLaneOf(r.value.0[r.value.1[l.id]], l)
  {
    SynthesizeSplit(net, dup, ways, geo, w);
    var s := SynthesizeBusLanes(net, dup, ways[..w], geo);
    if s.Success? {
      assert ways[w..][0] == ways[w];
      StepCovers(s.value.0, s.value.1, ways[w..], geo);
    }
  }

  /** The first way of `ways`: its matched car links all end up with a
      bus lane. */
  lemma StepCovers(net: Network, dup: Substitution, ways: seq<Way>, geo: Geometry)
    requires WellKeyed(net) && SubstitutionInv(net, dup)
    requires |ways| > 0
    ensures var r := SynthesizeBusLanes(net, dup, ways, geo);
      r.Success? ==>
        && MapWayToNetworkLinks(net, geo, ways[0]).Success?
        && forall l :: l in MapWayToNetworkLinks(net, geo, ways[0]).value && CarMode in l.modes ==>
             && l.id in r.value.1 && r.value.1[l.id] in r.value.0
             && IsBusLaneOf(r.value.0[r.value.1[l.id]], l)
  {
    var r := SynthesizeBusLanes(net, dup, ways, geo);
    if r.Success? {
      var links := MapWayToNetworkLinks(net, geo, ways[0]).value;
      var p := DuplicateForWay(net, dup, links, 0).value;
      forall l | l in links && CarMode in l.modes
        ensures l.id in r.value.1 && r.value.1[l.id] in r.value.0 && IsBusLaneOf(r.value.0[r.value.1[l.id]], l)
      {
        LinkCovered(net, dup, links, r.value.0, r.value.1, l);
      }
    }
  }

  /** A car link of a way's matching has a bus lane once the way's
      duplication, and any growth after it, is done. */
  lemma LinkCovered(net: Network, dup: Substitution, links: seq<Link>, net': Network, dup': Substitution, l: Link)
    requires WellKeyed(net) && SubstitutionInv(net, dup)
    requires (forall m :: m in links ==> InNetwork(net, m)) && Distinct(links)
    requires DuplicateForWay(net, dup, links, 0).Success?
    requires var p := DuplicateForWay(net, dup, links, 0).value; Extends(p.0, p.1, net', dup')
    requires l in links && CarMode in l.modes
    ensures l.id in dup' && dup'[l.id] in net' && IsBusLaneOf(net'[dup'[l.id]], l)
  {
    var p := DuplicateForWay(net, dup, links, 0).value;
    GrowsTransitive(net, dup, p.0, p.1, net', dup');
    if l.id !in dup {
      DuplicateForWayNumbers(net, dup, links, 0);
      var c := Eligible(dup, links);
      var j :| 0 <= j < |c| && c[j] == l;
      assert DuplicatedAs(p.0, p.1, c[j], j);
    }
    assert InNetwork(net, l);
  }

  /** The network only grows, and only by bus lanes duplicating car links
      of the original network, at most one per original link. */
  lemma SynthesisOnlyAddsBusLanes(net: Network, ways: seq<Way>, geo: Geometry)
    requires WellKeyed(net)
    requires SynthesizeBusLanes(net, map[], ways, geo).Success?
    ensures var (net', dup) := SynthesizeBusLanes(net, map[], ways, geo).value;
      && (forall k :: k in net ==> k in net' && net'[k] == net[k])
      && (forall k :: k in net' && k !in net ==>
            exists o :: o in dup && o in net && CarMode in net[o].modes && dup[o] == k && IsBusLaneOf(net'[k], net[o]))
      && ValuesAreNotKeys(dup)
  {
    var (net', dup) := SynthesizeBusLanes(net, map[], ways, geo).value;
    DuplicatesAreNeverKeys(net', dup);
    forall k | k in net' && k !in net
      ensures exists o :: o in dup && o in net && CarMode in net[o].modes && dup[o] == k && IsBusLaneOf(net'[k], net[o])
    {
      var o :| o in dup && dup[o] == k;
      assert o in net;
    }
  }

  // ---------------------------------------------------------------------
  // Moving the schedule onto the bus lanes
  // ---------------------------------------------------------------------

  /** `normalLane2busLane.getOrDefault(id, id)`. */
  function Substitute(dup: Substitution, id: Id): Id
  {
    if id in dup then dup[id] else id
  }

  /** Rebasing one stop facility onto its link's bus lane, if there is one. */
  function RebaseFacility(f: Facility, dup: Substitution): (r: Facility)
    ensures r.id == f.id && r.coord == f.coord && r.isBlockingLane == f.isBlockingLane
    ensures f.linkId in dup ==> r.linkId == dup[f.linkId]
    ensures f.linkId !in dup ==> r == f
  {
    if f.linkId in dup then f.(linkId := dup[f.linkId]) else f
  }

  /** The loop over all stop facilities. */
  function RebaseFacilities(fs: seq<Facility>, dup: Substitution): (r: seq<Facility>)
    ensures |r| == |fs|
    ensures forall i :: 0 <= i < |fs| ==> r[i] == RebaseFacility(fs[i], dup)
    ensures forall id :: HasFacility(r, id) <==> HasFacility(fs, id)
  {
    assert forall i :: 0 <= i < |fs| ==> RebaseFacility(fs[i], dup).id == fs[i].id;
    seq(|fs|, i requires 0 <= i < |fs| => RebaseFacility(fs[i], dup))
  }

  /** Rebasing twice is rebasing once, because no value is a key. */
  lemma RebaseIdempotent(fs: seq<Facility>, dup: Substitution)
    requires ValuesAreNotKeys(dup)
    ensures RebaseFacilities(RebaseFacilities(fs, dup), dup) == RebaseFacilities(fs, dup)
  {
    var once := RebaseFacilities(fs, dup);
    forall i | 0 <= i < |fs|
      ensures RebaseFacility(once[i], dup) == once[i]
    {
      if fs[i].linkId in dup {
        assert once[i].linkId == dup[fs[i].linkId];
      }
    }
  }

  /** Looking a facility up after rebasing finds the rebased facility. */
  lemma {:induction false} FacilityOfRebased(fs: seq<Facility>, dup: Substitution, id: Id)
    requires HasFacility(fs, id)
    ensures FacilityOf(RebaseFacilities(fs, dup), id) == Some(RebaseFacility(FacilityOf(fs, id).value, dup))
  {
    var r := RebaseFacilities(fs, dup);
    if fs[0].id != id {
      assert RebaseFacilities(fs[1..], dup) == r[1..];
      assert HasFacility(fs[1..], id) by {
        var i :| 0 <= i < |fs| && fs[i].id == id;
        assert fs[1..][i - 1].id == id;
      }
      FacilityOfRebased(fs[1..], dup, id);
    }
  }

  /** Every stop of the route refers to a facility of `fs`. */
  predicate RouteStopsResolve(route: TransitRoute, fs: seq<Facility>)
  {
    forall k :: 0 <= k < |route.stops| ==> HasFacility(fs, route.stops[k])
  }

  /** Rewiring one route: first and last link come from the first and last
      stop's facility, every inner link is replaced by its bus lane if it
      has one. */
  function RewireRoute(route: TransitRoute, fs: seq<Facility>, dup: Substitution): (r: Result<TransitRoute, Error>)
    requires RouteStopsResolve(route, fs)
    ensures r.Failure? <==> |route.stops| == 0
    ensures r.Success? ==>
      && r.value.(route := route.route) == route
      && r.value.route.start == FacilityOf(fs, route.stops[0]).value.linkId
      && r.value.route.end == FacilityOf(fs, route.stops[|route.stops| - 1]).value.linkId
      && |r.value.route.inner| == |route.route.inner|
      && forall k :: 0 <= k < |route.route.inner| ==>
           r.value.route.inner[k] == Substitute(dup, route.route.inner[k])
  {
    if |route.stops| == 0 then Failure(RouteWithoutStops(route.id))
    else
      var first := FacilityOf(fs, route.stops[0]).value.linkId;
      var last := FacilityOf(fs, route.stops[|route.stops| - 1]).value.linkId;
      var inner := seq(|route.route.inner|, k requires 0 <= k < |route.route.inner| => Substitute(dup, route.route.inner[k]));
      Success(route.(route := NetworkRoute(first, inner, last)))
  }

  function RewireRoutes(routes: seq<TransitRoute>, fs: seq<Facility>, dup: Substitution): (r: Result<seq<TransitRoute>, Error>)
    requires forall j :: 0 <= j < |routes| ==> RouteStopsResolve(routes[j], fs)
    ensures r.Failure? <==> exists j :: 0 <= j < |routes| && |routes[j].stops| == 0
    ensures r.Success? ==> (|r.value| == |routes| &&
      forall j :: 0 <= j < |routes| ==> Success(r.value[j]) == RewireRoute(routes[j], fs, dup))
    decreases |routes|
  {
    if |routes| == 0 then Success([])
    else
      RoutesCons(routes);
      var first :- RewireRoute(routes[0], fs, dup);
      var rest :- RewireRoutes(routes[1..], fs, dup);
      Success([first] + rest)
  }

  lemma RoutesCons(routes: seq<TransitRoute>)
    requires |routes| > 0
    ensures forall j :: 1 <= j < |routes| ==> routes[1..][j - 1] == routes[j]
    ensures (exists j :: 0 <= j < |routes| && |routes[j].stops| == 0) <==>
      |routes[0].stops| == 0 || exists j :: 0 <= j < |routes[1..]| && |routes[1..][j].stops| == 0
  {
    if exists j :: 0 <= j < |routes| && |routes[j].stops| == 0 {
      var j :| 0 <= j < |routes| && |routes[j].stops| == 0;
      if j > 0 {
        assert routes[1..][j - 1] == routes[j];
      }
    }
  }

  /** The loop over all lines and their routes. */
  function RewireLines(lines: seq<TransitLine>, fs: seq<Facility>, dup: Substitution): (r: Result<seq<TransitLine>, Error>)
    requires forall i, j :: 0 <= i < |lines| && 0 <= j < |lines[i].routes| ==> RouteStopsResolve(lines[i].routes[j], fs)
    ensures r.Failure? <==> exists i, j :: 0 <= i < |lines| && 0 <= j < |lines[i].routes| && |lines[i].routes[j].stops| == 0
    ensures r.Success? ==> (|r.value| == |lines| &&
      forall i :: 0 <= i < |lines| ==>
        && r.value[i].(routes := lines[i].routes) == lines[i]
        && Success(r.value[i].routes) == RewireRoutes(lines[i].routes, fs, dup))
    decreases |lines|
  {
    if |lines| == 0 then Success([])
    else
      var routes :- RewireRoutes(lines[0].routes, fs, dup);
      var rest :- RewireLines(lines[1..], fs, dup);
      assert forall i :: 1 <= i < |lines| ==> lines[1..][i - 1] == lines[i];
      Success([lines[0].(routes := routes)] + rest)
  }

  /** `AddBusLanes.call()` from the parsed inputs to the outputs it writes:
      it throws iff the synthesis throws or some route has no stops;
      otherwise the facilities are rebased and the routes rewired against
      the substitution the synthesis returns. */
  function Run(ways: seq<Way>, net: Network, schedule: Schedule, geo: Geometry): (r: Result<(Network, Schedule), Error>)
    requires WellKeyed(net) && StopsResolve(schedule)
    ensures r.Failure? <==>
      || SynthesizeBusLanes(net, map[], BusWays(ways), geo).Failure?
      || exists i, j :: 0 <= i < |schedule.lines| && 0 <= j < |schedule.lines[i].routes| && |schedule.lines[i].routes[j].stops| == 0
    ensures r.Success? ==>
      var (net', dup) := SynthesizeBusLanes(net, map[], BusWays(ways), geo).value;
      && r.value.0 == net'
      && r.value.1.facilities == RebaseFacilities(schedule.facilities, dup)
      && RewireLines(schedule.lines, r.value.1.facilities, dup) == Success(r.value.1.lines)
  {
    var p :- SynthesizeBusLanes(net, map[], BusWays(ways), geo);
    var fs := RebaseFacilities(schedule.facilities, p.1);
    var lines :- RewireLines(schedule.lines, fs, p.1);
    Success((p.0, Schedule(fs, lines)))
  }

  /** What the command writes: the network grows only by bus lanes of
      original car links; every facility keeps all but its link, which is
      its old link or that link's new bus lane; every route keeps its stops
      and the number of its inner links. */
  lemma RunMovesScheduleOntoBusLanes(ways: seq<Way>, net: Network, schedule: Schedule, geo: Geometry)
    requires WellKeyed(net) && StopsResolve(schedule)
    ensures var r := Run(ways, net, schedule, geo);
      r.Success? ==>
      var (net', schedule') := r.value;
      && (forall k :: k in net ==> k in net' && net'[k] == net[k])
      && (forall k :: k in net' && k !in net ==>
            exists o :: o in net && CarMode in net[o].modes && IsBusLaneOf(net'[k], net[o]))
      && |schedule'.facilities| == |schedule.facilities|
      && (forall i :: 0 <= i < |schedule.facilities| ==>
            && schedule'.facilities[i].(linkId := schedule.facilities[i].linkId) == schedule.facilities[i]
            && var (was, now) := (schedule.facilities[i].linkId, schedule'.facilities[i].linkId);
               || now == was
               || (&& was in net && CarMode in net[was].modes
                   && now in net' && now !in net && IsBusLaneOf(net'[now], net[was])))
      && |schedule'.lines| == |schedule.lines|
      && (forall i, j :: 0 <= i < |schedule.lines| && 0 <= j < |schedule.lines[i].routes| ==>
            && j < |schedule'.lines[i].routes|
            && schedule'.lines[i].routes[j].stops == schedule.lines[i].routes[j].stops
            && |schedule'.lines[i].routes[j].route.inner| == |schedule.lines[i].routes[j].route.inner|)
  {
    var r := Run(ways, net, schedule, geo);
    if r.Success? {
      var (net', dup) := SynthesizeBusLanes(net, map[], BusWays(ways), geo).value;
      SynthesisOnlyAddsBusLanes(net, BusWays(ways), geo);
      KeysAreOriginal(net, net', dup);
      RebasedLinks(net, net', dup, schedule.facilities);
    }
  }

  /** After a synthesis from an empty map, every key is a car link of the
      original network and every value a link that network lacked. */
  lemma KeysAreOriginal(net: Network, net': Network, dup: Substitution)
    requires Extends(net, map[], net', dup)
    requires forall k :: k in net' && k !in net ==>
      exists o :: o in dup && o in net && CarMode in net[o].modes && dup[o] == k && IsBusLaneOf(net'[k], net[o])
    ensures forall k :: k in dup ==>
      && k in net && net'[k] == net[k] && CarMode in net[k].modes
      && dup[k] in net' && dup[k] !in net && IsBusLaneOf(net'[dup[k]], net[k])
  {
    forall k | k in dup
      ensures k in net && net'[k] == net[k] && CarMode in net[k].modes && dup[k] !in net
    {
      assert CarMode in net'[k].modes && CarMode != PtMode;
    }
  }

  /** A rebased facility keeps its link or moves to the bus lane of its
      link, a car link of the original network. */
  lemma RebasedLinks(net: Network, net': Network, dup: Substitution, fs: seq<Facility>)
    requires forall k :: k in dup ==>
      && k in net && CarMode in net[k].modes
      && dup[k] in net' && dup[k] !in net && IsBusLaneOf(net'[dup[k]], net[k])
    ensures forall i :: 0 <= i < |fs| ==>
      var (was, now) := (fs[i].linkId, RebaseFacilities(fs, dup)[i].linkId);
      || now == was
      || (&& was in net && CarMode in net[was].modes
          && now in net' && now !in net && IsBusLaneOf(net'[now], net[was]))
  {
  }
}
