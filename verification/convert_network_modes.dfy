/** ConvertNetworkModes: every link that allows one of the public transport
    modes bus, rail, ferry or tram is rewritten to allow the generic mode
    `pt` instead of them. */
module ConvertNetworkModes {
  import opened Transit

  /** The modes the conversion folds into `pt`. */
  const Retired: set<string> := {"bus", "rail", "ferry", "tram"}

  const Pt: string := "pt"

  /** The allowed modes of one link after the conversion. */
  function ConvertModes(modes: set<string>): (r: set<string>)
    ensures r * Retired == {}
    ensures modes * Retired == {} ==> r == modes
    ensures modes * Retired != {} ==> Pt in r
    ensures forall m :: m !in Retired && m != Pt ==> (m in r <==> m in modes)
    ensures Pt in r <==> Pt in modes || modes * Retired != {}
  {
    RetiredHit(modes);
    if "bus" in modes || "rail" in modes || "ferry" in modes || "tram" in modes
    then (modes + {Pt}) - Retired
    else modes
  }

  /** The four `contains` tests together ask whether a retired mode is allowed. */
  lemma RetiredHit(modes: set<string>)
    ensures ("bus" in modes || "rail" in modes || "ferry" in modes || "tram" in modes) <==> modes * Retired != {}
  {
    if modes * Retired != {} {
      var m :| m in modes * Retired;
      assert m == "bus" || m == "rail" || m == "ferry" || m == "tram";
    }
    if "bus" in modes {
      assert "bus" in modes * Retired;
    } else if "rail" in modes {
      assert "rail" in modes * Retired;
    } else if "ferry" in modes {
      assert "ferry" in modes * Retired;
    } else if "tram" in modes {
      assert "tram" in modes * Retired;
    }
  }

  function ConvertLink(l: Link): (r: Link)
    ensures r.modes == ConvertModes(l.modes)
    ensures r.(modes := l.modes) == l
  {
    l.(modes := ConvertModes(l.modes))
  }

  /** The loop over all links of the network. */
  function Convert(net: Network): (r: Network)
    ensures r.Keys == net.Keys
    ensures forall k :: k in net ==> r[k].(modes := net[k].modes) == net[k]
    ensures forall k :: k in net ==> r[k].modes * Retired == {}
    ensures forall k :: k in net && net[k].modes * Retired == {} ==> r[k] == net[k]
    ensures forall k, m :: k in net && m !in Retired && m != Pt ==> (m in r[k].modes <==> m in net[k].modes)
    ensures forall k :: k in net && net[k].modes * Retired != {} ==> r[k].modes == (net[k].modes + {Pt}) - Retired
  {
    map k | k in net :: ConvertLink(net[k])
  }

  /** Converting an already converted network changes nothing. */
  lemma ConvertIdempotent(net: Network)
    ensures Convert(Convert(net)) == Convert(net)
  {
    var once := Convert(net);
    forall k | k in once
      ensures Convert(once)[k] == once[k]
    {
      assert once[k].modes * Retired == {};
    }
  }
}
