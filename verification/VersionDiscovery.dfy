/** Agreeing with the guardians on the API versions to talk. */
module VersionDiscovery {
  import opened Options
  import opened Federation

  datatype ApiVersion = ApiVersion(major: nat, minor: nat)

  /** The versions a party supports, one per major number, sorted by it. */
  type MultiApiVersion = seq<ApiVersion>

  predicate Consistent(api: MultiApiVersion) {
    forall i, j | 0 <= i < j < |api| :: api[i].major < api[j].major
  }

  ghost predicate HasMajor(api: seq<ApiVersion>, major: nat) {
    exists v <- api :: v.major == major
  }

  /** Where the major number is, or where it would have to go. */
  method BinarySearch(api: MultiApiVersion, major: nat) returns (found: bool, index: nat)
    requires Consistent(api)
    ensures index <= |api|
    ensures found ==> index < |api| && api[index].major == major
    ensures !found ==>
      && (forall i | 0 <= i < index :: api[i].major < major)
      && (forall i | index <= i < |api| :: major < api[i].major)
  {
    var low, high := 0, |api|;
    while low < high
      invariant low <= high <= |api|
      invariant forall i | 0 <= i < low :: api[i].major < major
      invariant forall i | high <= i < |api| :: major < api[i].major
    {
      var mid := (low + high) / 2;
      if api[mid].major == major {
        return true, mid;
      } else if api[mid].major < major {
        low := mid + 1;
      } else {
        high := mid;
      }
    }
    return false, low;
  }

  /** Adds a version unless its major number is there, keeping the list sorted and unique. */
  method TryInsert(api: MultiApiVersion, version: ApiVersion) returns (inserted: bool, r: MultiApiVersion)
    requires Consistent(api)
    ensures Consistent(r)
    ensures inserted <==> !HasMajor(api, version.major)
    ensures inserted ==> forall v :: v in r <==> v in api || v == version
    ensures !inserted ==> r == api
  {
    var found, index := BinarySearch(api, version.major);
    if found {
      assert api[index] in api;
      return false, api;
    }
    r := api[..index] + [version] + api[index..];
    assert forall v <- api :: v in api[..index] || v in api[index..] by {
      assert api == api[..index] + api[index..];
    }
    return true, r;
  }

  /** A list of versions is accepted exactly if no major number repeats, and none of it is lost. */
  method TryFromIter(versions: seq<ApiVersion>) returns (ok: bool, r: MultiApiVersion)
    ensures Consistent(r)
    ensures ok <==> forall i, j | 0 <= i < j < |versions| :: versions[i].major != versions[j].major
    ensures ok ==> forall v :: v in r <==> v in versions
  {
    r := [];
    var k := 0;
    while k < |versions|
      invariant 0 <= k <= |versions|
      invariant Consistent(r)
      invariant forall v :: v in r <==> v in versions[..k]
      invariant forall i, j | 0 <= i < j < k :: versions[i].major != versions[j].major
    {
      var inserted;
      ghost var before := r;
      inserted, r := TryInsert(r, versions[k]);
      if !inserted {
        ghost var v :| v in before && v.major == versions[k].major;
        assert v in versions[..k];
        return false, r;
      }
      forall i | 0 <= i < k ensures versions[i].major != versions[k].major {
        assert versions[i] in versions[..k];
      }
      assert versions[..k + 1] == versions[..k] + [versions[k]];
      k := k + 1;
    }
    assert versions[..k] == versions;
    ok := true;
  }

  /** The minor number listed for a major number. */
  function MinorOf(api: MultiApiVersion, major: nat): Option<nat> {
    if api == [] then None
    else if api[0].major == major then Some(api[0].minor)
    else MinorOf(api[1..], major)
  }

  /** The binary search finds the entry of a major number exactly when there is one. */
  method GetByMajor(api: MultiApiVersion, major: nat) returns (version: Option<ApiVersion>)
    requires Consistent(api)
    ensures version.Some? ==> version.value in api && version.value.major == major
    ensures version.None? ==> !HasMajor(api, major)
    ensures MinorOf(api, major) == match version case None => None case Some(v) => Some(v.minor)
  {
    var found, index := BinarySearch(api, major);
    if found {
      MinorAt(api, index);
      return Some(api[index]);
    }
    MinorMissing(api, major);
    return None;
  }

  lemma {:induction false} MinorAt(api: MultiApiVersion, i: nat)
    requires Consistent(api) && i < |api|
    ensures MinorOf(api, api[i].major) == Some(api[i].minor)
  {
    if i > 0 {
      MinorAt(api[1..], i - 1);
    }
  }

  lemma {:induction false} MinorMissing(api: MultiApiVersion, major: nat)
    requires forall i | 0 <= i < |api| :: api[i].major != major
    ensures MinorOf(api, major) == None
  {
    if api != [] {
      MinorMissing(api[1..], major);
    }
  }

  // ----- discovery, for any way of asking a peer for its minor number

  /** The peers' minor numbers by peer and major number; a peer may lack a major number. */
  type Minors = (PeerId, nat) -> Option<nat>

  /** A peer can serve a version if it has the major number with at least that minor number. */
  predicate Serves(minors: Minors, p: PeerId, v: ApiVersion) {
    minors(p, v.major).Some? && v.minor <= minors(p, v.major).value
  }

  function Servers(minors: Minors, peers: set<PeerId>, v: ApiVersion): set<PeerId> {
    set p | p in peers && Serves(minors, p, v)
  }

  /** The client can talk a version that is at least its minimum for the major number. */
  ghost predicate Acceptable(client: MultiApiVersion, v: ApiVersion) {
    exists c <- client :: c.major == v.major && c.minor <= v.minor
  }

  /**
   * What discovery is for: a version the client can talk, served by as many peers as any such
   * version can be; then the lowest major number; then the highest minor number.
   */
  ghost predicate Optimal(client: MultiApiVersion, peers: set<PeerId>, minors: Minors, best: ApiVersion) {
    && Acceptable(client, best)
    && Servers(minors, peers, best) != {}
    && forall v | Acceptable(client, v) :: NoBetter(peers, minors, best, v)
  }

  ghost predicate NoBetter(peers: set<PeerId>, minors: Minors, best: ApiVersion, v: ApiVersion) {
    var b, n := |Servers(minors, peers, best)|, |Servers(minors, peers, v)|;
    n < b || (n == b && (best.major < v.major || (best.major == v.major && v.minor <= best.minor)))
  }

  /** There is at most one such version. */
  lemma OptimalUnique(client: MultiApiVersion, peers: set<PeerId>, minors: Minors, a: ApiVersion, b: ApiVersion)
    requires Optimal(client, peers, minors, a) && Optimal(client, peers, minors, b)
    ensures a == b
  {
    assert NoBetter(peers, minors, a, b) && NoBetter(peers, minors, b, a);
  }

  method CountServers(peers: set<PeerId>, minors: Minors, v: ApiVersion) returns (count: nat)
    ensures count == |Servers(minors, peers, v)|
  {
    count := 0;
    var left := peers;
    ghost var seen: set<PeerId> := {};
    while left != {}
      invariant left <= peers && seen == Servers(minors, peers - left, v)
      invariant count == |seen|
      decreases left
    {
      var p :| p in left;
      left := left - {p};
      assert peers - left == peers - (left + {p}) + {p};
      if Serves(minors, p, v) {
        count := count + 1;
        seen := seen + {p};
      }
      assert seen == Servers(minors, peers - left, v);
    }
    assert peers - left == peers;
  }

  /** The smallest minor number of the peers that serve the client's minimum. */
  method SmallestMinor(peers: set<PeerId>, minors: Minors, v: ApiVersion) returns (minor: nat)
    requires Servers(minors, peers, v) != {}
    ensures exists p <- Servers(minors, peers, v) :: minors(p, v.major) == Some(minor)
    ensures forall p <- Servers(minors, peers, v) :: minor <= minors(p, v.major).value
  {
    var left := Servers(minors, peers, v);
    var p :| p in left;
    minor := minors(p, v.major).value;
    while left != {}
      invariant left <= Servers(minors, peers, v)
      invariant exists q <- Servers(minors, peers, v) :: minors(q, v.major) == Some(minor)
      invariant forall q <- Servers(minors, peers, v) - left :: minor <= minors(q, v.major).value
      decreases left
    {
      var q :| q in left;
      left := left - {q};
      if minors(q, v.major).value < minor {
        minor := minors(q, v.major).value;
      }
    }
  }

  /** The client's entry chosen by the first loop: the first with the most peers. */
  ghost predicate FirstBest(client: MultiApiVersion, peers: set<PeerId>, minors: Minors, i: nat)
    requires i < |client|
  {
    && (forall j | 0 <= j < |client| :: |Servers(minors, peers, client[j])| <= |Servers(minors, peers, client[i])|)
    && (forall j | 0 <= j < i :: |Servers(minors, peers, client[j])| < |Servers(minors, peers, client[i])|)
  }

  /** Raising the minor number of the chosen entry to what all its peers have makes it optimal. */
  lemma FirstBestOptimal(client: MultiApiVersion, peers: set<PeerId>, minors: Minors, i: nat, minor: nat)
    requires Consistent(client) && i < |client| && FirstBest(client, peers, minors, i)
    requires Servers(minors, peers, client[i]) != {}
    requires exists p <- Servers(minors, peers, client[i]) :: minors(p, client[i].major) == Some(minor)
    requires forall p <- Servers(minors, peers, client[i]) :: minor <= minors(p, client[i].major).value
    ensures Optimal(client, peers, minors, ApiVersion(client[i].major, minor))
  {
    var best := ApiVersion(client[i].major, minor);
    var chosen := Servers(minors, peers, client[i]);
    var p :| p in chosen && minors(p, client[i].major) == Some(minor);
    assert client[i] in client && client[i].minor <= minor;
    assert Servers(minors, peers, best) == chosen;
    forall v | Acceptable(client, v) ensures NoBetter(peers, minors, best, v) {
      var c :| c in client && c.major == v.major && c.minor <= v.minor;
      var j :| 0 <= j < |client| && client[j] == c;
      SubsetSize(Servers(minors, peers, v), Servers(minors, peers, c));
      if j == i && minor < v.minor {
        assert p in Servers(minors, peers, c) && p !in Servers(minors, peers, v);
      }
    }
  }

  /** Both loops of discovery: pick the major number, then the minor number. */
  method Discover(client: MultiApiVersion, peers: set<PeerId>, minors: Minors) returns (best: Option<ApiVersion>)
    requires Consistent(client)
    ensures best.Some? ==> Optimal(client, peers, minors, best.value)
    ensures best.None? ==> forall v | Acceptable(client, v) :: Servers(minors, peers, v) == {}
  {
    var chosen := 0;
    var most := 0;
    var k := 0;
    while k < |client|
      invariant 0 <= k <= |client|
      invariant most > 0 ==> chosen < k && most == |Servers(minors, peers, client[chosen])|
      invariant forall j | 0 <= j < k :: |Servers(minors, peers, client[j])| <= most
      invariant most > 0 ==> forall j | 0 <= j < chosen :: |Servers(minors, peers, client[j])| < most
    {
      var count := CountServers(peers, minors, client[k]);
      if most < count {
        chosen, most := k, count;
      }
      k := k + 1;
    }
    if most == 0 {
      forall v | Acceptable(client, v) ensures Servers(minors, peers, v) == {} {
        var c :| c in client && c.major == v.major && c.minor <= v.minor;
        assert Servers(minors, peers, v) <= Servers(minors, peers, c) == {};
      }
      return None;
    }
    var minor := SmallestMinor(peers, minors, client[chosen]);
    FirstBestOptimal(client, peers, minors, chosen, minor);
    return Some(ApiVersion(client[chosen].major, minor));
  }

  /** A peer that serves nothing the client can talk does not change what is optimal. */
  lemma UselessPeer(client: MultiApiVersion, peers: set<PeerId>, minors: Minors, q: PeerId, best: ApiVersion)
    requires forall v | Acceptable(client, v) :: !Serves(minors, q, v)
    ensures Optimal(client, peers + {q}, minors, best) <==> Optimal(client, peers, minors, best)
  {
    forall v | Acceptable(client, v) ensures Servers(minors, peers + {q}, v) == Servers(minors, peers, v) {
      assert !Serves(minors, q, v);
    }
    if Acceptable(client, best) {
      forall v | Acceptable(client, v)
        ensures NoBetter(peers + {q}, minors, best, v) <==> NoBetter(peers, minors, best, v)
      {
        assert Servers(minors, peers + {q}, v) == Servers(minors, peers, v);
        assert Servers(minors, peers + {q}, best) == Servers(minors, peers, best);
      }
    }
  }

  // ----- the core API and each module's API

  datatype ConsensusVersion = ConsensusVersion(major: nat, minor: nat)

  datatype CoreVersions = CoreVersions(coreConsensus: ConsensusVersion, api: MultiApiVersion)

  datatype ModuleVersions = ModuleVersions(
    coreConsensus: ConsensusVersion, moduleConsensus: ConsensusVersion, api: MultiApiVersion)

  datatype Summary = Summary(core: CoreVersions, modules: map<nat, ModuleVersions>)

  /** A peer of another consensus major version counts for nothing. */
  function CoreMinors(client: CoreVersions, peers: map<PeerId, Summary>): Minors {
    (p, major) =>
      if p !in peers || peers[p].core.coreConsensus.major != client.coreConsensus.major then None
      else MinorOf(peers[p].core.api, major)
  }

  /** For a module, both consensus major versions have to match, and the peer has to have the module. */
  function ModuleMinors(client: ModuleVersions, instance: nat, peers: map<PeerId, Summary>): Minors {
    (p, major) =>
      if p !in peers || instance !in peers[p].modules then None
      else
        var peer := peers[p].modules[instance];
        if peer.coreConsensus.major != client.coreConsensus.major then None
        else if peer.moduleConsensus.major != client.moduleConsensus.major then None
        else MinorOf(peer.api, major)
  }

  /** A list has the major number with at least the minor number. */
  ghost predicate Offers(api: MultiApiVersion, v: ApiVersion) {
    exists a <- api :: a.major == v.major && v.minor <= a.minor
  }

  lemma MinorOffers(api: MultiApiVersion, v: ApiVersion)
    requires Consistent(api)
    ensures (MinorOf(api, v.major).Some? && v.minor <= MinorOf(api, v.major).value) <==> Offers(api, v)
  {
    if i :| 0 <= i < |api| && api[i].major == v.major {
      MinorAt(api, i);
      assert api[i] in api;
      assert forall j | 0 <= j < |api| && j != i :: api[j].major != api[i].major;
    } else {
      MinorMissing(api, v.major);
    }
  }

  /** A peer serves a core version exactly if its consensus major version is the client's and it offers it. */
  lemma CoreServesExactly(client: CoreVersions, peers: map<PeerId, Summary>, p: PeerId, v: ApiVersion)
    requires forall q <- peers :: ConsistentSummary(peers[q])
    ensures Serves(CoreMinors(client, peers), p, v) <==>
      && p in peers && peers[p].core.coreConsensus.major == client.coreConsensus.major
      && Offers(peers[p].core.api, v)
  {
    if p in peers {
      MinorOffers(peers[p].core.api, v);
    }
  }

  /** For a module both consensus major versions have to be the client's. */
  lemma ModuleServesExactly(
      client: ModuleVersions, instance: nat, peers: map<PeerId, Summary>, p: PeerId, v: ApiVersion)
    requires forall q <- peers :: ConsistentSummary(peers[q])
    ensures Serves(ModuleMinors(client, instance, peers), p, v) <==>
      && p in peers && instance in peers[p].modules
      && peers[p].modules[instance].coreConsensus.major == client.coreConsensus.major
      && peers[p].modules[instance].moduleConsensus.major == client.moduleConsensus.major
      && Offers(peers[p].modules[instance].api, v)
  {
    if p in peers && instance in peers[p].modules {
      MinorOffers(peers[p].modules[instance].api, v);
    }
  }

  datatype ApiVersionSet = ApiVersionSet(core: ApiVersion, modules: map<nat, ApiVersion>)

  predicate ConsistentSummary(s: Summary) {
    Consistent(s.core.api) && forall m <- s.modules :: Consistent(s.modules[m].api)
  }

  /** Some version of a module that the client can talk is served. */
  ghost predicate ModuleServed(client: Summary, peers: map<PeerId, Summary>, m: nat)
    requires m in client.modules
  {
    exists v :: Acceptable(client.modules[m].api, v)
      && Servers(ModuleMinors(client.modules[m], m, peers), peers.Keys, v) != {}
  }

  ghost predicate ModuleOptimal(client: Summary, peers: map<PeerId, Summary>, m: nat, v: ApiVersion)
    requires m in client.modules
  {
    Optimal(client.modules[m].api, peers.Keys, ModuleMinors(client.modules[m], m, peers), v)
  }

  /**
   * The whole set: an error exactly when no core version is served; otherwise the optimal core
   * version and the optimal version of exactly those modules of which one is served.
   */
  method DiscoverSet(client: Summary, peers: map<PeerId, Summary>) returns (r: Option<ApiVersionSet>)
    requires ConsistentSummary(client) && forall p <- peers :: ConsistentSummary(peers[p])
    ensures r.None? <==> forall v | Acceptable(client.core.api, v) ::
      Servers(CoreMinors(client.core, peers), peers.Keys, v) == {}
    ensures r.Some? ==> Optimal(client.core.api, peers.Keys, CoreMinors(client.core, peers), r.value.core)
    ensures r.Some? ==> forall m ::
      m in r.value.modules <==> m in client.modules && ModuleServed(client, peers, m)
    ensures r.Some? ==> forall m <- r.value.modules :: ModuleOptimal(client, peers, m, r.value.modules[m])
  {
    var core := Discover(client.core.api, peers.Keys, CoreMinors(client.core, peers));
    if core.None? {
      return None;
    }
    var modules: map<nat, ApiVersion> := map[];
    var left := client.modules.Keys;
    while left != {}
      invariant left <= client.modules.Keys
      invariant forall m :: m in modules <==> m in client.modules && m !in left && ModuleServed(client, peers, m)
      invariant forall m <- modules :: ModuleOptimal(client, peers, m, modules[m])
      decreases left
    {
      var m :| m in left;
      left := left - {m};
      var version := Discover(client.modules[m].api, peers.Keys, ModuleMinors(client.modules[m], m, peers));
      if version.Some? {
        modules := modules[m := version.value];
      }
    }
    return Some(ApiVersionSet(core.value, modules));
  }
}
