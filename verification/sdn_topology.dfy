/** The node classification of `NetworkxSdnTopology`: a node's role is read
    off the first letter of its name, and links are selected by whether they
    touch a switch. */
module SdnTopology {
  import opened Wrappers
  import opened Seqs
  import opened Graphs

  /** Indexing the first letter of an empty name. */
  datatype SdnError = IndexError

  function StartsWith(n: Node, c: char): (r: bool)
    ensures r <==> |n| > 0 && n[0] == c
  {
    [c] <= n
  }

  predicate IsServer(n: Node)       { StartsWith(n, 's') }
  predicate IsCloud(n: Node)        { StartsWith(n, 'x') }
  predicate IsCloudGateway(n: Node) { StartsWith(n, 'g') }
  predicate IsHost(n: Node)         { StartsWith(n, 'h') }

  /** First letters of switches outside buildings: core, distribution,
      building routers, ... and cloud gateways. */
  const CoreSwitchLetters: set<char> := {'c', 'd', 'b', 'm', 'g'}
  /** First letters of switches inside a building (floor and room switches). */
  const BuildingSwitchLetters: set<char> := {'f', 'r'}

  /** `is_switch`; an empty name has no first letter and raises. */
  function IsSwitch(n: Node, includeBuilding: bool): (r: Result<bool, SdnError>)
    ensures r.Err? <==> |n| == 0
    ensures r == Ok(true) <==>
      |n| > 0 && (n[0] in CoreSwitchLetters || (includeBuilding && n[0] in BuildingSwitchLetters))
  {
    if |n| == 0 then Err(IndexError)
    else if includeBuilding then Ok(n[0] in BuildingSwitchLetters || n[0] in CoreSwitchLetters)
    else Ok(n[0] in CoreSwitchLetters)
  }

  /** Counting building switches only adds switches. */
  lemma SwitchModesNested(n: Node)
    ensures IsSwitch(n, false) == Ok(true) ==> IsSwitch(n, true) == Ok(true)
    ensures IsSwitch(n, true) != IsSwitch(n, false) <==> |n| > 0 && n[0] in BuildingSwitchLetters
  {
  }

  /** A cloud gateway is a switch in both modes; hosts, servers and clouds never are. */
  lemma RolesAgree(n: Node, includeBuilding: bool)
    ensures IsCloudGateway(n) ==> IsSwitch(n, includeBuilding) == Ok(true)
    ensures IsHost(n) || IsServer(n) || IsCloud(n) ==> IsSwitch(n, includeBuilding) == Ok(false)
  {
  }

  /** `get_servers`. */
  function GetServers(g: Graph): (r: seq<Node>)
    ensures forall n :: n in r <==> n in g.nodes && IsServer(n)
  {
    Filter(g.nodes, IsServer)
  }

  /** `get_clouds`. */
  function GetClouds(g: Graph): (r: seq<Node>)
    ensures forall n :: n in r <==> n in g.nodes && IsCloud(n)
  {
    Filter(g.nodes, IsCloud)
  }

  /** `get_cloud_gateways`. */
  function GetCloudGateways(g: Graph): (r: seq<Node>)
    ensures forall n :: n in r <==> n in g.nodes && IsCloudGateway(n)
  {
    Filter(g.nodes, IsCloudGateway)
  }

  /** A node's role as a switch, as `get_switches` tests it. */
  predicate SwitchIn(includeBuilding: bool, n: Node)
  {
    IsSwitch(n, includeBuilding) == Ok(true)
  }

  /** `get_switches`: every node name is inspected, so one empty name raises. */
  function GetSwitches(g: Graph, includeBuilding: bool): (r: Result<seq<Node>, SdnError>)
    ensures r.Err? <==> "" in g.nodes
    ensures r.Ok? ==> forall n :: n in r.value <==> n in g.nodes && IsSwitch(n, includeBuilding) == Ok(true)
  {
    if "" in g.nodes then Err(IndexError)
    else Ok(Filter(g.nodes, (n: Node) => SwitchIn(includeBuilding, n)))
  }

  /** The role lists keep the graph's node order: each works piecewise on any
      split of the node list, and lists a single node exactly when it has the
      role. With the count lemma below this pins every list down. */
  lemma RoleListsKeepOrder(a: seq<Node>, b: seq<Node>, links: seq<Link>, includeBuilding: bool)
    ensures GetServers(Graph(a + b, links)) == GetServers(Graph(a, links)) + GetServers(Graph(b, links))
    ensures GetClouds(Graph(a + b, links)) == GetClouds(Graph(a, links)) + GetClouds(Graph(b, links))
    ensures GetCloudGateways(Graph(a + b, links)) == GetCloudGateways(Graph(a, links)) + GetCloudGateways(Graph(b, links))
    ensures GetSwitches(Graph(a + b, links), includeBuilding).Ok? <==>
      GetSwitches(Graph(a, links), includeBuilding).Ok? && GetSwitches(Graph(b, links), includeBuilding).Ok?
    ensures GetSwitches(Graph(a + b, links), includeBuilding).Ok? ==>
      GetSwitches(Graph(a + b, links), includeBuilding).value ==
        GetSwitches(Graph(a, links), includeBuilding).value + GetSwitches(Graph(b, links), includeBuilding).value
  {
    FilterAppend(a, b, IsServer);
    FilterAppend(a, b, IsCloud);
    FilterAppend(a, b, IsCloudGateway);
    FilterAppend(a, b, (n: Node) => SwitchIn(includeBuilding, n));
  }

  /** A one-node graph lists its node in exactly the lists of its roles. */
  lemma RoleListsSingle(n: Node, links: seq<Link>, includeBuilding: bool)
    ensures GetServers(Graph([n], links)) == if IsServer(n) then [n] else []
    ensures GetClouds(Graph([n], links)) == if IsCloud(n) then [n] else []
    ensures GetCloudGateways(Graph([n], links)) == if IsCloudGateway(n) then [n] else []
    ensures GetSwitches(Graph([n], links), includeBuilding) ==
      if |n| == 0 then Err(IndexError) else if SwitchIn(includeBuilding, n) then Ok([n]) else Ok([])
  {
    assert [n][1..] == [];
    assert Filter([n], (m: Node) => SwitchIn(includeBuilding, m)) == if SwitchIn(includeBuilding, n) then [n] else [];
  }

  /** Every repetition of a node with the role is listed, and no other node. */
  lemma RoleListsCount(g: Graph, n: Node, includeBuilding: bool)
    ensures multiset(GetServers(g))[n] == if IsServer(n) then multiset(g.nodes)[n] else 0
    ensures multiset(GetClouds(g))[n] == if IsCloud(n) then multiset(g.nodes)[n] else 0
    ensures multiset(GetCloudGateways(g))[n] == if IsCloudGateway(n) then multiset(g.nodes)[n] else 0
    ensures GetSwitches(g, includeBuilding).Ok? ==>
      multiset(GetSwitches(g, includeBuilding).value)[n] == if SwitchIn(includeBuilding, n) then multiset(g.nodes)[n] else 0
  {
    FilterCount(g.nodes, IsServer, n);
    FilterCount(g.nodes, IsCloud, n);
    FilterCount(g.nodes, IsCloudGateway, n);
    FilterCount(g.nodes, (n: Node) => SwitchIn(includeBuilding, n), n);
  }

  /** The server, cloud and gateway lists never share a node, and every gateway is a switch. */
  lemma RoleListsDisjoint(g: Graph, includeBuilding: bool)
    ensures forall n :: n in GetServers(g) ==> n !in GetClouds(g) && n !in GetCloudGateways(g)
    ensures forall n :: n in GetClouds(g) ==> n !in GetCloudGateways(g)
    ensures GetSwitches(g, includeBuilding).Ok? ==>
      forall n :: n in GetCloudGateways(g) ==> n in GetSwitches(g, includeBuilding).value
  {
  }

  /** A link outside buildings: one of its ends is a switch outside a building. */
  predicate TouchesCoreSwitch(l: Link)
  {
    IsSwitch(l.u, false) == Ok(true) || IsSwitch(l.v, false) == Ok(true)
  }

  /** The selection test of `get_links`, with Python's short-circuit `or`:
      the second end is inspected only when the first is not a switch. */
  function Selected(includeBuilding: bool, l: Link): (r: Result<bool, SdnError>)
    ensures includeBuilding ==> r == Ok(true)
    ensures !includeBuilding ==>
      (r.Err? <==> |l.u| == 0 || (l.u[0] !in CoreSwitchLetters && |l.v| == 0))
    ensures !includeBuilding && r.Ok? ==> (r.value <==> TouchesCoreSwitch(l))
  {
    if includeBuilding then Ok(true)
    else match IsSwitch(l.u, false)
      case Err(e) => Err(e)
      case Ok(true) => Ok(true)
      case Ok(false) => IsSwitch(l.v, false)
  }

  /** `get_links` with attributes: the links passing `Selected`, in order; the first raising test raises. */
  function GetLinks(links: seq<Link>, includeBuilding: bool): (r: Result<seq<Link>, SdnError>)
    ensures r.Ok? <==> forall i :: 0 <= i < |links| ==> Selected(includeBuilding, links[i]).Ok?
    ensures r.Ok? ==> forall l :: l in r.value <==> l in links && Selected(includeBuilding, l) == Ok(true)
    ensures r.Ok? ==> |r.value| <= |links|
  {
    if |links| == 0 then Ok([])
    else
      var keep :- Selected(includeBuilding, links[0]);
      var rest :- GetLinks(links[1..], includeBuilding);
      Ok(if keep then [links[0]] + rest else rest)
  }

  /** `get_links` without attributes: the same selection, keeping only the end points. */
  function GetLinkEnds(links: seq<Link>, includeBuilding: bool): (r: Result<seq<Pair>, SdnError>)
  {
    if |links| == 0 then Ok([])
    else
      var keep :- Selected(includeBuilding, links[0]);
      var rest :- GetLinkEnds(links[1..], includeBuilding);
      Ok(if keep then [(links[0].u, links[0].v)] + rest else rest)
  }

  function Ends(links: seq<Link>): (r: seq<Pair>)
    ensures |r| == |links|
    ensures forall i :: 0 <= i < |links| ==> r[i] == (links[i].u, links[i].v)
  {
    seq(|links|, i requires 0 <= i < |links| => (links[i].u, links[i].v))
  }

  /** The two forms of `get_links` agree: the same outcome and, on success, the same links. */
  lemma {:induction false} LinkFormsAgree(links: seq<Link>, includeBuilding: bool)
    ensures GetLinkEnds(links, includeBuilding).Ok? <==> GetLinks(links, includeBuilding).Ok?
    ensures GetLinks(links, includeBuilding).Ok? ==>
      GetLinkEnds(links, includeBuilding).value == Ends(GetLinks(links, includeBuilding).value)
  {
    if |links| > 0 {
      LinkFormsAgree(links[1..], includeBuilding);
      var rest := GetLinks(links[1..], includeBuilding);
      if rest.Ok? {
        assert Ends([links[0]] + rest.value) == [(links[0].u, links[0].v)] + Ends(rest.value);
      }
    }
  }

  /** With building switches every link is returned; without, and with no
      empty names, exactly the links touching a switch outside a building. */
  lemma {:induction false} GetLinksReference(links: seq<Link>)
    requires forall i :: 0 <= i < |links| ==> |links[i].u| > 0 && |links[i].v| > 0
    ensures GetLinks(links, true) == Ok(links)
    ensures GetLinks(links, false) == Ok(Filter(links, TouchesCoreSwitch))
  {
    if |links| > 0 {
      GetLinksReference(links[1..]);
      assert links == [links[0]] + links[1..];
    }
  }
}
