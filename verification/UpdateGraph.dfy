/**
 * Choosing an update in the release graph (src/cincinnati/mod.rs), with the reading
 * of one graph node (src/rpm_ostree/mod.rs).
 */
module UpdateGraph {
  import opened Wrappers
  import opened Text
  import opened Releases
  import opened ReleaseSets

  const CHECKSUM_SCHEME := "checksum"
  const OCI_SCHEME := "oci"

  /** A graph node, with the two metadata entries that selection reads: payload scheme and age index. */
  datatype Node = Node(version: string, payload: string, scheme: Option<string>, ageIndex: Option<string>)

  datatype Graph = Graph(nodes: seq<Node>, edges: seq<(uint64, uint64)>)

  datatype NodeError =
    | EmptyVersion
    | EmptyPayload
    | MissingScheme
    | InvalidReference
    | UnexpectedScheme
    | MissingAgeIndex
    | InvalidAgeIndex

  datatype CincinnatiError = FailedNodeLookup | FailedNodeParsing

  /** The library's reader of image references. */
  type ReferenceParser = string -> Option<Reference>

  function PayloadFromNode(parse: ReferenceParser, node: Node): Result<Payload, NodeError> {
    if node.scheme.None? then Err(MissingScheme)
    else if node.scheme.value == CHECKSUM_SCHEME then Ok(Checksum(node.payload))
    else if node.scheme.value == OCI_SCHEME then
      match parse(node.payload)
      case Some(reference) => Ok(Pullspec(reference))
      case None => Err(InvalidReference)
    else Err(UnexpectedScheme)
  }

  function AgeFromNode(node: Node): Result<uint64, NodeError> {
    if node.ageIndex.None? then Err(MissingAgeIndex)
    else
      match ParseUnsigned(node.ageIndex.value, U64_MAX)
      case Some(age) => Ok(age)
      case None => Err(InvalidAgeIndex)
  }

  /** Build a release from a graph node. */
  function FromCincinnati(parse: ReferenceParser, node: Node): Result<Release, NodeError> {
    if node.version == "" then Err(EmptyVersion)
    else if node.payload == "" then Err(EmptyPayload)
    else
      match PayloadFromNode(parse, node)
      case Err(error) => Err(error)
      case Ok(payload) =>
        match AgeFromNode(node)
        case Err(error) => Err(error)
        case Ok(age) => Ok(Release(node.version, payload, Some(age)))
  }

  /** A way of reading nodes as releases. */
  type NodeReader = Node -> Result<Release, NodeError>

  /** The reader in use, for a given reader of image references. */
  function Reader(parse: ReferenceParser): NodeReader {
    (node: Node) => FromCincinnati(parse, node)
  }

  /** Whether a node describes the given deployment. */
  predicate IsSameChecksum(node: Node, deploy: Release) {
    if node.scheme == Some(OCI_SCHEME) then deploy.ImageReference() == Some(node.payload)
    else if node.scheme == Some(CHECKSUM_SCHEME) then
      deploy.payload.Checksum? && deploy.payload.checksum == node.payload
    else false
  }

  /** The position of the first node that describes the booted deployment. */
  function BootedPosition(nodes: seq<Node>, booted: Release): (position: Option<nat>)
    ensures position.Some? ==>
              position.value < |nodes| && IsSameChecksum(nodes[position.value], booted) &&
              forall i | 0 <= i < position.value :: !IsSameChecksum(nodes[i], booted)
    ensures position.None? ==> forall i | 0 <= i < |nodes| :: !IsSameChecksum(nodes[i], booted)
  {
    if nodes == [] then None
    else
      var last := |nodes| - 1;
      match BootedPosition(nodes[..last], booted)
      case Some(i) => Some(i)
      case None => if IsSameChecksum(nodes[last], booted) then Some(last) else None
  }

  /** The destinations of the edges that leave `position`, in edge order. */
  function TargetPositions(edges: seq<(uint64, uint64)>, position: nat): (targets: seq<uint64>)
    ensures forall t :: t in targets <==> (position, t) in edges
  {
    if edges == [] then []
    else
      assert edges == [edges[0]] + edges[1..];
      (if edges[0].0 == position then [edges[0].1] else []) + TargetPositions(edges[1..], position)
  }

  /** The releases at the first `k` target positions, or the error of the first bad one. */
  function CollectTargets(read: NodeReader, nodes: seq<Node>, targets: seq<uint64>, k: nat)
    : Result<ReleaseSet, CincinnatiError>
    requires k <= |targets|
  {
    if k == 0 then Ok([])
    else
      match CollectTargets(read, nodes, targets, k - 1)
      case Err(error) => Err(error)
      case Ok(updates) =>
        if targets[k - 1] >= |nodes| then Err(FailedNodeLookup)
        else
          match read(nodes[targets[k - 1]])
          case Err(_) => Err(FailedNodeParsing)
          case Ok(release) => Ok(Insert(updates, release))
  }

  /** The update targets of the node at `position`. */
  function UpdatesFrom(read: NodeReader, graph: Graph, position: nat): Result<ReleaseSet, CincinnatiError> {
    var targets := TargetPositions(graph.edges, position);
    CollectTargets(read, graph.nodes, targets, |targets|)
  }

  /** The releases among the first `k` nodes whose payload is in the given set. */
  function CollectDenied(read: NodeReader, nodes: seq<Node>, payloads: set<Payload>, k: nat): ReleaseSet
    requires k <= |nodes|
  {
    if k == 0 then []
    else
      var denied := CollectDenied(read, nodes, payloads, k - 1);
      match read(nodes[k - 1])
      case Err(_) => denied
      case Ok(release) => if release.payload in payloads then Insert(denied, release) else denied
  }

  /** The graph's releases whose payload is in the given set. */
  function DeniedIn(read: NodeReader, graph: Graph, payloads: set<Payload>): ReleaseSet {
    CollectDenied(read, graph.nodes, payloads, |graph.nodes|)
  }

  /** The whole selection, as a function of the graph and the agent's state. */
  function Select(read: NodeReader, graph: Graph, booted: Release, denylist: ReleaseSet, allowDowngrade: bool)
    : Result<Option<Release>, CincinnatiError>
  {
    match BootedPosition(graph.nodes, booted)
    case None => Ok(None)
    case Some(position) =>
      match read(graph.nodes[position])
      case Err(_) => Err(FailedNodeParsing)
      case Ok(current) =>
        match UpdatesFrom(read, graph, position)
        case Err(error) => Err(error)
        case Ok(updates) =>
          var candidates := Difference(updates, DeniedIn(read, graph, Payloads(denylist)));
          if candidates == [] then Ok(None)
          else
            var next := candidates[|candidates| - 1];
            if AtMost(next, current) && !allowDowngrade then Ok(None) else Ok(Some(next))
  }

  /** Match the denylisted deployments to their graph entries. */
  method FindDenylistedReleases(read: NodeReader, graph: Graph, deployments: ReleaseSet)
    returns (localReleases: ReleaseSet)
    ensures localReleases == DeniedIn(read, graph, Payloads(deployments))
  {
    localReleases := [];
    var localPayloads := Payloads(deployments);
    for i := 0 to |graph.nodes|
      invariant localReleases == CollectDenied(read, graph.nodes, localPayloads, i)
    {
      var release := read(graph.nodes[i]);
      if release.Ok? && release.value.payload in localPayloads {
        localReleases := Insert(localReleases, release.value);
      }
    }
  }

  /** Gather the update targets into an ordered set, stopping at the first bad one. */
  method TargetReleases(read: NodeReader, nodes: seq<Node>, targets: seq<uint64>)
    returns (updates: Result<ReleaseSet, CincinnatiError>)
    ensures updates == CollectTargets(read, nodes, targets, |targets|)
  {
    var releases: ReleaseSet := [];
    for i := 0 to |targets|
      invariant CollectTargets(read, nodes, targets, i) == Ok(releases)
    {
      if targets[i] >= |nodes| {
        FirstErrorStays(read, nodes, targets, i + 1, |targets|);
        return Err(FailedNodeLookup);
      }
      var release := read(nodes[targets[i]]);
      if release.Err? {
        FirstErrorStays(read, nodes, targets, i + 1, |targets|);
        return Err(FailedNodeParsing);
      }
      releases := Insert(releases, release.value);
    }
    return Ok(releases);
  }

  /** Walk the graph, looking for an update reachable from the booted deployment. */
  method FindUpdate(
    parse: ReferenceParser, graph: Graph, booted: Release, denylist: ReleaseSet, allowDowngrade: bool)
    returns (update: Result<Option<Release>, CincinnatiError>)
    ensures update == Select(Reader(parse), graph, booted, denylist, allowDowngrade)
  {
    var read := Reader(parse);
    var position := BootedPosition(graph.nodes, booted);
    if position.None? {
      return Ok(None);
    }
    var current := read(graph.nodes[position.value]);
    if current.Err? {
      return Err(FailedNodeParsing);
    }
    var denied := FindDenylistedReleases(read, graph, denylist);

    var collected := TargetReleases(read, graph.nodes, TargetPositions(graph.edges, position.value));
    if collected.Err? {
      return Err(collected.error);
    }

    var candidates := Difference(collected.value, denied);
    if candidates == [] {
      return Ok(None);
    }
    var next := candidates[|candidates| - 1];
    if AtMost(next, current.value) && !allowDowngrade {
      return Ok(None);
    }
    return Ok(Some(next));
  }

  lemma {:induction false} FirstErrorStays(
    read: NodeReader, nodes: seq<Node>, targets: seq<uint64>, i: nat, k: nat)
    requires i <= k <= |targets| && CollectTargets(read, nodes, targets, i).Err?
    ensures CollectTargets(read, nodes, targets, k) == CollectTargets(read, nodes, targets, i)
  {
    if i < k {
      FirstErrorStays(read, nodes, targets, i, k - 1);
    }
  }
}
