/** What the selection of an update guarantees, for every graph. */
module UpdateSelection {
  import opened Wrappers
  import opened Text
  import opened Releases
  import opened ReleaseSets
  import opened UpdateGraph

  ghost predicate ReadsAs(read: NodeReader, graph: Graph, t: nat, r: Release) {
    t < |graph.nodes| && read(graph.nodes[t]) == Ok(r)
  }

  /** Position `t` is outside the graph, or its node cannot be read as a release. */
  ghost predicate IsBad(read: NodeReader, graph: Graph, t: nat) {
    t >= |graph.nodes| || read(graph.nodes[t]).Err?
  }

  /** `r` is the release at the end of an edge that leaves `position`. */
  ghost predicate IsTarget(read: NodeReader, graph: Graph, position: nat, r: Release) {
    exists t: uint64 :: (position, t) in graph.edges && ReadsAs(read, graph, t, r)
  }

  /** Some edge that leaves `position` ends outside the graph or at an unreadable node. */
  ghost predicate HasBadTarget(read: NodeReader, graph: Graph, position: nat) {
    exists t: uint64 :: (position, t) in graph.edges && IsBad(read, graph, t)
  }

  ghost predicate InGraph(read: NodeReader, graph: Graph, r: Release) {
    exists i :: ReadsAs(read, graph, i, r)
  }

  /** `r` compares equal to a release of the graph that carries one of the payloads. */
  ghost predicate IsDenied(read: NodeReader, graph: Graph, payloads: set<Payload>, r: Release) {
    exists d :: InGraph(read, graph, d) && d.payload in payloads && Cmp(d, r) == Equal
  }

  ghost predicate IsCandidate(read: NodeReader, graph: Graph, position: nat, payloads: set<Payload>, r: Release) {
    IsTarget(read, graph, position, r) && !IsDenied(read, graph, payloads, r)
  }

  /** The graph's entry for a release. */
  function NodeOf(version: string, payload: Payload, age: uint64): Node {
    Node(
      version, payload.ToString(), Some(if payload.Checksum? then CHECKSUM_SCHEME else OCI_SCHEME),
      Some(PrintNat(age)))
  }

  /**
   * A release written as a graph node reads back as itself, if its version and payload
   * text are not empty and the library reads back the reference it prints; and the node
   * describes exactly the deployments with that kind and text of payload.
   */
  lemma NodeReadsBack(parse: ReferenceParser, version: string, payload: Payload, age: uint64, deploy: Release)
    requires payload.Pullspec? ==> parse(payload.reference.whole) == Some(payload.reference)
    ensures FromCincinnati(parse, NodeOf(version, payload, age)) == Ok(Release(version, payload, Some(age)))
            <==> version != "" && payload.ToString() != ""
    ensures IsSameChecksum(NodeOf(version, payload, age), deploy) <==>
            deploy.payload.Checksum? == payload.Checksum? && deploy.payload.ToString() == payload.ToString()
  {
    var limit: nat := U64_MAX;
    ParsePrinted(age, limit);
    hide ParseUnsigned, PrintNat;
  }

  /** The node names a version and a payload, of a known scheme and readable, and has a 64-bit age index. */
  predicate Readable(parse: ReferenceParser, node: Node) {
    && node.version != "" && node.payload != ""
    && (node.scheme == Some("checksum") || (node.scheme == Some("oci") && parse(node.payload).Some?))
    && node.ageIndex.Some? && ParseUnsigned(node.ageIndex.value, U64_MAX).Some?
  }

  /** Which error an unreadable node gives: the first of these checks that fails. */
  lemma NodeErrorExactly(parse: ReferenceParser, node: Node, error: NodeError)
    ensures FromCincinnati(parse, node) == Err(error) <==>
            match error
            case EmptyVersion => node.version == ""
            case EmptyPayload => node.version != "" && node.payload == ""
            case MissingScheme => node.version != "" && node.payload != "" && node.scheme == None
            case UnexpectedScheme =>
              && node.version != "" && node.payload != ""
              && node.scheme.Some? && node.scheme.value != "checksum" && node.scheme.value != "oci"
            case InvalidReference =>
              node.version != "" && node.payload != "" && node.scheme == Some("oci") && parse(node.payload) == None
            case MissingAgeIndex => HasPayload(parse, node) && node.ageIndex == None
            case InvalidAgeIndex =>
              HasPayload(parse, node) && node.ageIndex.Some? && ParseUnsigned(node.ageIndex.value, U64_MAX) == None
  {
    hide ParseUnsigned;
  }

  predicate HasPayload(parse: ReferenceParser, node: Node) {
    && node.version != "" && node.payload != ""
    && (node.scheme == Some("checksum") || (node.scheme == Some("oci") && parse(node.payload).Some?))
  }

  lemma ReadableExactly(parse: ReferenceParser, node: Node)
    ensures FromCincinnati(parse, node).Ok? <==> Readable(parse, node)
  {
  }

  lemma {:induction false} CollectFailsExactly(read: NodeReader, graph: Graph, targets: seq<uint64>, k: nat)
    requires k <= |targets|
    ensures CollectTargets(read, graph.nodes, targets, k).Err? <==> exists i :: 0 <= i < k && IsBad(read, graph, targets[i])
  {
    hide Insert, Ascending, Cmp;
    if k > 0 {
      CollectFailsExactly(read, graph, targets, k - 1);
    }
  }

  lemma {:induction false} CollectedAreTargets(
    read: NodeReader, graph: Graph, targets: seq<uint64>, k: nat, updates: ReleaseSet, r: Release)
    returns (i: nat)
    requires k <= |targets| && CollectTargets(read, graph.nodes, targets, k) == Ok(updates) && r in updates
    ensures i < k && ReadsAs(read, graph, targets[i], r)
  {
    hide Cmp, Ascending;
    if read(graph.nodes[targets[k - 1]]) == Ok(r) {
      i := k - 1;
    } else {
      i := CollectedAreTargets(
        read, graph, targets, k - 1, CollectTargets(read, graph.nodes, targets, k - 1).value, r);
    }
  }

  lemma {:induction false} TargetsAreCollected(
    read: NodeReader, graph: Graph, targets: seq<uint64>, k: nat, updates: ReleaseSet, i: nat, r: Release)
    requires i < k <= |targets| && CollectTargets(read, graph.nodes, targets, k) == Ok(updates)
    requires ReadsAs(read, graph, targets[i], r)
    ensures Has(updates, r)
  {
    hide Cmp, Ascending;
    var before := CollectTargets(read, graph.nodes, targets, k - 1).value;
    if i == k - 1 {
      InsertedIsPresent(before, r);
    } else {
      TargetsAreCollected(read, graph, targets, k - 1, before, i, r);
      HasInLarger(before, updates, r);
    }
  }

  lemma {:induction false} DeniedAreInGraph(
    read: NodeReader, graph: Graph, payloads: set<Payload>, k: nat, r: Release)
    requires k <= |graph.nodes| && r in CollectDenied(read, graph.nodes, payloads, k)
    ensures InGraph(read, graph, r) && r.payload in payloads
  {
    hide Cmp, Ascending;
    if r in CollectDenied(read, graph.nodes, payloads, k - 1) {
      DeniedAreInGraph(read, graph, payloads, k - 1, r);
    } else {
      assert ReadsAs(read, graph, k - 1, r);
    }
  }

  lemma {:induction false} GraphDeniedAreCollected(
    read: NodeReader, graph: Graph, payloads: set<Payload>, k: nat, i: nat, r: Release)
    requires i < k <= |graph.nodes| && ReadsAs(read, graph, i, r) && r.payload in payloads
    ensures Has(CollectDenied(read, graph.nodes, payloads, k), r)
  {
    hide Cmp, Ascending;
    var before := CollectDenied(read, graph.nodes, payloads, k - 1);
    if i == k - 1 {
      InsertedIsPresent(before, r);
    } else {
      GraphDeniedAreCollected(read, graph, payloads, k - 1, i, r);
      HasInLarger(before, CollectDenied(read, graph.nodes, payloads, k), r);
    }
  }

  /** A release is filtered out exactly when it is denied. */
  lemma DeniedExactly(read: NodeReader, graph: Graph, payloads: set<Payload>, r: Release)
    ensures Contains(DeniedIn(read, graph, payloads), r) <==> IsDenied(read, graph, payloads, r)
  {
    var denied := DeniedIn(read, graph, payloads);
    if Has(denied, r) {
      var x :| x in denied && Cmp(x, r) == Equal;
      DeniedAreInGraph(read, graph, payloads, |graph.nodes|, x);
    }
    if IsDenied(read, graph, payloads, r) {
      var d :| InGraph(read, graph, d) && d.payload in payloads && Cmp(d, r) == Equal;
      var i :| ReadsAs(read, graph, i, d);
      GraphDeniedAreCollected(read, graph, payloads, |graph.nodes|, i, d);
      HasTransfers(denied, d, r);
    }
  }

  lemma UpdatesFailExactly(read: NodeReader, graph: Graph, position: nat)
    ensures UpdatesFrom(read, graph, position).Err? <==> HasBadTarget(read, graph, position)
  {
    var targets := TargetPositions(graph.edges, position);
    CollectFailsExactly(read, graph, targets, |targets|);
    if i :| 0 <= i < |targets| && IsBad(read, graph, targets[i]) {
      assert targets[i] in targets;
    }
  }

  /** When the selection fails: an unreadable booted node, or a bad edge target. */
  lemma SelectFailsExactly(
    read: NodeReader, graph: Graph, booted: Release, denylist: ReleaseSet, allowDowngrade: bool)
    ensures Select(read, graph, booted, denylist, allowDowngrade).Err? <==>
              var position := BootedPosition(graph.nodes, booted);
              position.Some? &&
              (read(graph.nodes[position.value]).Err? || HasBadTarget(read, graph, position.value))
  {
    var position := BootedPosition(graph.nodes, booted);
    if position.Some? {
      UpdatesFailExactly(read, graph, position.value);
    }
  }

  /** The node at the position is missing, or not readable. */
  ghost predicate Broken(parse: ReferenceParser, graph: Graph, t: nat) {
    t >= |graph.nodes| || !Readable(parse, graph.nodes[t])
  }

  /** When looking for an update fails, in terms of the graph: the booted node, or one that it leads to, is broken. */
  lemma FindFailsExactly(
    parse: ReferenceParser, graph: Graph, booted: Release, denylist: ReleaseSet, allowDowngrade: bool)
    ensures Select(Reader(parse), graph, booted, denylist, allowDowngrade).Err? <==>
              var position := BootedPosition(graph.nodes, booted);
              position.Some? &&
              (Broken(parse, graph, position.value)
               || exists t: uint64 :: (position.value, t) in graph.edges && Broken(parse, graph, t))
  {
    SelectFailsExactly(Reader(parse), graph, booted, denylist, allowDowngrade);
    hide Select, FromCincinnati, Readable;
    forall t: nat ensures IsBad(Reader(parse), graph, t) <==> Broken(parse, graph, t) {
      if t < |graph.nodes| {
        ReadableExactly(parse, graph.nodes[t]);
      }
    }
  }

  /** A booted deployment that is not in the graph gets no update, whatever the settings. */
  lemma NotInGraph(read: NodeReader, graph: Graph, booted: Release, denylist: ReleaseSet, allowDowngrade: bool)
    requires forall i: nat | i < |graph.nodes| :: !IsSameChecksum(graph.nodes[i], booted)
    ensures Select(read, graph, booted, denylist, allowDowngrade) == Ok(None)
  {
  }

  lemma FirstBadTarget(read: NodeReader, graph: Graph, targets: seq<uint64>, i: nat)
    requires i < |targets| && IsBad(read, graph, targets[i]) && forall j: nat | j < i :: !IsBad(read, graph, targets[j])
    ensures CollectTargets(read, graph.nodes, targets, |targets|) ==
            Err(if targets[i] >= |graph.nodes| then FailedNodeLookup else FailedNodeParsing)
  {
    hide Cmp, Ascending, Insert;
    CollectFailsExactly(read, graph, targets, i);
    assert CollectTargets(read, graph.nodes, targets, i).Ok?;
    assert CollectTargets(read, graph.nodes, targets, i + 1) ==
           Err(if targets[i] >= |graph.nodes| then FailedNodeLookup else FailedNodeParsing);
    hide CollectTargets;
    UpdateGraph.FirstErrorStays(read, graph.nodes, targets, i + 1, |targets|);
  }

  /** The first bad target in edge order decides which error is given. */
  lemma FirstBadDecides(
    read: NodeReader, graph: Graph, booted: Release, denylist: ReleaseSet, allowDowngrade: bool, position: nat, i: nat)
    requires BootedPosition(graph.nodes, booted) == Some(position) && read(graph.nodes[position]).Ok?
    requires var targets := TargetPositions(graph.edges, position);
             i < |targets| && IsBad(read, graph, targets[i]) && forall j: nat | j < i :: !IsBad(read, graph, targets[j])
    ensures Select(read, graph, booted, denylist, allowDowngrade) ==
            Err(if TargetPositions(graph.edges, position)[i] >= |graph.nodes| then FailedNodeLookup else FailedNodeParsing)
  {
    FirstBadTarget(read, graph, TargetPositions(graph.edges, position), i);
    hide TargetPositions, BootedPosition, Cmp, Ascending, Insert, CollectTargets;
  }

  /** An unreadable booted node comes before any bad target. */
  lemma BadBootedNode(
    read: NodeReader, graph: Graph, booted: Release, denylist: ReleaseSet, allowDowngrade: bool, position: nat)
    requires BootedPosition(graph.nodes, booted) == Some(position) && read(graph.nodes[position]).Err?
    ensures Select(read, graph, booted, denylist, allowDowngrade) == Err(FailedNodeParsing)
  {
  }

  /**
   * What the selection returns: the greatest candidate, unless downgrades are off and
   * every candidate is at most the current release, or there is no candidate.
   */
  lemma SelectExactly(
    read: NodeReader, graph: Graph, booted: Release, denylist: ReleaseSet, allowDowngrade: bool,
    position: nat, current: Release)
    requires BootedPosition(graph.nodes, booted) == Some(position)
    requires read(graph.nodes[position]) == Ok(current)
    requires !HasBadTarget(read, graph, position)
    ensures match Select(read, graph, booted, denylist, allowDowngrade)
            case Ok(Some(next)) =>
              && IsCandidate(read, graph, position, Payloads(denylist), next)
              && (forall c :: IsCandidate(read, graph, position, Payloads(denylist), c) ==> AtMost(c, next))
              && (allowDowngrade || Cmp(next, current) == Greater)
            case Ok(None) =>
              forall c :: IsCandidate(read, graph, position, Payloads(denylist), c) ==>
                !allowDowngrade && AtMost(c, current)
            case Err(_) => false
  {
    UpdatesFailExactly(read, graph, position);
    hide Cmp, UpdatesFrom, DeniedIn, Difference, BootedPosition, IsCandidate, HasBadTarget;
    var updates := UpdatesFrom(read, graph, position).value;
    var payloads := Payloads(denylist);
    var candidates := Difference(updates, DeniedIn(read, graph, payloads));
    LastBoundsCandidates(read, graph, position, payloads, updates);
    if candidates != [] {
      CandidatesAreRight(read, graph, position, payloads, updates, candidates[|candidates| - 1]);
      BoundsCompose(read, graph, position, payloads, candidates[|candidates| - 1], current);
    }
  }

  lemma LastBoundsCandidates(read: NodeReader, graph: Graph, position: nat, payloads: set<Payload>, updates: ReleaseSet)
    requires UpdatesFrom(read, graph, position) == Ok(updates)
    ensures var candidates := Difference(updates, DeniedIn(read, graph, payloads));
            forall c :: IsCandidate(read, graph, position, payloads, c) ==>
              candidates != [] && AtMost(c, candidates[|candidates| - 1])
  {
    hide Difference, DeniedIn, UpdatesFrom, IsCandidate, Ascending, Cmp;
    var candidates := Difference(updates, DeniedIn(read, graph, payloads));
    forall c | IsCandidate(read, graph, position, payloads, c)
      ensures candidates != [] && AtMost(c, candidates[|candidates| - 1])
    {
      CandidateRepresented(read, graph, position, payloads, updates, c);
    }
  }

  lemma BoundsCompose(
    read: NodeReader, graph: Graph, position: nat, payloads: set<Payload>, next: Release, current: Release)
    requires forall c :: IsCandidate(read, graph, position, payloads, c) ==> AtMost(c, next)
    ensures Cmp(next, current) != Greater ==>
              forall c :: IsCandidate(read, graph, position, payloads, c) ==> AtMost(c, current)
  {
    if AtMost(next, current) {
      forall c | IsCandidate(read, graph, position, payloads, c) ensures AtMost(c, current) {
        CmpTransitive(c, next, current);
      }
    }
  }

  lemma CandidatesAreRight(
    read: NodeReader, graph: Graph, position: nat, payloads: set<Payload>, updates: ReleaseSet, c: Release)
    requires UpdatesFrom(read, graph, position) == Ok(updates)
    requires c in Difference(updates, DeniedIn(read, graph, payloads))
    ensures IsCandidate(read, graph, position, payloads, c)
  {
    DeniedExactly(read, graph, payloads, c);
    var targets := TargetPositions(graph.edges, position);
    var i := CollectedAreTargets(read, graph, targets, |targets|, updates, c);
    assert targets[i] in targets;
  }

  lemma TargetRepresented(read: NodeReader, graph: Graph, position: nat, updates: ReleaseSet, c: Release)
    requires UpdatesFrom(read, graph, position) == Ok(updates) && IsTarget(read, graph, position, c)
    ensures Has(updates, c)
  {
    hide Cmp, CollectTargets, Ascending;
    var t: uint64 :| (position, t) in graph.edges && ReadsAs(read, graph, t, c);
    var targets := TargetPositions(graph.edges, position);
    var i :| 0 <= i < |targets| && targets[i] == t;
    TargetsAreCollected(read, graph, targets, |targets|, updates, i, c);
  }

  lemma CandidateRepresented(
    read: NodeReader, graph: Graph, position: nat, payloads: set<Payload>, updates: ReleaseSet, c: Release)
    requires UpdatesFrom(read, graph, position) == Ok(updates)
    requires IsCandidate(read, graph, position, payloads, c)
    ensures var candidates := Difference(updates, DeniedIn(read, graph, payloads));
            candidates != [] && AtMost(c, candidates[|candidates| - 1])
  {
    hide Cmp, UpdatesFrom, DeniedIn, IsTarget, IsDenied, Ascending, AtMost, Difference;
    TargetRepresented(read, graph, position, updates, c);
    var x :| x in updates && Cmp(x, c) == Equal;
    var denied := DeniedIn(read, graph, payloads);
    DeniedExactly(read, graph, payloads, c);
    if Has(denied, x) { HasTransfers(denied, x, c); }
    assert x in Difference(updates, denied);
    LastIsAtLeast(Difference(updates, denied), c);
  }

  /** A selected release is in the graph and its payload is not denylisted, whatever payload texts coincide. */
  lemma SelectedIsNotDenylisted(
    read: NodeReader, graph: Graph, booted: Release, denylist: ReleaseSet, allowDowngrade: bool, next: Release)
    requires Select(read, graph, booted, denylist, allowDowngrade) == Ok(Some(next))
    ensures InGraph(read, graph, next)
    ensures next.payload !in Payloads(denylist)
  {
    var position := BootedPosition(graph.nodes, booted).value;
    var current := read(graph.nodes[position]).value;
    SelectFailsExactly(read, graph, booted, denylist, allowDowngrade);
    SelectExactly(read, graph, booted, denylist, allowDowngrade, position, current);
    var t: uint64 :| (position, t) in graph.edges && ReadsAs(read, graph, t, next);
    CmpIsTotalPreorder(next, next, next);
  }

  /** Another payload of the graph prints the same text, at the same age and version, and is denylisted. */
  ghost predicate HasDeniedTwin(read: NodeReader, graph: Graph, payloads: set<Payload>, r: Release) {
    exists d :: InGraph(read, graph, d) && d.payload in payloads && d.payload != r.payload && Cmp(d, r) == Equal
  }

  /** A release of the graph is denied exactly for its own payload, or for a twin's. */
  lemma DeniedForPayloadOrTwin(read: NodeReader, graph: Graph, payloads: set<Payload>, r: Release)
    requires InGraph(read, graph, r)
    ensures IsDenied(read, graph, payloads, r) <==>
            r.payload in payloads || HasDeniedTwin(read, graph, payloads, r)
    ensures TextInjective(payloads + {r.payload}) ==> !HasDeniedTwin(read, graph, payloads, r)
  {
    CmpIsTotalPreorder(r, r, r);
    if HasDeniedTwin(read, graph, payloads, r) {
      var d :| InGraph(read, graph, d) && d.payload in payloads && d.payload != r.payload && Cmp(d, r) == Equal;
      CmpEqualExactly(d, r);
    }
  }

  /** The ascending elements above `current`. */
  function NewerThan(s: ReleaseSet, current: Release): (newer: seq<Release>)
    ensures forall x :: x in newer <==> x in s && !AtMost(x, current)
  {
    if s == [] then []
    else
      assert s == [s[0]] + s[1..];
      (if AtMost(s[0], current) then [] else [s[0]]) + NewerThan(s[1..], current)
  }

  /** The newer elements are the end of the set, so its last element decides. */
  lemma {:induction false} NewerKeepsLast(s: ReleaseSet, current: Release)
    requires s != []
    ensures var newer := NewerThan(s, current);
            if AtMost(s[|s| - 1], current) then newer == [] else newer != [] && newer[|newer| - 1] == s[|s| - 1]
  {
    hide Cmp;
    if |s| > 1 {
      var last := s[|s| - 1];
      NewerKeepsLast(s[1..], current);
      assert s[1..][|s| - 2] == last;
      if AtMost(last, current) {
        LastIsGreatest(s, s[0]);
        CmpTransitive(s[0], last, current);
      }
    } else {
      assert NewerThan(s[1..], current) == [];
    }
  }

  /**
   * With downgrades off, testing only the greatest candidate picks the same release as
   * dropping every candidate that is not newer than the current one and taking the last.
   */
  lemma DowngradeTestIsFilter(
    read: NodeReader, graph: Graph, booted: Release, denylist: ReleaseSet, position: nat, current: Release,
    updates: ReleaseSet)
    requires BootedPosition(graph.nodes, booted) == Some(position)
    requires read(graph.nodes[position]) == Ok(current)
    requires UpdatesFrom(read, graph, position) == Ok(updates)
    ensures var newer := NewerThan(Difference(updates, DeniedIn(read, graph, Payloads(denylist))), current);
            Select(read, graph, booted, denylist, false) ==
            Ok(if newer == [] then None else Some(newer[|newer| - 1]))
  {
    var candidates := Difference(updates, DeniedIn(read, graph, Payloads(denylist)));
    if candidates != [] {
      NewerKeepsLast(candidates, current);
    }
  }
}
