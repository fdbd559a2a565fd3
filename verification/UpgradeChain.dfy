/** Repeated updates on a fixed graph: pick, reboot into the pick, pick again. */
module UpgradeChain {
  import opened Wrappers
  import opened FiniteSets
  import opened Releases
  import opened ReleaseSets
  import opened UpdateGraph
  import opened UpdateSelection

  ghost predicate DistinctPayloads(graph: Graph) {
    forall i, j | 0 <= i < j < |graph.nodes| :: graph.nodes[i].payload != graph.nodes[j].payload
  }

  /** Printing a parsed reference gives back the graph's text for it. */
  ghost predicate ParserAgrees(parse: ReferenceParser, graph: Graph) {
    forall i | 0 <= i < |graph.nodes| && parse(graph.nodes[i].payload).Some? ::
      parse(graph.nodes[i].payload).value.whole == graph.nodes[i].payload
  }

  /** One update with downgrades off: the deployment booted afterwards carries the selected payload. */
  ghost predicate Upgrades(parse: ReferenceParser, graph: Graph, before: Release, denylist: ReleaseSet, after: Release) {
    var update := Select(Reader(parse), graph, before, denylist, false);
    update.Ok? && update.value.Some? && update.value.value.payload == after.payload
  }

  /** The deployments booted one after the other, with the denylist in force at each check. */
  ghost predicate IsChain(parse: ReferenceParser, graph: Graph, boots: seq<Release>, denylists: seq<ReleaseSet>) {
    && |boots| == |denylists| + 1
    && forall i | 0 <= i < |denylists| :: UpgradesAt(parse, graph, boots, denylists, i)
  }

  ghost predicate UpgradesAt(
    parse: ReferenceParser, graph: Graph, boots: seq<Release>, denylists: seq<ReleaseSet>, i: nat)
    requires i < |denylists| && |boots| == |denylists| + 1
  {
    Upgrades(parse, graph, boots[i], denylists[i], boots[i + 1])
  }

  /** The graph's own release for a booted deployment. */
  function CurrentRelease(parse: ReferenceParser, graph: Graph, booted: Release): Option<Release> {
    match BootedPosition(graph.nodes, booted)
    case None => None
    case Some(position) =>
      match FromCincinnati(parse, graph.nodes[position])
      case Ok(release) => Some(release)
      case Err(_) => None
  }

  /** Both deployments are in the graph, the second at a strictly greater release. */
  ghost predicate Climbs(parse: ReferenceParser, graph: Graph, before: Release, after: Release) {
    && CurrentRelease(parse, graph, before).Some?
    && CurrentRelease(parse, graph, after).Some?
    && Cmp(CurrentRelease(parse, graph, before).value, CurrentRelease(parse, graph, after).value) == Less
  }

  lemma SelectedIsBootedNext(
    parse: ReferenceParser, graph: Graph, t: nat, next: Release, after: Release)
    requires DistinctPayloads(graph) && ParserAgrees(parse, graph)
    requires ReadsAs(Reader(parse), graph, t, next) && after.payload == next.payload
    ensures CurrentRelease(parse, graph, after) == Some(next)
  {
  }

  /** One update strictly climbs in the release order. */
  lemma UpgradeClimbs(parse: ReferenceParser, graph: Graph, before: Release, denylist: ReleaseSet, after: Release)
    requires DistinctPayloads(graph) && ParserAgrees(parse, graph)
    requires Upgrades(parse, graph, before, denylist, after)
    ensures Climbs(parse, graph, before, after)
  {
    var position := BootedPosition(graph.nodes, before).value;
    var current := FromCincinnati(parse, graph.nodes[position]).value;
    var next := Select(Reader(parse), graph, before, denylist, false).value.value;
    SelectFailsExactly(Reader(parse), graph, before, denylist, false);
    SelectExactly(Reader(parse), graph, before, denylist, false, position, current);
    SelectedIsNotDenylisted(Reader(parse), graph, before, denylist, false, next);
    var t :| ReadsAs(Reader(parse), graph, t, next);
    SelectedIsBootedNext(parse, graph, t, next, after);
    CmpReverse(next, current);
  }

  ghost predicate ClimbsAt(parse: ReferenceParser, graph: Graph, boots: seq<Release>, k: nat)
    requires k + 1 < |boots|
  {
    Climbs(parse, graph, boots[k], boots[k + 1])
  }

  lemma {:induction false} StepsCompose(parse: ReferenceParser, graph: Graph, boots: seq<Release>, i: nat, j: nat)
    requires i < j < |boots|
    requires forall k | 0 <= k < |boots| - 1 :: ClimbsAt(parse, graph, boots, k)
    ensures Climbs(parse, graph, boots[i], boots[j])
    decreases j
  {
    hide CurrentRelease, Cmp;
    assert ClimbsAt(parse, graph, boots, j - 1);
    if i < j - 1 {
      StepsCompose(parse, graph, boots, i, j - 1);
      CmpTransitive(CurrentRelease(parse, graph, boots[i]).value, CurrentRelease(parse, graph, boots[j - 1]).value,
                    CurrentRelease(parse, graph, boots[j]).value);
    }
  }

  /** Later boots are strictly greater releases. */
  lemma ChainClimbs(parse: ReferenceParser, graph: Graph, boots: seq<Release>, denylists: seq<ReleaseSet>)
    requires DistinctPayloads(graph) && ParserAgrees(parse, graph) && IsChain(parse, graph, boots, denylists)
    ensures forall i, j | 0 <= i < j < |boots| :: Climbs(parse, graph, boots[i], boots[j])
  {
    forall k | 0 <= k < |boots| - 1 ensures ClimbsAt(parse, graph, boots, k) {
      assert UpgradesAt(parse, graph, boots, denylists, k);
      UpgradeClimbs(parse, graph, boots[k], denylists[k], boots[k + 1]);
    }
    forall i, j | 0 <= i < j < |boots| ensures Climbs(parse, graph, boots[i], boots[j]) {
      StepsCompose(parse, graph, boots, i, j);
    }
  }

  /** The graph positions of the booted deployments. */
  ghost function Positions(nodes: seq<Node>, boots: seq<Release>): set<int> {
    if boots == [] then {}
    else
      var position := BootedPosition(nodes, boots[|boots| - 1]);
      Positions(nodes, boots[..|boots| - 1]) + if position.Some? then {position.value as int} else {}
  }

  lemma {:induction false} PositionOfSomeBoot(nodes: seq<Node>, boots: seq<Release>, p: int) returns (i: nat)
    requires p in Positions(nodes, boots)
    ensures i < |boots| && 0 <= p < |nodes| && BootedPosition(nodes, boots[i]) == Some(p)
  {
    var last := |boots| - 1;
    if BootedPosition(nodes, boots[last]) == Some(p) {
      i := last;
    } else {
      i := PositionOfSomeBoot(nodes, boots[..last], p);
    }
  }

  lemma {:induction false} DistinctPositions(nodes: seq<Node>, boots: seq<Release>)
    requires forall i | 0 <= i < |boots| :: BootedPosition(nodes, boots[i]).Some?
    requires forall i, j | 0 <= i < j < |boots| :: BootedPosition(nodes, boots[i]) != BootedPosition(nodes, boots[j])
    ensures |Positions(nodes, boots)| == |boots|
  {
    if boots != [] {
      var last := |boots| - 1;
      DistinctPositions(nodes, boots[..last]);
      var p := BootedPosition(nodes, boots[last]).value;
      if p in Positions(nodes, boots[..last]) {
        var i := PositionOfSomeBoot(nodes, boots[..last], p);
      }
    }
  }

  /** Upgrades on a fixed graph end: there are fewer of them than nodes, and no payload is booted twice. */
  lemma UpgradesAreBounded(parse: ReferenceParser, graph: Graph, boots: seq<Release>, denylists: seq<ReleaseSet>)
    requires DistinctPayloads(graph) && ParserAgrees(parse, graph) && IsChain(parse, graph, boots, denylists)
    ensures denylists != [] ==> |denylists| + 1 <= |graph.nodes|
    ensures forall i, j | 0 <= i < j < |boots| :: boots[i].payload != boots[j].payload
  {
    ChainClimbs(parse, graph, boots, denylists);
    forall i, j | 0 <= i < j < |boots|
      ensures BootedPosition(graph.nodes, boots[i]) != BootedPosition(graph.nodes, boots[j])
      ensures boots[i].payload != boots[j].payload
    {
      ClimbingMoves(parse, graph, boots[i], boots[j]);
    }
    if denylists != [] {
      forall i | 0 <= i < |boots| ensures BootedPosition(graph.nodes, boots[i]).Some? {
        assert if i == 0 then Climbs(parse, graph, boots[0], boots[1]) else Climbs(parse, graph, boots[0], boots[i]);
      }
      DistinctPositions(graph.nodes, boots);
      forall p | p in Positions(graph.nodes, boots) ensures p in Interval(0, |graph.nodes|) {
        var i := PositionOfSomeBoot(graph.nodes, boots, p);
      }
      SubsetSize(Positions(graph.nodes, boots), Interval(0, |graph.nodes|));
      IntervalSize(0, |graph.nodes|);
    }
  }

  lemma ClimbingMoves(parse: ReferenceParser, graph: Graph, before: Release, after: Release)
    requires Climbs(parse, graph, before, after)
    ensures BootedPosition(graph.nodes, before) != BootedPosition(graph.nodes, after)
    ensures before.payload != after.payload
  {
  }

}
