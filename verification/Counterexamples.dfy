/**
 * Concrete inputs for which the release order, coarser than equality, defeats the
 * denylist: an update that is offered and abandoned for ever, and one that is never offered.
 */
module Counterexamples {
  import opened Wrappers
  import opened Releases
  import opened ReleaseSets
  import opened UpdateGraph
  import opened UpdateSelection
  import S = Strategy
  import opened UpdateAgent
  import opened BusyLoop
  import opened BusyLoopBound
  import opened StatusCaches

  function Parse(text: string): Option<Reference> {
    Some(Reference(text, ""))
  }

  const BOOTED_IMAGE := Reference("os@a", "")
  const TWIN_IMAGE := Reference("os@b", "")

  const BOOTED := Release("1", Pullspec(BOOTED_IMAGE), None)

  /** Another image, and an update that is a checksum payload of the same text. */
  const TWIN := Release("2", Pullspec(TWIN_IMAGE), None)
  const TARGET := Release("2", Checksum("os@b"), Some(0))

  const BOOTED_NODE := Node("1", "os@a", Some(OCI_SCHEME), Some("0"))
  const TARGET_NODE := Node("2", "os@b", Some(CHECKSUM_SCHEME), Some("0"))
  const TWIN_NODE := Node("2", "os@b", Some(OCI_SCHEME), Some("0"))

  /** One edge, from the booted node to the target; and the same with the twin as a third node. */
  const GRAPH := Graph([BOOTED_NODE, TARGET_NODE], [(0, 1)])
  const TWIN_GRAPH := Graph([BOOTED_NODE, TARGET_NODE, TWIN_NODE], [(0, 1)])

  /** The system's status: the booted deployment, and another one with the twin; both are images with a digest. */
  const STATUS: Status := [
    Deployment(true, false, "1", Some("registry:os:stable"), Some(BOOTED_IMAGE), None, ""),
    Deployment(false, false, "2", Some("registry:os:stable"), Some(TWIN_IMAGE), None, "")
  ]

  /** The local deployments: the booted one and the twin. */
  const DENYLIST: ReleaseSet := Insert(Insert([], BOOTED), TWIN)

  lemma DenylistIsListed()
    ensures Listed(STATUS, true, |STATUS|) == DENYLIST
    ensures DENYLIST == [BOOTED, TWIN] && BOOTED in DENYLIST && TWIN in DENYLIST
  {
    assert STATUS[0].IntoRelease() == BOOTED && STATUS[1].IntoRelease() == TWIN;
    assert Listed(STATUS, true, 1) == Insert([], BOOTED) == [BOOTED];
    assert CompareText("1", "2") == Less;
    InsertExactly([BOOTED], TWIN);
    assert DENYLIST == [BOOTED, TWIN];
  }

  lemma NodesRead()
    ensures Reader(Parse)(BOOTED_NODE) == Ok(BOOTED.(ageIndex := Some(0)))
    ensures Reader(Parse)(TARGET_NODE) == Ok(TARGET)
    ensures Reader(Parse)(TWIN_NODE) == Ok(TWIN.(ageIndex := Some(0)))
  {
  }

  lemma TextsCompare()
    ensures Cmp(TARGET, BOOTED.(ageIndex := Some(0))) == Greater
    ensures Cmp(TWIN, TARGET) == Equal && Cmp(TWIN.(ageIndex := Some(0)), TARGET) == Equal
  {
  }

  lemma OnlyTarget(graph: Graph)
    requires graph == GRAPH || graph == TWIN_GRAPH
    ensures BootedPosition(graph.nodes, BOOTED) == Some(0)
    ensures !HasBadTarget(Reader(Parse), graph, 0)
    ensures forall r :: IsTarget(Reader(Parse), graph, 0, r) <==> r == TARGET
  {
    NodesRead();
    BootedFirst(graph.nodes, BOOTED);
    var one: uint64 := 1;
    assert (0, one) in graph.edges && graph.nodes[1] == TARGET_NODE;
    assert ReadsAs(Reader(Parse), graph, one, TARGET);
  }

  /** The update is offered unless its own payload is denylisted, whatever else is. */
  lemma TargetIsOffered(denylist: ReleaseSet)
    requires TARGET.payload !in Payloads(denylist)
    ensures Select(Reader(Parse), GRAPH, BOOTED, denylist, false) == Ok(Some(TARGET))
  {
    var read := Reader(Parse);
    NodesRead();
    TextsCompare();
    OnlyTarget(GRAPH);
    hide Select, Cmp, Reader, BootedPosition;
    SelectExactly(read, GRAPH, BOOTED, denylist, false, 0, BOOTED.(ageIndex := Some(0)));
    forall d | InGraph(read, GRAPH, d) && d.payload in Payloads(denylist) ensures Cmp(d, TARGET) != Equal {
      var i :| ReadsAs(read, GRAPH, i, d);
      assert i == 0;
    }
    assert IsCandidate(read, GRAPH, 0, Payloads(denylist), TARGET);
  }

  /** With the twin in the graph, the target is hidden: nothing is offered, although its payload is not denylisted. */
  lemma TwinHidesTarget()
    ensures Select(Reader(Parse), TWIN_GRAPH, BOOTED, DENYLIST, false) == Ok(None)
    ensures IsTarget(Reader(Parse), TWIN_GRAPH, 0, TARGET) && TARGET.payload !in Payloads(DENYLIST)
  {
    var read := Reader(Parse);
    NodesRead();
    TextsCompare();
    OnlyTarget(TWIN_GRAPH);
    hide Select, Cmp, Reader, BootedPosition;
    SelectExactly(read, TWIN_GRAPH, BOOTED, DENYLIST, false, 0, BOOTED.(ageIndex := Some(0)));
    assert ReadsAs(read, TWIN_GRAPH, 2, TWIN.(ageIndex := Some(0)));
    DenylistIsListed();
    assert IsDenied(read, TWIN_GRAPH, Payloads(DENYLIST), TARGET);
  }

  /** The running system, enabled and following its stream with the immediate strategy. */
  const AGENT := Info(true, false, BOOTED, "stable", 300, S.UpdateStrategy.Immediate, Parse)

  /** Every answer the agent ever gets: the graph offers the target, which deploys, but from another stream. */
  const ANSWERS := Inputs(
    Some(DENYLIST), 0, S.NotSent, Some(GRAPH), true, Ok(Some((TARGET.(ageIndex := None), "testing"))),
    Some(0), false, true, 0)

  lemma HintIsTarget(denylist: ReleaseSet)
    requires TARGET.payload !in Payloads(denylist)
    ensures UpdateHint(AGENT, denylist, Some(GRAPH)) == Some(TARGET)
  {
    TargetIsOffered(denylist);
    hide Select, GRAPH, Payloads;
  }

  /** The payloads that occur. */
  const PAYLOADS := {BOOTED.payload, TARGET.payload, TWIN.payload}

  lemma AnswersArePlausible()
    ensures Plausible(AGENT, INITIAL_STATE, ANSWERS, PAYLOADS)
    ensures Deployable(TARGET.payload) && RunsImage(AGENT)
  {
    NodesRead();
    DenylistIsListed();
    forall r | InGraph(Reader(Parse), GRAPH, r) ensures r.payload in PAYLOADS {
      var i: nat :| ReadsAs(Reader(Parse), GRAPH, i, r);
      assert i == 0 || i == 1;
    }
  }

  lemma TargetIsNeverBlocked()
    ensures NeverBlocked(AGENT, ANSWERS, DENYLIST, TARGET)
  {
    HintIsTarget(DENYLIST);
    TextsCompare();
    hide UpdateHint, Cmp, GRAPH;
    DenylistIsListed();
    assert Has(DENYLIST, TARGET);
    InsertExactly(DENYLIST, TARGET);
  }

  /**
   * The bound on ticks that follow at once needs its hypothesis: here every tick from the
   * start follows at once, however many there are, although all are plausible and all
   * payloads come from a set of three.
   */
  lemma EndlessBusyLoop(n: nat)
    ensures var ticks := seq(n, (_: nat) => ANSWERS);
            ImmediateTicks(AGENT, INITIAL_STATE, ticks) == n && AllPlausible(AGENT, ticks, PAYLOADS)
    ensures RunsImage(AGENT)
  {
    AnswersArePlausible();
    TargetIsNeverBlocked();
    hide Plausible, AllPlausible, ImmediateTicks, AGENT, ANSWERS, TARGET, DENYLIST, PAYLOADS, NeverBlocked;
    UnblockedForever(AGENT, ANSWERS, DENYLIST, TARGET, n);
    LoopIsPlausible(AGENT, ANSWERS, DENYLIST, TARGET, PAYLOADS, n);
  }
}
