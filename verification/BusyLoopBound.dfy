/** For which sets of payloads the number of ticks that follow at once is bounded: an exact condition. */
module BusyLoopBound {
  import opened Wrappers
  import opened Releases
  import opened ReleaseSets
  import opened UpdateGraph
  import opened UpdateSelection
  import opened UpgradeChain
  import S = Strategy
  import opened UpdateAgent
  import opened AgentRuns
  import opened AgentTiming
  import opened BusyLoop

  // ---------- What a tick may get ----------

  /** Every image payload has a digest, as all images of local deployments do. */
  ghost predicate ImagesHaveDigests(releases: seq<Release>) {
    forall r | r in releases && r.payload.Pullspec? :: r.payload.reference.HasDigest()
  }

  /** An image is only deployed by its digest. */
  predicate Deployable(update: Payload) {
    update.Pullspec? ==> update.reference.HasDigest()
  }

  /**
   * Answers that a tick from `s` may get when all payloads are in `universe`: the booted
   * deployment is among the local ones, local images have digests, printing a parsed
   * reference gives back the graph's text, and what is deployed is deployable.
   */
  ghost predicate Plausible(info: Info, s: AgentState, inputs: Inputs, universe: set<Payload>) {
    && Within(info, inputs, universe)
    && (inputs.localDeployments.Some? ==>
          info.currentOs in inputs.localDeployments.value && ImagesHaveDigests(inputs.localDeployments.value))
    && (inputs.graph.Some? ==> ParserAgrees(info.parse, inputs.graph.value))
    && (s.machine.UpdateAvailable? && inputs.deployed ==> Deployable(s.machine.release.payload))
  }

  /** Every tick from the start is plausible in the state in which it comes. */
  ghost predicate AllPlausible(info: Info, ticks: seq<Inputs>, universe: set<Payload>) {
    ticks != [] ==>
      var before := ticks[..|ticks| - 1];
      && AllPlausible(info, before, universe)
      && Plausible(info, StepMany(info, INITIAL_STATE, before), ticks[|ticks| - 1], universe)
  }

  /** Ticks that follow at once are at most eight, two for every payload, and two for every tick that pauses. */
  ghost predicate Bounded(info: Info, ticks: seq<Inputs>, universe: set<Payload>) {
    var immediate := ImmediateTicks(info, INITIAL_STATE, ticks);
    immediate <= 8 + 2 * |universe| + 2 * (|ticks| - immediate)
  }

  /** No two different payloads share a text that has a digest. */
  ghost predicate DigestsDistinct(universe: set<Payload>) {
    forall p, q | p in universe && q in universe && p.ToString() == q.ToString() && '@' in p.ToString() :: p == q
  }

  // ---------- Distinct texts are enough ----------

  /** What is denylisted was deployed, locally or by the agent. */
  lemma StepKeepsDigests(info: Info, s: AgentState, inputs: Inputs, universe: set<Payload>)
    requires ImagesHaveDigests(s.denylist) && Plausible(info, s, inputs, universe)
    ensures ImagesHaveDigests(Step(info, s, inputs).denylist)
  {
    hide Select, S.CanFinalize, S.ReportSteady, Cmp, InGraph, ParserAgrees, Within, Ascending;
  }

  /** An update that is deployed has no denylisted twin, because one of the two would be an image. */
  lemma DigestsBlock(info: Info, s: AgentState, inputs: Inputs, universe: set<Payload>)
    requires Confined(s, universe) && DigestsDistinct(universe) && ImagesHaveDigests(s.denylist)
    requires Plausible(info, s, inputs, universe)
    ensures AbandonBlocks(info, s, inputs)
  {
    if WrongStreamAt(info, s, inputs) {
      var r := s.machine.release;
      forall x | x in s.denylist ensures Cmp(x, r) != Equal {
        CmpEqualExactly(x, r);
        assert x.payload in Payloads(s.denylist);
      }
    }
  }

  lemma {:induction false} DigestsBlockAll(info: Info, ticks: seq<Inputs>, universe: set<Payload>)
    requires DigestsDistinct(universe) && AllPlausible(info, ticks, universe)
    ensures AllAbandonsBlock(info, INITIAL_STATE, ticks)
    ensures forall t | t in ticks :: Within(info, t, universe)
    ensures Confined(StepMany(info, INITIAL_STATE, ticks), universe)
    ensures ImagesHaveDigests(StepMany(info, INITIAL_STATE, ticks).denylist)
  {
    if ticks != [] {
      var last := |ticks| - 1;
      assert ticks == ticks[..last] + [ticks[last]];
      DigestsBlockAll(info, ticks[..last], universe);
      hide Step, Confined, Within, ImagesHaveDigests, AbandonBlocks, Deployable, ParserAgrees;
      var before := StepMany(info, INITIAL_STATE, ticks[..last]);
      StepIsConfined(info, before, ticks[last], universe);
      StepKeepsDigests(info, before, ticks[last], universe);
      DigestsBlock(info, before, ticks[last], universe);
    }
  }

  lemma DistinctDigestsAreBounded(info: Info, ticks: seq<Inputs>, universe: set<Payload>)
    requires DigestsDistinct(universe) && AllPlausible(info, ticks, universe)
    ensures Bounded(info, ticks, universe)
  {
    DigestsBlockAll(info, ticks, universe);
    hide ImmediateTicks, AllAbandonsBlock, Within, AllPlausible;
    ImmediateTicksBounded(info, ticks, universe);
  }

  // ---------- An update that stays unblocked ----------

  /** The same answers at every tick: an update is offered, deploys from the wrong stream, and stays unblocked. */
  ghost predicate NeverBlocked(info: Info, inputs: Inputs, denylist: ReleaseSet, r: Release) {
    && info.enabled && info.strategy == S.UpdateStrategy.Immediate
    && inputs.localDeployments == Some(denylist)
    && UpdateHint(info, denylist, inputs.graph) == Some(r)
    && StageOutcome(info, inputs, r) == Ok(false)
    && Insert(denylist, r) == denylist
  }

  /** The state after `n` such ticks. */
  function LoopState(denylist: ReleaseSet, r: Release, n: nat): AgentState {
    if n == 0 then INITIAL_STATE
    else
      AgentState(
        if n == 1 then Initialized
        else if n == 2 then ReportedSteady
        else if n % 2 == 1 then UpdateAvailable(r, 0)
        else NoNewUpdate,
        denylist)
  }

  lemma LoopStep(info: Info, inputs: Inputs, denylist: ReleaseSet, r: Release, n: nat)
    requires NeverBlocked(info, inputs, denylist, r)
    ensures Step(info, LoopState(denylist, r, n), inputs) == LoopState(denylist, r, n + 1)
    ensures Immediate(info, LoopState(denylist, r, n), inputs)
  {
    hide UpdateHint, StageOutcome, Insert, Ascending;
  }

  ghost predicate LoopsFor(info: Info, inputs: Inputs, denylist: ReleaseSet, r: Release, n: nat) {
    var ticks := seq(n, (_: nat) => inputs);
    && StepMany(info, INITIAL_STATE, ticks) == LoopState(denylist, r, n)
    && ImmediateTicks(info, INITIAL_STATE, ticks) == n
  }

  /** An update that stays unblocked keeps the agent busy: every tick from the start follows at once. */
  lemma {:induction false} UnblockedForever(info: Info, inputs: Inputs, denylist: ReleaseSet, r: Release, n: nat)
    requires NeverBlocked(info, inputs, denylist, r)
    ensures LoopsFor(info, inputs, denylist, r, n)
  {
    hide Step, NeverBlocked, Ascending;
    if n > 0 {
      UnblockedForever(info, inputs, denylist, r, n - 1);
      LoopGoesOn(info, inputs, denylist, r, n - 1);
    }
  }

  lemma LoopGoesOn(info: Info, inputs: Inputs, denylist: ReleaseSet, r: Release, n: nat)
    requires NeverBlocked(info, inputs, denylist, r) && LoopsFor(info, inputs, denylist, r, n)
    ensures LoopsFor(info, inputs, denylist, r, n + 1)
  {
    hide Step, Immediate, LoopState, NeverBlocked, Ascending;
    LoopStep(info, inputs, denylist, r, n);
    var ticks := seq(n + 1, (_: nat) => inputs);
    assert ticks[..n] == seq(n, (_: nat) => inputs);
  }

  /** In such a loop, the ticks are plausible when their answers are, and when the update is deployable. */
  lemma {:induction false} LoopIsPlausible(
    info: Info, inputs: Inputs, denylist: ReleaseSet, r: Release, universe: set<Payload>, n: nat)
    requires NeverBlocked(info, inputs, denylist, r) && Plausible(info, INITIAL_STATE, inputs, universe)
    requires Deployable(r.payload)
    ensures AllPlausible(info, seq(n, (_: nat) => inputs), universe)
  {
    hide Within, NeverBlocked, ParserAgrees, Step;
    if n > 0 {
      var ticks := seq(n, (_: nat) => inputs);
      assert ticks[..n - 1] == seq(n - 1, (_: nat) => inputs);
      LoopIsPlausible(info, inputs, denylist, r, universe, n - 1);
      UnblockedForever(info, inputs, denylist, r, n - 1);
    }
  }

  lemma LoopIsUnbounded(info: Info, inputs: Inputs, denylist: ReleaseSet, r: Release, universe: set<Payload>)
    returns (ticks: seq<Inputs>)
    requires NeverBlocked(info, inputs, denylist, r) && Plausible(info, INITIAL_STATE, inputs, universe)
    requires Deployable(r.payload)
    ensures AllPlausible(info, ticks, universe) && !Bounded(info, ticks, universe)
  {
    hide NeverBlocked, Plausible, AllPlausible, ImmediateTicks, StepMany;
    var n: nat := 9 + 2 * |universe|;
    LoopIsPlausible(info, inputs, denylist, r, universe, n);
    UnblockedForever(info, inputs, denylist, r, n);
    ticks := seq(n, (_: nat) => inputs);
  }

  // ---------- A shared text is enough for a loop ----------

  /** Two payloads of one text, with a digest: an image, and a twin of it that is another image or a checksum. */
  ghost predicate Twins(image: Reference, twin: Payload) {
    twin != Pullspec(image) && twin.ToString() == image.whole && image.HasDigest()
  }

  /** The reference that the graph's text is read as: the twin's, so that the twin can be offered if it is an image. */
  function GraphReference(image: Reference, twin: Payload): Reference {
    if twin.Pullspec? then twin.reference else image
  }

  function ParseAs(reference: Reference): ReferenceParser {
    (text: string) => Some(if text == reference.whole then reference else Reference(text, ""))
  }

  /** The booted deployment, with the image, at the version of the update. */
  function Running(image: Reference): Release {
    Release("2", Pullspec(image), None)
  }

  /** The update: the twin. */
  function Update(twin: Payload): Release {
    Release("2", twin, Some(0))
  }

  /** The booted node, of an earlier version than the deployment has, and the update. */
  function LoopGraph(image: Reference, twin: Payload): Graph {
    Graph(
      [Node("1", image.whole, Some(OCI_SCHEME), Some("0")),
       Node("2", image.whole, Some(if twin.Checksum? then CHECKSUM_SCHEME else OCI_SCHEME), Some("0"))],
      [(0, 1)])
  }

  /** The graph's own release for the booted node. */
  function Current(image: Reference, twin: Payload): Release {
    Release("1", Pullspec(GraphReference(image, twin)), Some(0))
  }

  function LoopParser(image: Reference, twin: Payload): ReferenceParser {
    ParseAs(GraphReference(image, twin))
  }

  /** The local deployments when there is one. */
  function Only(r: Release): (deployments: ReleaseSet)
    ensures deployments == [r]
  {
    Insert([], r)
  }

  lemma BootedFirst(nodes: seq<Node>, booted: Release)
    requires nodes != [] && IsSameChecksum(nodes[0], booted)
    ensures BootedPosition(nodes, booted) == Some(0)
  {
  }

  lemma LoopNodesRead(image: Reference, twin: Payload)
    requires Twins(image, twin)
    ensures var read, nodes := Reader(LoopParser(image, twin)), LoopGraph(image, twin).nodes;
            && read(nodes[0]) == Ok(Current(image, twin)) && read(nodes[1]) == Ok(Update(twin))
            && BootedPosition(nodes, Running(image)) == Some(0)
  {
    var nodes := LoopGraph(image, twin).nodes;
    assert IsSameChecksum(nodes[0], Running(image));
    BootedFirst(nodes, Running(image));
  }

  lemma LoopReleasesCompare(image: Reference, twin: Payload)
    requires Twins(image, twin)
    ensures Cmp(Update(twin), Current(image, twin)) == Greater
    ensures Cmp(Current(image, twin), Update(twin)) != Equal
    ensures Cmp(Running(image), Update(twin)) == Equal
  {
    assert CompareText("2", "1") == Greater;
    CmpEqualExactly(Running(image), Update(twin));
  }

  lemma OnlyTwoNodes(image: Reference, twin: Payload, i: nat, d: Release)
    requires Twins(image, twin) && ReadsAs(Reader(LoopParser(image, twin)), LoopGraph(image, twin), i, d)
    ensures d == Current(image, twin) || (d == Update(twin) && d.payload != Pullspec(image))
  {
    LoopNodesRead(image, twin);
    assert i == 0 || i == 1;
  }

  lemma LoopUpdateIsOffered(image: Reference, twin: Payload)
    requires Twins(image, twin)
    ensures Select(Reader(LoopParser(image, twin)), LoopGraph(image, twin), Running(image), Only(Running(image)), false)
            == Ok(Some(Update(twin)))
  {
    var read, graph, denylist := Reader(LoopParser(image, twin)), LoopGraph(image, twin), Only(Running(image));
    var update := Update(twin);
    LoopNodesRead(image, twin);
    LoopReleasesCompare(image, twin);
    hide Select, Cmp, Reader, BootedPosition, Current, Update, ParseAs, LoopParser;
    var one: uint64 := 1;
    assert (0, one) in graph.edges && ReadsAs(read, graph, one, update);
    SelectExactly(read, graph, Running(image), denylist, false, 0, Current(image, twin));
    forall d | InGraph(read, graph, d) && d.payload in Payloads(denylist) ensures Cmp(d, update) != Equal {
      var i: nat :| ReadsAs(read, graph, i, d);
      OnlyTwoNodes(image, twin, i, d);
    }
    assert IsCandidate(read, graph, 0, Payloads(denylist), update);
  }

  /** A system that runs the image, and follows its stream with the immediate strategy. */
  function LoopInfo(image: Reference, twin: Payload): Info {
    Info(true, false, Running(image), "stable", 300, S.UpdateStrategy.Immediate, LoopParser(image, twin))
  }

  /** At every tick, the update is offered and deploys, but from another stream. */
  function LoopInputs(image: Reference, twin: Payload): Inputs {
    Inputs(Some(Only(Running(image))), 0, S.NotSent, Some(LoopGraph(image, twin)), true,
           Ok(Some((Update(twin).(ageIndex := None), "testing"))), Some(0), false, true, 0)
  }

  lemma UpdateStaysUnblocked(image: Reference, twin: Payload)
    requires Twins(image, twin)
    ensures Insert(Only(Running(image)), Update(twin)) == Only(Running(image))
  {
    LoopReleasesCompare(image, twin);
    hide Cmp, Insert, Running, Update;
    var denylist := Only(Running(image));
    assert denylist[0] in denylist;
    InsertExactly(denylist, Update(twin));
  }

  lemma LoopIsNeverBlocked(image: Reference, twin: Payload)
    requires Twins(image, twin)
    ensures NeverBlocked(LoopInfo(image, twin), LoopInputs(image, twin), Only(Running(image)), Update(twin))
  {
    LoopUpdateIsOffered(image, twin);
    UpdateStaysUnblocked(image, twin);
    hide Select, Cmp, LoopGraph, Insert, Reader, LoopParser, Only, Running, Ascending;
  }

  lemma LoopAnswersArePlausible(image: Reference, twin: Payload, universe: set<Payload>)
    requires Twins(image, twin) && twin in universe && Pullspec(image) in universe
    ensures Plausible(LoopInfo(image, twin), INITIAL_STATE, LoopInputs(image, twin), universe)
    ensures Deployable(Update(twin).payload)
  {
    var graph := LoopGraph(image, twin);
    forall d | InGraph(Reader(LoopParser(image, twin)), graph, d) ensures d.payload in universe {
      var i: nat :| ReadsAs(Reader(LoopParser(image, twin)), graph, i, d);
      OnlyTwoNodes(image, twin, i, d);
    }
  }

  lemma TwinsAreUnbounded(image: Reference, twin: Payload, universe: set<Payload>)
    returns (info: Info, ticks: seq<Inputs>)
    requires Twins(image, twin) && twin in universe && Pullspec(image) in universe
    ensures RunsImage(info) && AllPlausible(info, ticks, universe) && !Bounded(info, ticks, universe)
  {
    info := LoopInfo(image, twin);
    LoopAnswersArePlausible(image, twin, universe);
    LoopIsNeverBlocked(image, twin);
    ticks := LoopIsUnbounded(info, LoopInputs(image, twin), Only(Running(image)), Update(twin), universe);
  }

  /** The system runs an image, over which images and checksums can be deployed; a plain deployment refuses images. */
  predicate RunsImage(info: Info) {
    info.currentOs.payload.Pullspec?
  }

  /**
   * The exact condition for the bound: over a set of payloads it holds of every agent,
   * whatever its reader of references, and all plausible ticks, exactly when no two payloads
   * of the set share a text that has a digest. It is the same for systems that run an image.
   */
  lemma BoundExactly(universe: set<Payload>)
    ensures (forall info, ticks :: AllPlausible(info, ticks, universe) ==> Bounded(info, ticks, universe))
            <==> DigestsDistinct(universe)
    ensures (forall info, ticks ::
               RunsImage(info) && AllPlausible(info, ticks, universe) ==> Bounded(info, ticks, universe))
            <==> DigestsDistinct(universe)
  {
    hide AllPlausible, Bounded, RunsImage;
    if DigestsDistinct(universe) {
      forall info, ticks | AllPlausible(info, ticks, universe) ensures Bounded(info, ticks, universe) {
        DistinctDigestsAreBounded(info, ticks, universe);
      }
    } else {
      var p, q :| p in universe && q in universe && p.ToString() == q.ToString() && '@' in p.ToString() && p != q;
      var info, ticks;
      if p.Pullspec? {
        info, ticks := TwinsAreUnbounded(p.reference, q, universe);
      } else {
        info, ticks := TwinsAreUnbounded(q.reference, p, universe);
      }
    }
  }
}
