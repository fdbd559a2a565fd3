/** Local deployments and the status cache (src/rpm_ostree/cli_status.rs, src/rpm_ostree/actor.rs). */
module StatusCaches {
  import opened Wrappers
  import opened Releases
  import opened ReleaseSets
  import opened UpdateGraph

  /**
   * One deployment of the status output. `digestReference` is what the library makes of
   * the container image reference and its digest, if anything.
   */
  datatype Deployment = Deployment(
    booted: bool,
    staged: bool,
    version: string,
    containerImageReference: Option<string>,
    digestReference: Option<Reference>,
    baseChecksum: Option<string>,
    checksum: string)
  {
    function BaseRevision(): string {
      if containerImageReference.Some? then containerImageReference.value
      else if baseChecksum.Some? then baseChecksum.value
      else checksum
    }

    function IntoRelease(): Release {
      Release(
        version,
        if digestReference.Some? then Pullspec(digestReference.value) else Checksum(BaseRevision()),
        None)
    }
  }

  type Status = seq<Deployment>

  /** The node is of the deployment: by digest reference if it has one, otherwise by its base revision. */
  predicate Describes(node: Node, d: Deployment) {
    match (node.scheme, d.digestReference)
    case (Some(scheme), Some(reference)) => scheme == "oci" && node.payload == reference.whole
    case (Some(scheme), None) =>
      && scheme == "checksum"
      && (d.containerImageReference == Some(node.payload)
          || (d.containerImageReference == None
              && (d.baseChecksum == Some(node.payload) || (d.baseChecksum == None && d.checksum == node.payload))))
    case (None, _) => false
  }

  lemma DescribedExactly(node: Node, d: Deployment)
    ensures IsSameChecksum(node, d.IntoRelease()) <==> Describes(node, d)
  {
  }

  /** The booted node of a deployment is the first that describes it. */
  lemma BootedNodeExactly(nodes: seq<Node>, d: Deployment, i: nat)
    ensures BootedPosition(nodes, d.IntoRelease()) == Some(i) <==>
            i < |nodes| && Describes(nodes[i], d) && forall j: nat | j < i :: !Describes(nodes[j], d)
    ensures BootedPosition(nodes, d.IntoRelease()) == None <==> forall j: nat | j < |nodes| :: !Describes(nodes[j], d)
  {
    hide IsSameChecksum, Describes;
    forall j: nat | j < |nodes| ensures IsSameChecksum(nodes[j], d.IntoRelease()) <==> Describes(nodes[j], d) {
      DescribedExactly(nodes[j], d);
    }
  }

  // ---------- Local deployments ----------

  /** The releases of the first `k` deployments, without staged ones if these are omitted. */
  function Listed(status: Status, omitStaged: bool, k: nat): ReleaseSet
    requires k <= |status|
  {
    if k == 0 then []
    else
      var listed := Listed(status, omitStaged, k - 1);
      if omitStaged && status[k - 1].staged then listed else Insert(listed, status[k - 1].IntoRelease())
  }

  /** Parse local deployments from a status. */
  method ParseLocalDeployments(status: Status, omitStaged: bool) returns (deployments: ReleaseSet)
    ensures deployments == Listed(status, omitStaged, |status|)
  {
    deployments := [];
    for i := 0 to |status|
      invariant deployments == Listed(status, omitStaged, i)
    {
      if !(omitStaged && status[i].staged) {
        deployments := Insert(deployments, status[i].IntoRelease());
      }
    }
  }

  ghost predicate IsListed(status: Status, omitStaged: bool, k: nat, r: Release) {
    exists i | 0 <= i < k && i < |status| :: (!(omitStaged && status[i].staged) && status[i].IntoRelease() == r)
  }

  lemma {:induction false} ListedAreDeployed(status: Status, omitStaged: bool, k: nat, r: Release)
    requires k <= |status| && r in Listed(status, omitStaged, k)
    ensures IsListed(status, omitStaged, k, r)
  {
    hide Cmp, Ascending;
    if r in Listed(status, omitStaged, k - 1) {
      ListedAreDeployed(status, omitStaged, k - 1, r);
    }
  }

  lemma {:induction false} DeployedAreListed(status: Status, omitStaged: bool, k: nat, i: nat)
    requires i < k <= |status| && !(omitStaged && status[i].staged)
    ensures Has(Listed(status, omitStaged, k), status[i].IntoRelease())
  {
    if i == k - 1 {
      InsertedIsPresent(Listed(status, omitStaged, k - 1), status[i].IntoRelease());
    } else {
      DeployedAreListed(status, omitStaged, k - 1, i);
      HasInLarger(Listed(status, omitStaged, k - 1), Listed(status, omitStaged, k), status[i].IntoRelease());
    }
  }

  /** Deployment `i` counts, and no earlier one that counts compares equal. */
  ghost predicate IsFirst(status: Status, omitStaged: bool, i: nat) {
    && i < |status|
    && !(omitStaged && status[i].staged)
    && forall j: nat | j < i && !(omitStaged && status[j].staged) ::
         Cmp(status[j].IntoRelease(), status[i].IntoRelease()) != Equal
  }

  lemma EarlierIsListed(status: Status, omitStaged: bool, k: nat)
    requires k < |status| && !(omitStaged && status[k].staged)
    ensures Has(Listed(status, omitStaged, k), status[k].IntoRelease()) <==> !IsFirst(status, omitStaged, k)
  {
    var listed, r := Listed(status, omitStaged, k), status[k].IntoRelease();
    hide Cmp, Listed;
    if Has(listed, r) {
      var x :| x in listed && Cmp(x, r) == Equal;
      ListedAreDeployed(status, omitStaged, k, x);
      var j: nat :| j < k && !(omitStaged && status[j].staged) && status[j].IntoRelease() == x;
    }
    if !IsFirst(status, omitStaged, k) {
      var j: nat :| j < k && !(omitStaged && status[j].staged) && Cmp(status[j].IntoRelease(), r) == Equal;
      DeployedAreListed(status, omitStaged, k, j);
      HasTransfers(listed, status[j].IntoRelease(), r);
    }
  }

  lemma OneMoreListed(status: Status, omitStaged: bool, k: nat, r: Release)
    requires k < |status|
    ensures r in Listed(status, omitStaged, k + 1) <==>
            r in Listed(status, omitStaged, k) || (IsFirst(status, omitStaged, k) && status[k].IntoRelease() == r)
  {
    if !(omitStaged && status[k].staged) {
      EarlierIsListed(status, omitStaged, k);
      InsertExactly(Listed(status, omitStaged, k), status[k].IntoRelease());
      hide Cmp, Ascending, Insert, IsFirst;
    }
  }

  /** What is listed, exactly: every deployment that counts, unless an earlier one that counts compares equal. */
  lemma {:induction false} ListedExactly(status: Status, omitStaged: bool, k: nat, r: Release)
    requires k <= |status|
    ensures r in Listed(status, omitStaged, k) <==>
            exists i: nat | i < k :: IsFirst(status, omitStaged, i) && status[i].IntoRelease() == r
  {
    hide IsFirst, Cmp, Insert, Ascending;
    if k > 0 {
      ListedExactly(status, omitStaged, k - 1, r);
      OneMoreListed(status, omitStaged, k - 1, r);
    }
  }

  /** No two deployments of one version have different payloads with the same text. */
  ghost predicate DistinctTexts(status: Status) {
    forall i, j | 0 <= i < |status| && 0 <= j < |status| ::
      Cmp(status[i].IntoRelease(), status[j].IntoRelease()) == Equal ==> status[i].IntoRelease() == status[j].IntoRelease()
  }

  lemma {:induction false} FirstOfItsKind(status: Status, omitStaged: bool, i: nat) returns (j: nat)
    requires DistinctTexts(status) && i < |status| && !(omitStaged && status[i].staged)
    ensures j <= i && IsFirst(status, omitStaged, j) && status[j].IntoRelease() == status[i].IntoRelease()
  {
    hide Cmp;
    j := i;
    if !IsFirst(status, omitStaged, i) {
      var e: nat :| e < i && !(omitStaged && status[e].staged)
                    && Cmp(status[e].IntoRelease(), status[i].IntoRelease()) == Equal;
      j := FirstOfItsKind(status, omitStaged, e);
    }
  }

  /**
   * The payloads that the agent starts out with as denylisted are exactly those of the
   * finalized local deployments, when no two of one version share a text.
   */
  lemma FinalizedPayloadsListed(status: Status, p: Payload)
    requires DistinctTexts(status)
    ensures p in Payloads(Listed(status, true, |status|)) <==>
            exists i | 0 <= i < |status| :: (!status[i].staged && status[i].IntoRelease().payload == p)
  {
    var listed := Listed(status, true, |status|);
    hide Cmp, Listed, Ascending;
    if p in Payloads(listed) {
      var r :| r in listed && r.payload == p;
      ListedExactly(status, true, |status|, r);
    }
    if i :| 0 <= i < |status| && !status[i].staged && status[i].IntoRelease().payload == p {
      var j := FirstOfItsKind(status, true, i);
      ListedExactly(status, true, |status|, status[i].IntoRelease());
    }
  }

  /** Without that, a finalized deployment after its twin is left out, and its payload is not denylisted. */
  lemma TwinIsNotListed(a: Deployment, b: Deployment)
    requires !a.staged && !b.staged
    requires Cmp(a.IntoRelease(), b.IntoRelease()) == Equal && a.IntoRelease().payload != b.IntoRelease().payload
    ensures b.IntoRelease().payload !in Payloads(Listed([a, b], true, 2))
  {
    var status := [a, b];
    var listed := Listed(status, true, 2);
    assert status[0] == a && status[1] == b;
    hide Cmp, Listed, Ascending;
    assert !IsFirst(status, true, 1);
    forall r | r in listed ensures r.payload != b.IntoRelease().payload {
      ListedExactly(status, true, 2, r);
    }
  }

  // ---------- The cache ----------

  /** The state of the system at one moment: the deployments directory's mtime and the deployments. */
  datatype Moment = Moment(mtime: nat, deployments: Status)

  datatype StatusCache = StatusCache(status: Status, mtime: nat)

  datatype StatusError = NoMetadata | QueryFailed

  /** A fresh query's answer: the deployments, with the booted one replaced if there is an override. */
  function Shown(deployments: Status, grafted: Option<Deployment>): Status {
    if grafted.None? then deployments
    else seq(|deployments|, i requires 0 <= i < |deployments| =>
               if deployments[i].booted then grafted.value else deployments[i])
  }

  /** A request's answer and the cache afterwards, from the mtime read and the outcome of a query made if needed. */
  function Served(cache: Option<StatusCache>, mtime: Option<nat>, query: Option<Status>)
    : (Result<Status, StatusError>, Option<StatusCache>)
  {
    if mtime.None? then (Err(NoMetadata), cache)
    else if cache.Some? && cache.value.mtime == mtime.value then (Ok(cache.value.status), cache)
    else if query.None? then (Err(QueryFailed), cache)
    else (Ok(query.value), Some(StatusCache(query.value, mtime.value)))
  }

  /** After any answer the cache holds that answer at the mtime that was read; a failed request leaves it alone. */
  lemma CacheHoldsAnswer(cache: Option<StatusCache>, mtime: Option<nat>, query: Option<Status>)
    ensures var (status, after) := Served(cache, mtime, query);
            match status
            case Ok(answer) => mtime.Some? && after == Some(StatusCache(answer, mtime.value))
            case Err(_) => after == cache
  {
  }

  /** Which request fails, and how: without the mtime, or with a query that is needed and fails. */
  lemma FailsExactly(cache: Option<StatusCache>, mtime: Option<nat>, query: Option<Status>)
    ensures var status := Served(cache, mtime, query).0;
            && (status == Err(NoMetadata) <==> mtime == None)
            && (status == Err(QueryFailed) <==>
                  mtime.Some? && query == None && !(cache.Some? && cache.value.mtime == mtime.value))
  {
  }

  /** An override replaces booted deployments only; all others are shown as they are, in their places. */
  lemma ShownExactly(deployments: Status, grafted: Option<Deployment>, i: nat)
    requires i < |deployments|
    ensures |Shown(deployments, grafted)| == |deployments|
    ensures Shown(deployments, grafted)[i] != deployments[i] ==>
              deployments[i].booted && grafted == Some(Shown(deployments, grafted)[i])
    ensures deployments[i].booted && grafted.Some? ==> Shown(deployments, grafted)[i] == grafted.value
  {
  }

  class RpmOstreeClient {
    var statusCache: Option<StatusCache>

    constructor ()
      ensures statusCache == None
    {
      statusCache := None;
    }

    /** Answer from the cache if the directory has not changed, otherwise query and remember. */
    method GetStatus(mtime: Option<nat>, query: Option<Status>) returns (status: Result<Status, StatusError>)
      modifies this`statusCache
      ensures (status, statusCache) == Served(old(statusCache), mtime, query)
    {
      if mtime.None? {
        return Err(NoMetadata);
      }
      if statusCache.Some? {
        if statusCache.value.mtime == mtime.value {
          return Ok(statusCache.value.status);
        }
      }
      if query.None? {
        return Err(QueryFailed);
      }
      statusCache := Some(StatusCache(query.value, mtime.value));
      return Ok(query.value);
    }
  }

  /** The mtime never goes back, and every change of deployments moves it strictly forward. */
  ghost predicate ChangesMoveMtime(history: seq<Moment>) {
    forall i | 0 <= i < |history| - 1 :: MovesAt(history, i)
  }

  ghost predicate MovesAt(history: seq<Moment>, i: nat)
    requires i + 1 < |history|
  {
    && history[i].mtime <= history[i + 1].mtime
    && (history[i].deployments != history[i + 1].deployments ==> history[i].mtime < history[i + 1].mtime)
  }

  lemma {:induction false} SameMtimeSameDeployments(history: seq<Moment>, a: nat, b: nat, t: nat)
    requires ChangesMoveMtime(history) && a <= b <= t < |history|
    ensures history[a].mtime <= history[t].mtime
    ensures history[a].mtime == history[t].mtime ==> history[b].deployments == history[t].deployments
    decreases t
  {
    if a < t {
      assert MovesAt(history, t - 1);
      SameMtimeSameDeployments(history, a, if b < t then b else t - 1, t - 1);
    }
  }

  /** A request: the moment of its mtime read and the later moment of its query, and whether each succeeded. */
  datatype StatusRequest = StatusRequest(readAt: nat, queryAt: nat, readOk: bool, queryOk: bool)

  function MtimeRead(history: seq<Moment>, r: StatusRequest): Option<nat>
    requires r.readAt < |history|
  {
    if r.readOk then Some(history[r.readAt].mtime) else None
  }

  function QueryAnswer(history: seq<Moment>, grafted: Option<Deployment>, r: StatusRequest): Option<Status>
    requires r.queryAt < |history|
  {
    if r.queryOk then Some(Shown(history[r.queryAt].deployments, grafted)) else None
  }

  /** Requests one after the other, each reading the mtime before it queries. */
  ghost predicate InOrder(history: seq<Moment>, requests: seq<StatusRequest>) {
    && (forall i | 0 <= i < |requests| :: requests[i].readAt <= requests[i].queryAt < |history|)
    && (forall i, j | 0 <= i < j < |requests| :: requests[i].queryAt <= requests[j].readAt)
  }

  /** The cache after some requests. */
  function CacheAfter(history: seq<Moment>, grafted: Option<Deployment>, requests: seq<StatusRequest>): Option<StatusCache>
    requires forall r | r in requests :: r.readAt < |history| && r.queryAt < |history|
  {
    if requests == [] then None
    else
      var last := requests[|requests| - 1];
      Served(CacheAfter(history, grafted, requests[..|requests| - 1]),
             MtimeRead(history, last), QueryAnswer(history, grafted, last)).1
  }

  /** The request read the cached mtime, and then queried the cached status. */
  ghost predicate Filled(history: seq<Moment>, grafted: Option<Deployment>, cache: StatusCache, r: StatusRequest)
    requires r.readAt < |history| && r.queryAt < |history|
  {
    history[r.readAt].mtime == cache.mtime && Shown(history[r.queryAt].deployments, grafted) == cache.status
  }

  /** What is cached was seen by some request. */
  lemma {:induction false} CachedWasSeen(history: seq<Moment>, grafted: Option<Deployment>, requests: seq<StatusRequest>)
    requires forall r | r in requests :: r.readAt < |history| && r.queryAt < |history|
    ensures var cache := CacheAfter(history, grafted, requests);
            cache.Some? ==> exists r :: r in requests && Filled(history, grafted, cache.value, r)
  {
    hide Shown;
    if requests != [] {
      var last := |requests| - 1;
      CachedWasSeen(history, grafted, requests[..last]);
      var before, after := CacheAfter(history, grafted, requests[..last]), CacheAfter(history, grafted, requests);
      if after.Some? && after != before {
        assert requests[last] in requests && Filled(history, grafted, after.value, requests[last]);
      }
    }
  }

  /**
   * Cache agreement. When every change of deployments moves the mtime, each request that
   * reads the mtime and is answered gets what a fresh query would show at the moment of
   * its own read, or, if it had to query, at the moment of its query; even when changes
   * fell between an earlier request's mtime read and its query.
   */
  lemma CacheAgrees(
    history: seq<Moment>, grafted: Option<Deployment>, requests: seq<StatusRequest>, k: nat)
    requires ChangesMoveMtime(history) && InOrder(history, requests) && k < |requests|
    requires forall r | r in requests :: r.readAt < |history| && r.queryAt < |history|
    ensures var r := requests[k];
            var cache := CacheAfter(history, grafted, requests[..k]);
            var answer := Served(cache, MtimeRead(history, r), QueryAnswer(history, grafted, r)).0;
            && (answer.Ok? ==>
                  || answer.value == Shown(history[r.readAt].deployments, grafted)
                  || (r.queryOk && answer.value == Shown(history[r.queryAt].deployments, grafted)))
            && (r.readOk && cache.Some? && cache.value.mtime == history[r.readAt].mtime ==>
                  answer == Ok(Shown(history[r.readAt].deployments, grafted)))
            && (answer.Ok? <==>
                  r.readOk && (r.queryOk || (cache.Some? && cache.value.mtime == history[r.readAt].mtime)))
  {
    var r := requests[k];
    CachedWasSeen(history, grafted, requests[..k]);
    var cache := CacheAfter(history, grafted, requests[..k]);
    if cache.Some? && cache.value.mtime == history[r.readAt].mtime {
      var filler :| filler in requests[..k] && Filled(history, grafted, cache.value, filler);
      var i :| 0 <= i < k && requests[i] == filler;
      SameMtimeSameDeployments(history, filler.readAt, filler.queryAt, r.readAt);
    }
  }

  /** A change that leaves the mtime alone makes the next hit stale. */
  lemma UnmovedMtimeIsStale(before: Moment, after: Moment)
    requires before.mtime == after.mtime && before.deployments != after.deployments
    ensures var cache := Served(None, Some(before.mtime), Some(before.deployments)).1;
            Served(cache, Some(after.mtime), Some(after.deployments)).0 == Ok(before.deployments)
    ensures before.deployments != Shown(after.deployments, None)
  {
  }
}
