/** Merging whole configuration fragments, stanza by stanza (src/config/inputs.rs, src/config/fragments.rs). */
module ConfigMerge {
  import opened Wrappers
  import opened ConfigInputs

  const DEFAULT_STEADY_INTERVAL_SECS: NonZero := 300

  type NonZero = x: nat | 0 < x <= U64_MAX witness 1

  datatype AgentTiming = AgentTiming(steadyIntervalSecs: Option<NonZero>)

  datatype AgentFragment = AgentFragment(timing: Option<AgentTiming>) {
    function SteadyInterval(): Option<NonZero> {
      if timing.Some? then timing.value.steadyIntervalSecs else None
    }
  }

  datatype CincinnatiFragment = CincinnatiFragment(baseUrl: Option<string>)

  datatype IdentityFragment = IdentityFragment(
    group: Option<string>, nodeUuid: Option<string>, rolloutWariness: Option<real>)

  datatype ConfigFragment = ConfigFragment(
    agent: Option<AgentFragment>,
    cincinnati: Option<CincinnatiFragment>,
    identity: Option<IdentityFragment>,
    updates: Option<UpdateFragment>)

  datatype IdentityInput = IdentityInput(group: string, nodeUuid: string, rolloutWariness: Option<real>)

  datatype ConfigInput = ConfigInput(
    steadyIntervalSecs: NonZero, cincinnatiBaseUrl: string, updates: UpdateInput, identity: IdentityInput)

  /** What a fragment sets, through the stanza that the setting stands in. */
  function Through<S, T>(stanza: ConfigFragment -> Option<S>, field: S -> Option<T>): ConfigFragment -> Option<T> {
    (f: ConfigFragment) => if stanza(f).Some? then field(stanza(f).value) else None
  }

  /** The present stanzas of one kind, in order. */
  function Stanzas<S>(fragments: seq<ConfigFragment>, stanza: ConfigFragment -> Option<S>): seq<S> {
    if fragments == [] then []
    else
      var last := stanza(fragments[|fragments| - 1]);
      Stanzas(fragments[..|fragments| - 1], stanza) + if last.Some? then [last.value] else []
  }

  function AgentStanza(f: ConfigFragment): Option<AgentFragment> { f.agent }

  function CincinnatiStanza(f: ConfigFragment): Option<CincinnatiFragment> { f.cincinnati }

  function IdentityStanza(f: ConfigFragment): Option<IdentityFragment> { f.identity }

  function UpdateStanza(f: ConfigFragment): Option<UpdateFragment> { f.updates }

  function SteadyInterval(f: AgentFragment): Option<NonZero> { f.SteadyInterval() }

  function BaseUrl(f: CincinnatiFragment): Option<string> { f.baseUrl }

  function Group(f: IdentityFragment): Option<string> { f.group }

  function NodeUuid(f: IdentityFragment): Option<string> { f.nodeUuid }

  function RolloutWariness(f: IdentityFragment): Option<Option<real>> {
    if f.rolloutWariness.Some? then Some(f.rolloutWariness) else None
  }

  /** Each setting is that of the last fragment that makes it, whatever stanzas the fragments have besides. */
  function Merged(fragments: seq<ConfigFragment>): ConfigInput {
    ConfigInput(
      LastSet(fragments, Through(AgentStanza, SteadyInterval), DEFAULT_STEADY_INTERVAL_SECS),
      LastSet(fragments, Through(CincinnatiStanza, BaseUrl), ""),
      MergedOnto(DEFAULT_INPUT, Stanzas(fragments, UpdateStanza)),
      IdentityInput(
        LastSet(fragments, Through(IdentityStanza, Group), ""),
        LastSet(fragments, Through(IdentityStanza, NodeUuid), ""),
        LastSet(fragments, Through(IdentityStanza, RolloutWariness), None)))
  }

  /** Collecting the stanzas first and merging them gives what merging over the fragments gives. */
  lemma {:induction false} MergeByStanza<S, T>(
    fragments: seq<ConfigFragment>, stanza: ConfigFragment -> Option<S>, field: S -> Option<T>, default: T)
    ensures LastSet(Stanzas(fragments, stanza), field, default) == LastSet(fragments, Through(stanza, field), default)
  {
    if fragments != [] {
      var before, last := fragments[..|fragments| - 1], stanza(fragments[|fragments| - 1]);
      MergeByStanza(before, stanza, field, default);
      if last.Some? {
        assert Stanzas(fragments, stanza)[..|Stanzas(before, stanza)|] == Stanzas(before, stanza);
      } else {
        assert Stanzas(fragments, stanza) == Stanzas(before, stanza);
      }
    }
  }

  lemma OneMoreStanza<S>(fragments: seq<ConfigFragment>, stanza: ConfigFragment -> Option<S>, i: nat)
    requires i < |fragments|
    ensures Stanzas(fragments[..i + 1], stanza) ==
            Stanzas(fragments[..i], stanza) + if stanza(fragments[i]).Some? then [stanza(fragments[i]).value] else []
  {
    assert fragments[..i + 1][..i] == fragments[..i];
  }

  method AgentFromFragments(fragments: seq<AgentFragment>) returns (steadyIntervalSecs: NonZero)
    ensures steadyIntervalSecs == LastSet(fragments, SteadyInterval, DEFAULT_STEADY_INTERVAL_SECS)
  {
    steadyIntervalSecs := DEFAULT_STEADY_INTERVAL_SECS;
    for i := 0 to |fragments|
      invariant steadyIntervalSecs == LastSet(fragments[..i], SteadyInterval, DEFAULT_STEADY_INTERVAL_SECS)
    {
      LastSetOneMore(fragments, SteadyInterval, DEFAULT_STEADY_INTERVAL_SECS, i);
      var timing := fragments[i].timing;
      if timing.Some? && timing.value.steadyIntervalSecs.Some? {
        steadyIntervalSecs := timing.value.steadyIntervalSecs.value;
      }
    }
    assert fragments[..|fragments|] == fragments;
  }

  method CincinnatiFromFragments(fragments: seq<CincinnatiFragment>) returns (baseUrl: string)
    ensures baseUrl == LastSet(fragments, BaseUrl, "")
  {
    baseUrl := "";
    for i := 0 to |fragments|
      invariant baseUrl == LastSet(fragments[..i], BaseUrl, "")
    {
      LastSetOneMore(fragments, BaseUrl, "", i);
      if fragments[i].baseUrl.Some? {
        baseUrl := fragments[i].baseUrl.value;
      }
    }
    assert fragments[..|fragments|] == fragments;
  }

  method IdentityFromFragments(fragments: seq<IdentityFragment>) returns (input: IdentityInput)
    ensures input == IdentityInput(LastSet(fragments, Group, ""), LastSet(fragments, NodeUuid, ""),
                                   LastSet(fragments, RolloutWariness, None))
  {
    var group, nodeUuid, wariness := "", "", None;
    for i := 0 to |fragments|
      invariant group == LastSet(fragments[..i], Group, "")
      invariant nodeUuid == LastSet(fragments[..i], NodeUuid, "")
      invariant wariness == LastSet(fragments[..i], RolloutWariness, None)
    {
      LastSetOneMore(fragments, Group, "", i);
      LastSetOneMore(fragments, NodeUuid, "", i);
      LastSetOneMore(fragments, RolloutWariness, None, i);
      var snip := fragments[i];
      if snip.group.Some? {
        group := snip.group.value;
      }
      if snip.nodeUuid.Some? {
        nodeUuid := snip.nodeUuid.value;
      }
      if snip.rolloutWariness.Some? {
        wariness := snip.rolloutWariness;
      }
    }
    assert fragments[..|fragments|] == fragments;
    return IdentityInput(group, nodeUuid, wariness);
  }

  /** Merge multiple fragments into a single configuration. */
  method MergeFragments(fragments: seq<ConfigFragment>) returns (input: ConfigInput)
    ensures input == Merged(fragments)
  {
    var agents, cincinnatis, updates, identities := [], [], [], [];
    for i := 0 to |fragments|
      invariant agents == Stanzas(fragments[..i], AgentStanza)
      invariant cincinnatis == Stanzas(fragments[..i], CincinnatiStanza)
      invariant updates == Stanzas(fragments[..i], UpdateStanza)
      invariant identities == Stanzas(fragments[..i], IdentityStanza)
    {
      OneMoreStanza(fragments, AgentStanza, i);
      OneMoreStanza(fragments, CincinnatiStanza, i);
      OneMoreStanza(fragments, UpdateStanza, i);
      OneMoreStanza(fragments, IdentityStanza, i);
      var snip := fragments[i];
      if snip.agent.Some? {
        agents := agents + [snip.agent.value];
      }
      if snip.cincinnati.Some? {
        cincinnatis := cincinnatis + [snip.cincinnati.value];
      }
      if snip.updates.Some? {
        updates := updates + [snip.updates.value];
      }
      if snip.identity.Some? {
        identities := identities + [snip.identity.value];
      }
    }
    assert fragments[..|fragments|] == fragments;
    MergeByStanza(fragments, AgentStanza, SteadyInterval, DEFAULT_STEADY_INTERVAL_SECS);
    MergeByStanza(fragments, CincinnatiStanza, BaseUrl, "");
    MergeByStanza(fragments, IdentityStanza, Group, "");
    MergeByStanza(fragments, IdentityStanza, NodeUuid, "");
    MergeByStanza(fragments, IdentityStanza, RolloutWariness, None);
    var steadyIntervalSecs := AgentFromFragments(agents);
    var baseUrl := CincinnatiFromFragments(cincinnatis);
    var update := FromFragments(updates);
    var identity := IdentityFromFragments(identities);
    return ConfigInput(steadyIntervalSecs, baseUrl, update, identity);
  }

  lemma {:induction false} StanzasSplit<S>(a: seq<ConfigFragment>, b: seq<ConfigFragment>, stanza: ConfigFragment -> Option<S>)
    ensures Stanzas(a + b, stanza) == Stanzas(a, stanza) + Stanzas(b, stanza)
  {
    if b == [] {
      assert a + b == a;
    } else {
      var last := |b| - 1;
      assert (a + b)[..|a + b| - 1] == a + b[..last] && (a + b)[|a + b| - 1] == b[last];
      StanzasSplit(a, b[..last], stanza);
    }
  }

  /** Fragments read later override those read before, in every stanza; update settings merge onto what is in force. */
  lemma LaterFragmentsOverride(a: seq<ConfigFragment>, b: seq<ConfigFragment>)
    ensures Merged(a + b) ==
            ConfigInput(
              LastSet(b, Through(AgentStanza, SteadyInterval), Merged(a).steadyIntervalSecs),
              LastSet(b, Through(CincinnatiStanza, BaseUrl), Merged(a).cincinnatiBaseUrl),
              MergedOnto(Merged(a).updates, Stanzas(b, UpdateStanza)),
              IdentityInput(
                LastSet(b, Through(IdentityStanza, Group), Merged(a).identity.group),
                LastSet(b, Through(IdentityStanza, NodeUuid), Merged(a).identity.nodeUuid),
                LastSet(b, Through(IdentityStanza, RolloutWariness), Merged(a).identity.rolloutWariness)))
  {
    LastSetSplits(a, b, Through(AgentStanza, SteadyInterval), DEFAULT_STEADY_INTERVAL_SECS);
    LastSetSplits(a, b, Through(CincinnatiStanza, BaseUrl), "");
    LastSetSplits(a, b, Through(IdentityStanza, Group), "");
    LastSetSplits(a, b, Through(IdentityStanza, NodeUuid), "");
    LastSetSplits(a, b, Through(IdentityStanza, RolloutWariness), None);
    StanzasSplit(a, b, UpdateStanza);
    MergeInStages(DEFAULT_INPUT, Stanzas(a, UpdateStanza), Stanzas(b, UpdateStanza));
  }

  /** The group that a fragment sets, read from the fragment. */
  predicate SetsGroup(f: ConfigFragment) {
    f.identity.Some? && f.identity.value.group.Some?
  }

  predicate SetsNodeUuid(f: ConfigFragment) {
    f.identity.Some? && f.identity.value.nodeUuid.Some?
  }

  predicate SetsWariness(f: ConfigFragment) {
    f.identity.Some? && f.identity.value.rolloutWariness.Some?
  }

  predicate SetsBaseUrl(f: ConfigFragment) {
    f.cincinnati.Some? && f.cincinnati.value.baseUrl.Some?
  }

  predicate SetsInterval(f: ConfigFragment) {
    f.agent.Some? && f.agent.value.timing.Some? && f.agent.value.timing.value.steadyIntervalSecs.Some?
  }

  /** Fragment `i` sets something that no later fragment sets. */
  ghost predicate IsLast(fragments: seq<ConfigFragment>, sets: ConfigFragment -> bool, i: nat) {
    i < |fragments| && sets(fragments[i]) && forall j | i < j < |fragments| :: !sets(fragments[j])
  }

  ghost predicate Nobody(fragments: seq<ConfigFragment>, sets: ConfigFragment -> bool) {
    forall f | f in fragments :: !sets(f)
  }

  lemma LastOrDefault<T>(
    fragments: seq<ConfigFragment>, field: ConfigFragment -> Option<T>, default: T, sets: ConfigFragment -> bool, i: nat)
    requires forall f :: sets(f) <==> field(f).Some?
    ensures IsLast(fragments, sets, i) ==> LastSet(fragments, field, default) == field(fragments[i]).value
    ensures Nobody(fragments, sets) ==> LastSet(fragments, field, default) == default
  {
    if IsLast(fragments, sets, i) {
      LastSetExactly(fragments, field, default, i);
    }
    if Nobody(fragments, sets) {
      NobodySets(fragments, field, default);
    }
  }

  lemma IntervalExactly(fragments: seq<ConfigFragment>, i: nat)
    ensures var merged := LastSet(fragments, Through(AgentStanza, SteadyInterval), DEFAULT_STEADY_INTERVAL_SECS);
            && (IsLast(fragments, SetsInterval, i) ==> merged == fragments[i].agent.value.timing.value.steadyIntervalSecs.value)
            && (Nobody(fragments, SetsInterval) ==> merged == 300)
  {
    var stanza: ConfigFragment -> Option<AgentFragment> := AgentStanza;
    var setting: AgentFragment -> Option<NonZero> := SteadyInterval;
    var field, sets: ConfigFragment -> bool := Through(stanza, setting), SetsInterval;
    forall f ensures sets(f) <==> field(f).Some? {
      assert stanza(f) == f.agent && (stanza(f).Some? ==> setting(stanza(f).value) == SteadyInterval(f.agent.value));
    }
    LastOrDefault(fragments, field, DEFAULT_STEADY_INTERVAL_SECS, sets, i);
    if IsLast(fragments, sets, i) {
      assert setting(fragments[i].agent.value) == SteadyInterval(fragments[i].agent.value);
    }
  }

  lemma BaseUrlExactly(fragments: seq<ConfigFragment>, i: nat)
    ensures var merged := LastSet(fragments, Through(CincinnatiStanza, BaseUrl), "");
            && (IsLast(fragments, SetsBaseUrl, i) ==> merged == fragments[i].cincinnati.value.baseUrl.value)
            && (Nobody(fragments, SetsBaseUrl) ==> merged == "")
  {
    var stanza: ConfigFragment -> Option<CincinnatiFragment> := CincinnatiStanza;
    var setting: CincinnatiFragment -> Option<string> := BaseUrl;
    var field, sets: ConfigFragment -> bool := Through(stanza, setting), SetsBaseUrl;
    forall f ensures sets(f) <==> field(f).Some? {
      assert stanza(f) == f.cincinnati && (stanza(f).Some? ==> setting(stanza(f).value) == BaseUrl(f.cincinnati.value));
    }
    LastOrDefault(fragments, field, "", sets, i);
    if IsLast(fragments, sets, i) {
      assert setting(fragments[i].cincinnati.value) == BaseUrl(fragments[i].cincinnati.value);
    }
  }

  lemma GroupExactly(fragments: seq<ConfigFragment>, i: nat)
    ensures var merged := LastSet(fragments, Through(IdentityStanza, Group), "");
            && (IsLast(fragments, SetsGroup, i) ==> merged == fragments[i].identity.value.group.value)
            && (Nobody(fragments, SetsGroup) ==> merged == "")
  {
    var stanza: ConfigFragment -> Option<IdentityFragment> := IdentityStanza;
    var setting: IdentityFragment -> Option<string> := Group;
    var field, sets: ConfigFragment -> bool := Through(stanza, setting), SetsGroup;
    forall f ensures sets(f) <==> field(f).Some? {
      assert stanza(f) == f.identity && (stanza(f).Some? ==> setting(stanza(f).value) == Group(f.identity.value));
    }
    LastOrDefault(fragments, field, "", sets, i);
    if IsLast(fragments, sets, i) {
      assert setting(fragments[i].identity.value) == Group(fragments[i].identity.value);
    }
  }

  lemma NodeUuidExactly(fragments: seq<ConfigFragment>, i: nat)
    ensures var merged := LastSet(fragments, Through(IdentityStanza, NodeUuid), "");
            && (IsLast(fragments, SetsNodeUuid, i) ==> merged == fragments[i].identity.value.nodeUuid.value)
            && (Nobody(fragments, SetsNodeUuid) ==> merged == "")
  {
    var stanza: ConfigFragment -> Option<IdentityFragment> := IdentityStanza;
    var setting: IdentityFragment -> Option<string> := NodeUuid;
    var field, sets: ConfigFragment -> bool := Through(stanza, setting), SetsNodeUuid;
    forall f ensures sets(f) <==> field(f).Some? {
      assert stanza(f) == f.identity && (stanza(f).Some? ==> setting(stanza(f).value) == NodeUuid(f.identity.value));
    }
    LastOrDefault(fragments, field, "", sets, i);
    if IsLast(fragments, sets, i) {
      assert setting(fragments[i].identity.value) == NodeUuid(fragments[i].identity.value);
    }
  }

  lemma WarinessExactly(fragments: seq<ConfigFragment>, i: nat)
    ensures var merged := LastSet(fragments, Through(IdentityStanza, RolloutWariness), None);
            && (IsLast(fragments, SetsWariness, i) ==> merged == fragments[i].identity.value.rolloutWariness)
            && (Nobody(fragments, SetsWariness) ==> merged == None)
  {
    var stanza: ConfigFragment -> Option<IdentityFragment> := IdentityStanza;
    var setting: IdentityFragment -> Option<Option<real>> := RolloutWariness;
    var field, sets: ConfigFragment -> bool := Through(stanza, setting), SetsWariness;
    forall f ensures sets(f) <==> field(f).Some? {
      assert stanza(f) == f.identity && (stanza(f).Some? ==> setting(stanza(f).value) == RolloutWariness(f.identity.value));
    }
    LastOrDefault(fragments, field, None, sets, i);
    if IsLast(fragments, sets, i) {
      assert setting(fragments[i].identity.value) == RolloutWariness(fragments[i].identity.value);
    }
  }

  /** Every setting outside the updates stanza is the one of the last fragment that makes it. */
  lemma StanzasExactly(fragments: seq<ConfigFragment>, i: nat)
    ensures var merged := Merged(fragments);
            && (IsLast(fragments, SetsInterval, i) ==>
                  merged.steadyIntervalSecs == fragments[i].agent.value.timing.value.steadyIntervalSecs.value)
            && (IsLast(fragments, SetsBaseUrl, i) ==>
                  merged.cincinnatiBaseUrl == fragments[i].cincinnati.value.baseUrl.value)
            && (IsLast(fragments, SetsGroup, i) ==> merged.identity.group == fragments[i].identity.value.group.value)
            && (IsLast(fragments, SetsNodeUuid, i) ==>
                  merged.identity.nodeUuid == fragments[i].identity.value.nodeUuid.value)
            && (IsLast(fragments, SetsWariness, i) ==>
                  merged.identity.rolloutWariness == fragments[i].identity.value.rolloutWariness)
  {
    IntervalExactly(fragments, i);
    BaseUrlExactly(fragments, i);
    GroupExactly(fragments, i);
    NodeUuidExactly(fragments, i);
    WarinessExactly(fragments, i);
  }

  /** The settings outside the updates stanza that nobody makes: five minutes, and nothing. */
  lemma UnsetStanzas(fragments: seq<ConfigFragment>)
    ensures var merged := Merged(fragments);
            && (Nobody(fragments, SetsInterval) ==> merged.steadyIntervalSecs == 300)
            && (Nobody(fragments, SetsBaseUrl) ==> merged.cincinnatiBaseUrl == "")
            && (Nobody(fragments, SetsGroup) ==> merged.identity.group == "")
            && (Nobody(fragments, SetsNodeUuid) ==> merged.identity.nodeUuid == "")
            && (Nobody(fragments, SetsWariness) ==> merged.identity.rolloutWariness == None)
            && ((forall f | f in fragments :: f.updates == None) ==>
                  merged.updates == UpdateInput(false, true, "", "", [], "UTC"))
  {
    IntervalExactly(fragments, 0);
    BaseUrlExactly(fragments, 0);
    GroupExactly(fragments, 0);
    NodeUuidExactly(fragments, 0);
    WarinessExactly(fragments, 0);
    StanzasArePresent(fragments);
  }

  /** The update stanzas are those of the fragments, in order: none is lost, and none is made up. */
  lemma {:induction false} StanzasArePresent(fragments: seq<ConfigFragment>)
    ensures forall u :: u in Stanzas(fragments, UpdateStanza) <==> exists f :: f in fragments && f.updates == Some(u)
    ensures (forall f | f in fragments :: f.updates == None) ==> Stanzas(fragments, UpdateStanza) == []
  {
    if fragments != [] {
      var last := |fragments| - 1;
      assert fragments == fragments[..last] + [fragments[last]];
      StanzasArePresent(fragments[..last]);
    }
  }
}
