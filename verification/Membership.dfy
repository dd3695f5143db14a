/** Safety of membership changes along every run of configuration transactions. */
module Membership {
  import opened Basics

  datatype Peer = Peer(nodeId: string, raftId: nat, host: string, port: nat)

  /** The consensus part of a configuration; `rest` stands for the fields no rule looks at. */
  datatype Config = Config(members: seq<Peer>, maxRaftId: nat, rest: Bytes)

  ghost function Nodes(members: seq<Peer>): set<string> { set m | m in members :: m.nodeId }

  ghost function RaftIds(members: seq<Peer>): set<nat> { set m | m in members :: m.raftId }

  ghost function Endpoints(members: seq<Peer>): set<(string, nat)> { set m | m in members :: (m.host, m.port) }

  ghost predicate UniqueNodes(members: seq<Peer>) {
    forall i, j :: 0 <= i < j < |members| ==> members[i].nodeId != members[j].nodeId
  }

  ghost predicate UniqueRaftIds(members: seq<Peer>) {
    forall i, j :: 0 <= i < j < |members| ==> members[i].raftId != members[j].raftId
  }

  ghost predicate UniqueEndpoints(members: seq<Peer>) {
    forall i, j :: 0 <= i < j < |members| ==>
      (members[i].host, members[i].port) != (members[j].host, members[j].port)
  }

  predicate ProperPeer(validHost: string -> bool, p: Peer) {
    p.nodeId != "" && p.raftId != 0 && validHost(p.host) && 0 < p.port < 0x1_0000
  }

  /** A configuration that is consistent in itself. */
  ghost predicate Sound(validHost: string -> bool, members: seq<Peer>) {
    && members != [] && (forall m :: m in members ==> ProperPeer(validHost, m))
    && UniqueNodes(members) && UniqueRaftIds(members) && UniqueEndpoints(members)
  }

  /** Names and Raft identifiers set, known hosts, ports that exist, and no name, identifier or endpoint twice. */
  lemma SoundExact(validHost: string -> bool, members: seq<Peer>)
    ensures Sound(validHost, members) <==>
      && |members| > 0
      && (forall i :: 0 <= i < |members| ==>
            var p := members[i]; |p.nodeId| > 0 && p.raftId > 0 && validHost(p.host) && 1 <= p.port <= 65535)
      && (forall i, j :: 0 <= i < |members| && 0 <= j < |members| && i != j ==>
            && members[i].nodeId != members[j].nodeId && members[i].raftId != members[j].raftId
            && (members[i].host != members[j].host || members[i].port != members[j].port))
  {
    if Sound(validHost, members) {
      forall i | 0 <= i < |members|
        ensures var p := members[i]; |p.nodeId| > 0 && p.raftId > 0 && validHost(p.host) && 1 <= p.port <= 65535
      {
        assert members[i] in members;
      }
    }
  }

  ghost predicate NoNil(members: seq<Option<Peer>>) { forall m :: m in members ==> m.Some? }

  ghost function Values(members: seq<Option<Peer>>): seq<Peer>
    requires NoNil(members)
  {
    seq(|members|, i requires 0 <= i < |members| => assert members[i] in members; members[i].value)
  }

  lemma NodesSnoc(members: seq<Peer>, m: Peer)
    ensures Nodes(members + [m]) == Nodes(members) + {m.nodeId}
    ensures UniqueNodes(members) && m.nodeId !in Nodes(members) ==> UniqueNodes(members + [m])
  {
    assert forall i :: 0 <= i < |members| ==> members[i].nodeId in Nodes(members);
  }

  lemma RaftIdsSnoc(members: seq<Peer>, m: Peer)
    ensures RaftIds(members + [m]) == RaftIds(members) + {m.raftId}
    ensures UniqueRaftIds(members) && m.raftId !in RaftIds(members) ==> UniqueRaftIds(members + [m])
  {
    assert forall i :: 0 <= i < |members| ==> members[i].raftId in RaftIds(members);
  }

  lemma EndpointsSnoc(members: seq<Peer>, m: Peer)
    ensures Endpoints(members + [m]) == Endpoints(members) + {(m.host, m.port)}
    ensures UniqueEndpoints(members) && (m.host, m.port) !in Endpoints(members) ==> UniqueEndpoints(members + [m])
  {
    assert forall i :: 0 <= i < |members| ==> (members[i].host, members[i].port) in Endpoints(members);
  }

  /** Member entries may be nil. */
  method ValidateConsensusConfig(validHost: string -> bool, members: seq<Option<Peer>>)
    returns (ok: bool, peers: seq<Peer>)
    ensures ok <==> NoNil(members) && Sound(validHost, Values(members))
    ensures ok ==> peers == Values(members)
  {
    peers := [];
    if |members| == 0 {
      return false, peers;
    }
    var nodeIDs, hostPorts, raftIDs: set<nat> := {}, {}, {};
    for i := 0 to |members|
      invariant |peers| == i && forall k :: 0 <= k < i ==> members[k] == Some(peers[k])
      invariant nodeIDs == Nodes(peers) && raftIDs == RaftIds(peers)
      invariant hostPorts == Endpoints(peers)
      invariant forall m :: m in peers ==> ProperPeer(validHost, m)
      invariant UniqueNodes(peers) && UniqueRaftIds(peers) && UniqueEndpoints(peers)
    {
      assert members[i] in members;
      if members[i].None? {
        return false, peers;
      }
      var m := members[i].value;
      assert NoNil(members) ==> Values(members)[i] == m && Values(members)[..i] == peers;
      if !ProperPeer(validHost, m) {
        assert NoNil(members) ==> m in Values(members);
        return false, peers;
      }
      if m.nodeId in nodeIDs || m.raftId in raftIDs || (m.host, m.port) in hostPorts {
        if NoNil(members) {
          Clash(validHost, Values(members), i);
        }
        return false, peers;
      }
      NodesSnoc(peers, m);
      RaftIdsSnoc(peers, m);
      EndpointsSnoc(peers, m);
      nodeIDs, raftIDs, hostPorts := nodeIDs + {m.nodeId}, raftIDs + {m.raftId}, hostPorts + {(m.host, m.port)};
      peers := peers + [m];
    }
    assert NoNil(members);
    assert peers == Values(members);
    ok := true;
  }

  lemma Clash(validHost: string -> bool, members: seq<Peer>, i: nat)
    requires i < |members|
    requires
      var m, before := members[i], members[..i];
      || m.nodeId in Nodes(before) || m.raftId in RaftIds(before)
      || (m.host, m.port) in Endpoints(before)
    ensures !Sound(validHost, members)
  {
    var m, before := members[i], members[..i];
    var p :| p in before && (p.nodeId == m.nodeId || p.raftId == m.raftId || (p.host, p.port) == (m.host, m.port));
    var j :| 0 <= j < i && members[j] == p;
  }

  // ----- Changes between two configurations -----

  ghost function Added(current: Config, updated: Config): set<string> {
    Nodes(updated.members) - Nodes(current.members)
  }

  ghost function Removed(current: Config, updated: Config): set<string> {
    Nodes(current.members) - Nodes(updated.members)
  }

  /** Members that stay with another endpoint. */
  ghost function Changed(current: Config, updated: Config): set<string> {
    set m | m in updated.members && m.nodeId in Nodes(current.members) && m !in current.members :: m.nodeId
  }

  /** A member that stays keeps its Raft identifier; a new one has a greater identifier than any before. */
  ghost predicate IdsRespected(current: Config, updated: Config) {
    && (forall m, c :: m in updated.members && c in current.members && m.nodeId == c.nodeId ==> m.raftId == c.raftId)
    && (forall m :: m in updated.members && m.nodeId !in Nodes(current.members) ==> m.raftId > current.maxRaftId)
  }

  datatype Changes = Changes(added: seq<Peer>, removed: seq<Peer>, changed: seq<Peer>)

  ghost predicate Lists(peers: seq<Peer>, nodes: set<string>) {
    UniqueNodes(peers) && Nodes(peers) == nodes
  }

  lemma ListsSnoc(peers: seq<Peer>, nodes: set<string>, m: Peer)
    requires Lists(peers, nodes) && m.nodeId !in nodes
    ensures Lists(peers + [m], nodes + {m.nodeId})
  {
    NodesSnoc(peers, m);
  }

  method Find(members: seq<Peer>, nodeId: string) returns (r: Option<Peer>)
    requires UniqueNodes(members)
    ensures r.None? <==> nodeId !in Nodes(members)
    ensures r.Some? ==> r.value in members && r.value.nodeId == nodeId
    ensures r.Some? ==> forall m :: m in members && m.nodeId == nodeId ==> m == r.value
  {
    for i := 0 to |members|
      invariant forall k :: 0 <= k < i ==> members[k].nodeId != nodeId
    {
      if members[i].nodeId == nodeId {
        return Some(members[i]);
      }
    }
    r := None;
  }

  ghost predicate IdRespected(current: Config, m: Peer) {
    && (forall c :: c in current.members && m.nodeId == c.nodeId ==> m.raftId == c.raftId)
    && (m.nodeId !in Nodes(current.members) ==> m.raftId > current.maxRaftId)
  }

  /** One more member: it is new, it has changed, or it stays as it was. */
  lemma ChangesSnoc(current: Config, before: Config, m: Peer)
    requires m.nodeId !in Nodes(before.members)
    ensures
      var after := before.(members := before.members + [m]);
      var stays := m.nodeId in Nodes(current.members);
      && m.nodeId !in Added(current, before) && m.nodeId !in Changed(current, before)
      && Added(current, after) == Added(current, before) + (if stays then {} else {m.nodeId})
      && Changed(current, after)
         == Changed(current, before) + (if stays && m !in current.members then {m.nodeId} else {})
      && (IdsRespected(current, after) <==> IdsRespected(current, before) && IdRespected(current, m))
  {
    NodesSnoc(before.members, m);
    forall c | c in before.members + [m] ensures c in before.members || c == m {}
    assert m in before.members + [m];
  }

  /** A member whose identifier is not respected spoils every configuration it is in. */
  lemma IdsSpoiled(current: Config, updated: Config, m: Peer)
    requires m in updated.members && !IdRespected(current, m)
    ensures !IdsRespected(current, updated)
  {
  }

  method DetectPeerConfigChanges(current: Config, updated: Config) returns (r: Option<Changes>)
    requires UniqueNodes(current.members) && UniqueNodes(updated.members)
    ensures r.Some? <==> IdsRespected(current, updated)
    ensures r.Some? ==> Lists(r.value.added, Added(current, updated))
    ensures r.Some? ==> Lists(r.value.removed, Removed(current, updated))
    ensures r.Some? ==> Lists(r.value.changed, Changed(current, updated))
  {
    var added, removed, changed := [], [], [];
    for i := 0 to |updated.members|
      invariant IdsRespected(current, updated.(members := updated.members[..i]))
      invariant Lists(added, Added(current, updated.(members := updated.members[..i])))
      invariant Lists(changed, Changed(current, updated.(members := updated.members[..i])))
    {
      var m := updated.members[i];
      ghost var before := updated.(members := updated.members[..i]);
      NewNode(updated.members, i);
      assert updated.members[..i + 1] == before.members + [m];
      ChangesSnoc(current, before, m);
      var c := Find(current.members, m.nodeId);
      if c.Some? {
        if m != c.value {
          if m.raftId != c.value.raftId {
            IdsSpoiled(current, updated, m);
            return None;
          }
          ListsSnoc(changed, Changed(current, before), m);
          changed := changed + [m];
        }
      } else {
        if m.raftId <= current.maxRaftId {
          IdsSpoiled(current, updated, m);
          return None;
        }
        ListsSnoc(added, Added(current, before), m);
        added := added + [m];
      }
    }
    assert updated.members[..|updated.members|] == updated.members;
    removed := RemovedPeers(current, updated);
    r := Some(Changes(added, removed, changed));
  }

  lemma NewNode(members: seq<Peer>, i: nat)
    requires UniqueNodes(members) && i < |members|
    ensures members[i].nodeId !in Nodes(members[..i])
  {
  }

  method RemovedPeers(current: Config, updated: Config) returns (removed: seq<Peer>)
    requires UniqueNodes(current.members) && UniqueNodes(updated.members)
    ensures Lists(removed, Removed(current, updated))
  {
    removed := [];
    for i := 0 to |current.members|
      invariant Lists(removed, Removed(current.(members := current.members[..i]), updated))
    {
      var c := current.members[i];
      NewNode(current.members, i);
      assert current.members[..i + 1] == current.members[..i] + [c];
      NodesSnoc(current.members[..i], c);
      var kept := Find(updated.members, c.nodeId);
      if kept.None? {
        ListsSnoc(removed, Nodes(current.members[..i]) - Nodes(updated.members), c);
        removed := removed + [c];
      }
    }
    assert current.members[..|current.members|] == current.members;
  }

  lemma {:induction false} ListLength(peers: seq<Peer>, nodes: set<string>)
    requires Lists(peers, nodes)
    ensures |peers| == |nodes|
  {
    if peers != [] {
      var n := |peers| - 1;
      assert peers == peers[..n] + [peers[n]];
      NewNode(peers, n);
      ListLength(peers[..n], nodes - {peers[n].nodeId});
    }
  }

  /** What the code accepts. */
  ghost predicate Acceptable(current: Config, updated: Config) {
    && IdsRespected(current, updated)
    && |Added(current, updated)| + |Removed(current, updated)| <= 1
    && (|Added(current, updated)| + |Removed(current, updated)| == 1 ==> |Changed(current, updated)| <= 1)
  }

  /** What its comment promises: one membership change, or one endpoint change, and not both. */
  ghost predicate Documented(current: Config, updated: Config) {
    && IdsRespected(current, updated)
    && |Added(current, updated)| + |Removed(current, updated)| <= 1
    && |Changed(current, updated)| <= 1
    && (|Added(current, updated)| + |Removed(current, updated)| == 1 ==> |Changed(current, updated)| == 0)
  }

  /** Several endpoint changes without a membership change, or a single one beside it. */
  ghost predicate EndpointsSlipThrough(current: Config, updated: Config) {
    var members, endpoints := |Added(current, updated)| + |Removed(current, updated)|, |Changed(current, updated)|;
    IdsRespected(current, updated) && ((members == 0 && endpoints > 1) || (members == 1 && endpoints == 1))
  }

  /** The verdict is that of the comment unless endpoint changes slip through. */
  method VerifyConsensusReConfig(current: Config, updated: Config) returns (ok: bool)
    requires UniqueNodes(current.members) && UniqueNodes(updated.members)
    ensures ok <==> Acceptable(current, updated)
    ensures (ok <==> Documented(current, updated)) <==> !EndpointsSlipThrough(current, updated)
  {
    var r := DetectPeerConfigChanges(current, updated);
    if r.None? {
      return false;
    }
    ListLength(r.value.added, Added(current, updated));
    ListLength(r.value.removed, Removed(current, updated));
    ListLength(r.value.changed, Changed(current, updated));
    if |r.value.added| + |r.value.removed| > 1 {
      return false;
    }
    if |r.value.added| + |r.value.removed| == 1 && |r.value.changed| > 1 {
      return false;
    }
    ok := true;
  }

  lemma TwoEndpointsAtOnce()
    ensures
      var a, b := Peer("a", 1, "h1", 1), Peer("b", 2, "h2", 1);
      var current := Config([a, b], 2, []);
      var updated := Config([a.(port := 2), b.(port := 2)], 2, []);
      Acceptable(current, updated) && !Documented(current, updated)
  {
    var a, b := Peer("a", 1, "h1", 1), Peer("b", 2, "h2", 1);
    var current := Config([a, b], 2, []);
    var updated := Config([a.(port := 2), b.(port := 2)], 2, []);
    assert a.(port := 2) in updated.members && b.(port := 2) in updated.members;
    assert a in current.members && b in current.members;
    assert Nodes(current.members) == {"a", "b"} == Nodes(updated.members);
    assert Changed(current, updated) == {"a", "b"};
  }

  lemma EndpointBesideNewMember()
    ensures
      var a, b := Peer("a", 1, "h1", 1), Peer("b", 2, "h2", 1);
      var current := Config([a], 1, []);
      var updated := Config([a.(port := 2), b], 2, []);
      Acceptable(current, updated) && !Documented(current, updated)
  {
    var a, b := Peer("a", 1, "h1", 1), Peer("b", 2, "h2", 1);
    var current := Config([a], 1, []);
    var updated := Config([a.(port := 2), b], 2, []);
    assert a.(port := 2) in updated.members && b in updated.members && a in current.members;
    assert Nodes(current.members) == {"a"} && Nodes(updated.members) == {"a", "b"};
    assert Added(current, updated) == {"b"} && Removed(current, updated) == {};
    assert Changed(current, updated) == {"a"};
  }

  // ----- Runs -----

  function MaxId(maxId: nat, members: seq<Peer>): nat {
    if members == [] then maxId
    else
      var before := MaxId(maxId, members[..|members| - 1]);
      if members[|members| - 1].raftId > before then members[|members| - 1].raftId else before
  }

  /** The committed configuration: its maximum comes from the old one and the members, not from the transaction. */
  method ConstructConfig(current: Config, tx: Config) returns (committed: Config)
    ensures committed == Committed(current, tx)
  {
    var maxID := current.maxRaftId;
    for i := 0 to |tx.members|
      invariant maxID == MaxId(current.maxRaftId, tx.members[..i])
    {
      assert tx.members[..i + 1][..i] == tx.members[..i];
      if tx.members[i].raftId > maxID {
        maxID := tx.members[i].raftId;
      }
    }
    assert tx.members[..|tx.members|] == tx.members;
    committed := tx.(maxRaftId := maxID);
  }

  function Committed(current: Config, tx: Config): Config {
    tx.(maxRaftId := MaxId(current.maxRaftId, tx.members))
  }

  lemma {:induction false} MaxIdBounds(maxId: nat, members: seq<Peer>)
    ensures maxId <= MaxId(maxId, members)
    ensures forall m :: m in members ==> m.raftId <= MaxId(maxId, members)
    ensures MaxId(maxId, members) == maxId || exists m :: m in members && m.raftId == MaxId(maxId, members)
  {
    if members != [] {
      var n := |members| - 1;
      assert members == members[..n] + [members[n]];
      MaxIdBounds(maxId, members[..n]);
    }
  }

  /** A transaction that validation lets through: sound, and unchanged or an acceptable change. */
  ghost predicate ValidTx(validHost: string -> bool, current: Config, tx: Config) {
    Sound(validHost, tx.members) && (tx == current || Acceptable(current, tx))
  }

  ghost predicate Run(validHost: string -> bool, configs: seq<Config>, txs: seq<Config>) {
    && |configs| == |txs| + 1 && Sound(validHost, configs[0].members)
    && configs[0].maxRaftId == MaxId(0, configs[0].members)
    && forall i :: 0 <= i < |txs| ==>
         ValidTx(validHost, configs[i], txs[i]) && configs[i + 1] == Committed(configs[i], txs[i])
  }

  lemma StepFacts(validHost: string -> bool, configs: seq<Config>, txs: seq<Config>, i: nat)
    requires Run(validHost, configs, txs) && i < |txs|
    ensures configs[i + 1].members == txs[i].members && Sound(validHost, configs[i + 1].members)
    ensures IdsRespected(configs[i], configs[i + 1]) || configs[i].members == configs[i + 1].members
    ensures |Added(configs[i], configs[i + 1])| + |Removed(configs[i], configs[i + 1])| <= 1
    ensures configs[i].maxRaftId <= configs[i + 1].maxRaftId
  {
    MaxIdBounds(configs[i].maxRaftId, txs[i].members);
    assert ValidTx(validHost, configs[i], txs[i]) && configs[i + 1] == Committed(configs[i], txs[i]);
  }

  /** The maximum is at least every identifier given so far. */
  lemma {:induction false} MaxCoversAll(
    validHost: string -> bool, configs: seq<Config>, txs: seq<Config>, i: nat, j: nat)
    requires Run(validHost, configs, txs) && i <= j <= |txs|
    ensures Sound(validHost, configs[j].members)
    ensures forall m :: m in configs[i].members ==> m.raftId <= configs[j].maxRaftId
    decreases j
  {
    if j == 0 {
      MaxIdBounds(0, configs[0].members);
    } else {
      StepFacts(validHost, configs, txs, j - 1);
      MaxIdBounds(configs[j - 1].maxRaftId, txs[j - 1].members);
      if i < j { MaxCoversAll(validHost, configs, txs, i, j - 1); }
    }
  }

  /** The member comes with its identifier from the configuration before, or the identifier is new. */
  lemma IdOfStep(validHost: string -> bool, configs: seq<Config>, txs: seq<Config>, i: nat, m: Peer)
    requires Run(validHost, configs, txs) && i < |txs| && m in configs[i + 1].members
    ensures
      || m.raftId > configs[i].maxRaftId
      || exists c :: c in configs[i].members && c.nodeId == m.nodeId && c.raftId == m.raftId
  {
    StepFacts(validHost, configs, txs, i);
    if m.nodeId in Nodes(configs[i].members) && m !in configs[i].members {
      var c :| c in configs[i].members && c.nodeId == m.nodeId;
    }
  }

  /** An identifier a member has at the end of a stretch is new in it, or the same node has it all along. */
  lemma {:induction false} IdOrigin(
    validHost: string -> bool, configs: seq<Config>, txs: seq<Config>, i: nat, j: nat, m: Peer)
    requires Run(validHost, configs, txs) && i <= j <= |txs| && m in configs[j].members
    ensures
      || m.raftId > configs[i].maxRaftId
      || exists c :: c in configs[i].members && c.nodeId == m.nodeId && c.raftId == m.raftId
    decreases j
  {
    if i < j {
      IdOfStep(validHost, configs, txs, j - 1, m);
      if m.raftId > configs[j - 1].maxRaftId {
        RunMaxGrows(validHost, configs, txs);
        StepsMax(configs, i, j - 1);
      } else {
        var c :| c in configs[j - 1].members && c.nodeId == m.nodeId && c.raftId == m.raftId;
        IdOrigin(validHost, configs, txs, i, j - 1, c);
      }
    }
  }

  lemma StepMax(validHost: string -> bool, configs: seq<Config>, txs: seq<Config>, i: nat)
    requires Run(validHost, configs, txs) && i < |txs|
    ensures configs[i].maxRaftId <= configs[i + 1].maxRaftId
  {
    MaxIdBounds(configs[i].maxRaftId, txs[i].members);
  }

  ghost predicate MaxGrows(configs: seq<Config>) {
    forall i :: 0 <= i < |configs| - 1 ==> configs[i].maxRaftId <= configs[i + 1].maxRaftId
  }

  lemma RunMaxGrows(validHost: string -> bool, configs: seq<Config>, txs: seq<Config>)
    requires Run(validHost, configs, txs)
    ensures MaxGrows(configs)
  {
    forall i | 0 <= i < |configs| - 1 ensures configs[i].maxRaftId <= configs[i + 1].maxRaftId {
      StepMax(validHost, configs, txs, i);
    }
  }

  lemma {:induction false} StepsMax(configs: seq<Config>, i: nat, j: nat)
    requires MaxGrows(configs) && i <= j < |configs|
    ensures configs[i].maxRaftId <= configs[j].maxRaftId
    decreases j
  {
    if i < j {
      StepsMax(configs, i, j - 1);
      assert configs[j - 1].maxRaftId <= configs[j - 1 + 1].maxRaftId;
    }
  }

  /** A Raft identifier once given to a node is never given to another. */
  lemma RaftIdsNeverReused(
    validHost: string -> bool, configs: seq<Config>, txs: seq<Config>, i: nat, j: nat, a: Peer, b: Peer)
    requires Run(validHost, configs, txs) && i <= j <= |txs|
    requires a in configs[i].members && b in configs[j].members && a.raftId == b.raftId
    ensures a.nodeId == b.nodeId
  {
    MaxCoversAll(validHost, configs, txs, i, i);
    IdOrigin(validHost, configs, txs, i, j, b);
    var c :| c in configs[i].members && c.nodeId == b.nodeId && c.raftId == b.raftId;
    var x :| 0 <= x < |configs[i].members| && configs[i].members[x] == a;
    var y :| 0 <= y < |configs[i].members| && configs[i].members[y] == c;
    assert x == y;
  }

  /** Not even to the same node, once it was removed. */
  lemma RemovedIdsNeverReturn(
    validHost: string -> bool, configs: seq<Config>, txs: seq<Config>, i: nat, k: nat, j: nat, a: Peer)
    requires Run(validHost, configs, txs) && i <= k <= j <= |txs|
    requires a in configs[i].members && a.raftId !in RaftIds(configs[k].members)
    ensures a.raftId !in RaftIds(configs[j].members)
  {
    MaxCoversAll(validHost, configs, txs, i, k);
    forall b | b in configs[j].members ensures b.raftId != a.raftId {
      IdOrigin(validHost, configs, txs, k, j, b);
    }
  }

  ghost predicate Majority(quorum: set<nat>, ids: set<nat>) {
    quorum <= ids && 2 * |quorum| > |ids|
  }

  lemma DisjointSizes(a: set<nat>, b: set<nat>, all: set<nat>)
    requires a <= all && b <= all && a !! b
    ensures |a| + |b| <= |all|
  {
    SubsetSize(a + b, all);
  }

  lemma {:induction false} SubsetSize<T>(a: set<T>, b: set<T>)
    requires a <= b
    ensures |a| <= |b|
    decreases a
  {
    if a != {} {
      var x :| x in a;
      SubsetSize(a - {x}, b - {x});
    }
  }

  /** Sets that differ by one element at most: their majorities meet. */
  lemma MajoritiesMeet(p: set<nat>, q: set<nat>, ids1: set<nat>, ids2: set<nat>)
    requires |ids1 - ids2| + |ids2 - ids1| <= 1 && Majority(p, ids1) && Majority(q, ids2)
    ensures p * q != {}
  {
    var all := ids1 + ids2;
    assert all == ids1 + (ids2 - ids1) && all == ids2 + (ids1 - ids2);
    assert |all| == |ids1| + |ids2 - ids1| && |all| == |ids2| + |ids1 - ids2|;
    if p !! q {
      DisjointSizes(p, q, all);
    }
  }

  /** One more member with its identifier. */
  lemma CountStep(ids: set<nat>, idsB: set<nat>, id: nat, nodes: set<string>, nodesB: set<string>, node: string)
    requires |ids - idsB| <= |nodes - nodesB| && node !in nodes && (node in nodesB ==> id in idsB)
    ensures |(ids + {id}) - idsB| <= |(nodes + {node}) - nodesB|
  {
    if node in nodesB {
      assert (ids + {id}) - idsB == ids - idsB && (nodes + {node}) - nodesB == nodes - nodesB;
    } else {
      assert (nodes + {node}) - nodesB == (nodes - nodesB) + {node};
      SubsetSize((ids + {id}) - idsB, (ids - idsB) + {id});
    }
  }

  /** Members missing in `b` account for the identifiers missing in it. */
  lemma {:induction false} IdsFollowNodes(a: seq<Peer>, b: seq<Peer>)
    requires UniqueNodes(a)
    requires forall m, c :: m in a && c in b && m.nodeId == c.nodeId ==> m.raftId == c.raftId
    ensures |RaftIds(a) - RaftIds(b)| <= |Nodes(a) - Nodes(b)|
    decreases |a|
  {
    if a == [] {
      assert RaftIds(a) - RaftIds(b) == {};
    } else {
      var n := |a| - 1;
      var rest, m := a[..n], a[n];
      assert a == rest + [m];
      NewNode(a, n);
      IdsFollowNodes(rest, b);
      NodesSnoc(rest, m);
      RaftIdsSnoc(rest, m);
      assert m.nodeId in Nodes(b) ==> m.raftId in RaftIds(b);
      CountStep(RaftIds(rest), RaftIds(b), m.raftId, Nodes(rest), Nodes(b), m.nodeId);
    }
  }

  /** Along a run, a majority of one member set meets every majority of the next. */
  lemma QuorumsIntersect(
    validHost: string -> bool, configs: seq<Config>, txs: seq<Config>, i: nat, p: set<nat>, q: set<nat>)
    requires Run(validHost, configs, txs) && i < |txs|
    requires Majority(p, RaftIds(configs[i].members)) && Majority(q, RaftIds(configs[i + 1].members))
    ensures p * q != {}
  {
    StepFacts(validHost, configs, txs, i);
    MaxCoversAll(validHost, configs, txs, i, i);
    var a, b := configs[i].members, configs[i + 1].members;
    assert a == b ==> RaftIds(a) == RaftIds(b) && Nodes(a) == Nodes(b);
    if a == b {
      assert RaftIds(a) - RaftIds(b) == {} && RaftIds(b) - RaftIds(a) == {};
    } else {
      IdsFollowNodes(a, b);
      IdsFollowNodes(b, a);
    }
    MajoritiesMeet(p, q, RaftIds(a), RaftIds(b));
  }
}
