/** Applying the committed entries of the Raft log to the ledger, exactly once, over replays and restarts. */
module RaftApply {
  import opened Basics

  /** Bytes that should hold a block: none, bytes that do not parse, or a block. */
  datatype Content = Empty | Garbage | Carries(block: Bytes)

  datatype Change = AddNode(id: nat) | RemoveNode(id: nat) | UpdateNode(id: nat) | AddLearnerNode(id: nat)

  /** Normal entries and the two forms of membership changes; None when the change does not parse. */
  datatype Kind =
    | Normal(data: Content)
    | ConfChange(change: Option<Change>)
    | ConfChangeV2(changes: Option<seq<Change>>, context: Content)

  datatype Entry = Entry(index: nat, kind: Kind)

  /** A block in the ledger with the Raft index in its consensus metadata. */
  datatype Committed = Committed(block: Bytes, index: nat)

  function Voters(voters: set<nat>, changes: seq<Change>): set<nat> {
    if changes == [] then voters
    else
      var before := Voters(voters, changes[..|changes| - 1]);
      match changes[|changes| - 1]
      case AddNode(id) => before + {id}
      case RemoveNode(id) => before - {id}
      case UpdateNode(_) => before
      case AddLearnerNode(id) => before - {id}
  }

  /** A node votes exactly if it was added and not taken out or made a learner since, or voted all along. */
  lemma {:induction false} VotersExact(voters: set<nat>, changes: seq<Change>, id: nat)
    ensures id in Voters(voters, changes) <==>
      || (exists i :: 0 <= i < |changes| && changes[i] == AddNode(id) && Stays(changes, i + 1, id))
      || (id in voters && Stays(changes, 0, id))
  {
    if changes != [] {
      var before, last := changes[..|changes| - 1], changes[|changes| - 1];
      VotersExact(voters, before, id);
      forall i | 0 <= i <= |before|
        ensures Stays(changes, i, id) <==> Stays(before, i, id) && last != RemoveNode(id) && last != AddLearnerNode(id)
      {
        StaysSnoc(before, last, i, id);
        assert changes == before + [last];
      }
      assert Stays(changes, |changes|, id);
      if last == AddNode(id) { assert changes[|before|] == AddNode(id); }
      forall i | 0 <= i < |before| ensures changes[i] == before[i] {}
    }
  }

  /** No change from the i-th on takes the node out or makes it a learner. */
  ghost predicate Stays(changes: seq<Change>, i: nat, id: nat) {
    forall j :: i <= j < |changes| ==> changes[j] != RemoveNode(id) && changes[j] != AddLearnerNode(id)
  }

  lemma StaysSnoc(before: seq<Change>, last: Change, i: nat, id: nat)
    requires i <= |before|
    ensures Stays(before + [last], i, id) <==>
      Stays(before, i, id) && last != RemoveNode(id) && last != AddLearnerNode(id)
  {
    var changes := before + [last];
    assert changes[|before|] == last && forall j :: 0 <= j < |before| ==> changes[j] == before[j];
  }

  /** Membership changes that do not parse are passed over, and do not count as applied. */
  predicate PassedOver(e: Entry) {
    match e.kind
    case Normal(_) => false
    case ConfChange(change) => change.None?
    case ConfChangeV2(changes, _) => changes.None?
  }

  /** In the first form of membership changes only additions and removals are supported. */
  predicate Unsupported(e: Entry) {
    e.kind.ConfChange? && e.kind.change.Some? && !e.kind.change.value.AddNode? && !e.kind.change.value.RemoveNode?
  }

  function ContentOf(e: Entry): Content {
    match e.kind
    case Normal(data) => data
    case ConfChange(_) => Empty
    case ConfChangeV2(changes, context) => if changes.None? then Empty else context
  }

  function VotersAfter(voters: set<nat>, e: Entry): set<nat> {
    match e.kind
    case Normal(_) => voters
    case ConfChange(change) => if change.None? then voters else Voters(voters, [change.value])
    case ConfChangeV2(changes, _) => if changes.None? then voters else Voters(voters, changes.value)
  }

  /** All membership changes that the first i entries of a batch make. */
  ghost function ChangesIn(batch: seq<Entry>, i: nat): seq<Change>
    requires i <= |batch|
  {
    if i == 0 then []
    else
      ChangesIn(batch, i - 1) +
      match batch[i - 1].kind
      case ConfChange(Some(change)) => [change]
      case ConfChangeV2(Some(changes), _) => changes
      case _ => []
  }

  lemma {:induction false} VotersAppend(voters: set<nat>, a: seq<Change>, b: seq<Change>)
    ensures Voters(voters, a + b) == Voters(Voters(voters, a), b)
    decreases |b|
  {
    if b == [] {
      assert a + b == a;
    } else {
      var ab := a + b;
      assert ab[..|ab| - 1] == a + b[..|b| - 1] && ab[|ab| - 1] == b[|b| - 1];
      VotersAppend(voters, a, b[..|b| - 1]);
    }
  }

  lemma ChangesStep(voters: set<nat>, batch: seq<Entry>, i: nat)
    requires i < |batch|
    ensures VotersAfter(Voters(voters, ChangesIn(batch, i)), batch[i]) == Voters(voters, ChangesIn(batch, i + 1))
  {
    var before := ChangesIn(batch, i);
    match batch[i].kind
    case ConfChange(Some(change)) => VotersAppend(voters, before, [change]);
    case ConfChangeV2(Some(changes), _) => VotersAppend(voters, before, changes);
    case _ => assert ChangesIn(batch, i + 1) == before;
  }

  /** The queue to the block processor is closed when the block comes. */
  predicate Refused(e: Entry, appliedIndex: nat, accepts: bool) {
    e.index > appliedIndex && ContentOf(e).Carries? && !accepts
  }

  predicate RemovesSelf(e: Entry, raftID: nat, voters: set<nat>) {
    e.kind.ConfChangeV2? && e.kind.changes.Some? && raftID !in VotersAfter(voters, e)
  }

  /** The entry is bytes that do not parse where a block is due, which panics before anything else happens. */
  predicate Unreadable(e: Entry, appliedIndex: nat) {
    e.index > appliedIndex && ContentOf(e) == Garbage
  }

  predicate Goes(e: Entry, appliedIndex: nat, raftID: nat, voters: set<nat>, accepts: bool) {
    && !Unreadable(e, appliedIndex) && !Unsupported(e)
    && !Refused(e, appliedIndex, accepts) && !RemovesSelf(e, raftID, voters)
  }

  function AppliedAfter(appliedIndex: nat, e: Entry): nat {
    if PassedOver(e) then appliedIndex else Max(appliedIndex, e.index)
  }

  /** The removal of this node comes with a block that is not applied yet: the block is stored, the index is not. */
  predicate RunsAhead(e: Entry, appliedIndex: nat, raftID: nat, voters: set<nat>, accepts: bool) {
    e.index > appliedIndex && ContentOf(e).Carries? && accepts && RemovesSelf(e, raftID, voters)
  }

  /** The batch is the stretch of the log after its first entries. */
  ghost predicate Stretch(batch: seq<Entry>, log: seq<Entry>, from: nat) {
    from + |batch| <= |log| && forall i :: 0 <= i < |batch| ==> batch[i] == log[from + i]
  }

  /**
   * Where a batch stops, which is its end if no entry stops it, whether the ledger is then ahead of the index, and the
   * voters after the entries gone through.
   */
  datatype Outcome = Outcome(stop: nat, ahead: bool, voters: set<nat>)

  /** The outcome of a batch from its i-th entry on. */
  function OutcomeOf(
    batch: seq<Entry>, accepts: seq<bool>, i: nat, appliedIndex: nat, raftID: nat, voters: set<nat>): (o: Outcome)
    requires i <= |batch| == |accepts|
    ensures i <= o.stop <= |batch| && (o.ahead ==> o.stop < |batch|)
    decreases |batch| - i
  {
    if i == |batch| then Outcome(i, false, voters)
    else if Goes(batch[i], appliedIndex, raftID, voters, accepts[i]) then
      OutcomeOf(batch, accepts, i + 1, AppliedAfter(appliedIndex, batch[i]), raftID, VotersAfter(voters, batch[i]))
    else Outcome(i, RunsAhead(batch[i], appliedIndex, raftID, voters, accepts[i]), voters)
  }

  /** The voters of the outcome are those that all changes up to it make. */
  lemma {:induction false} OutcomeVoters(
    batch: seq<Entry>, accepts: seq<bool>, i: nat, appliedIndex: nat, raftID: nat, voters: set<nat>, was: set<nat>)
    requires i <= |batch| == |accepts| && voters == Voters(was, ChangesIn(batch, i))
    ensures
      var o := OutcomeOf(batch, accepts, i, appliedIndex, raftID, voters);
      o.voters == Voters(was, ChangesIn(batch, o.stop))
    decreases |batch| - i
  {
    if i < |batch| && Goes(batch[i], appliedIndex, raftID, voters, accepts[i]) {
      ChangesStep(was, batch, i);
      OutcomeVoters(
        batch, accepts, i + 1, AppliedAfter(appliedIndex, batch[i]), raftID, VotersAfter(voters, batch[i]), was);
    }
  }

  /** What each kind of entry asks for so as not to stop the batch. */
  ghost predicate Passes(e: Entry, appliedIndex: nat, raftID: nat, voters: set<nat>, accepts: bool) {
    match e.kind
    case Normal(data) => e.index <= appliedIndex || data == Empty || (data.Carries? && accepts)
    case ConfChange(change) => change.None? || change.value.AddNode? || change.value.RemoveNode?
    case ConfChangeV2(changes, context) =>
      || changes.None?
      || (&& (e.index <= appliedIndex || context == Empty || (context.Carries? && accepts))
          && raftID in Voters(voters, changes.value))
  }

  lemma GoesExact(e: Entry, appliedIndex: nat, raftID: nat, voters: set<nat>, accepts: bool)
    ensures Goes(e, appliedIndex, raftID, voters, accepts) <==> Passes(e, appliedIndex, raftID, voters, accepts)
  {
  }

  /** Raft numbers the entries of its log from one. */
  ghost predicate Numbered(log: seq<Entry>) {
    forall i :: 0 <= i < |log| ==> log[i].index == i + 1
  }

  function Added(e: Entry): seq<Committed> {
    if ContentOf(e).Carries? then [Committed(ContentOf(e).block, e.index)] else []
  }

  /** The blocks of the first n entries of the log, in order. */
  ghost function Blocks(log: seq<Entry>, n: nat): seq<Committed>
    requires n <= |log|
  {
    if n == 0 then [] else Blocks(log, n - 1) + Added(log[n - 1])
  }

  /** The entry is a block, or a membership change that parses and carries one. */
  ghost predicate Brings(e: Entry, block: Bytes) {
    match e.kind
    case Normal(data) => data == Carries(block)
    case ConfChange(_) => false
    case ConfChangeV2(changes, context) => changes.Some? && context == Carries(block)
  }

  /** The ledger holds each block of the first n entries once, under the index of its entry, and nothing else. */
  ghost predicate HoldsBlocks(ledger: seq<Committed>, log: seq<Entry>, n: nat)
    requires n <= |log|
  {
    && (forall k, block :: 0 <= k < n && Brings(log[k], block) ==> Committed(block, k + 1) in ledger)
    && (forall i :: 0 <= i < |ledger| ==>
          1 <= ledger[i].index <= n && Brings(log[ledger[i].index - 1], ledger[i].block))
    && (forall i, j :: 0 <= i < j < |ledger| ==> ledger[i].index < ledger[j].index)
  }

  lemma BlocksHeld(log: seq<Entry>, n: nat)
    requires Numbered(log) && n <= |log|
    ensures HoldsBlocks(Blocks(log, n), log, n)
  {
    BlocksOnce(log, n);
    forall k, block | 0 <= k < n && Brings(log[k], block) ensures Committed(block, k + 1) in Blocks(log, n) {
      BlocksComplete(log, n, k);
    }
  }

  /** Every entry gives at most one block of the ledger, and they come in the order of the log. */
  lemma {:induction false} BlocksOnce(log: seq<Entry>, n: nat)
    requires Numbered(log) && n <= |log|
    ensures forall i :: 0 <= i < |Blocks(log, n)| ==>
      var c := Blocks(log, n)[i]; 1 <= c.index <= n && Brings(log[c.index - 1], c.block)
    ensures forall i, j :: 0 <= i < j < |Blocks(log, n)| ==> Blocks(log, n)[i].index < Blocks(log, n)[j].index
  {
    if n > 0 { BlocksOnce(log, n - 1); }
  }

  /** No entry that carries a block is left out. */
  lemma {:induction false} BlocksComplete(log: seq<Entry>, n: nat, k: nat)
    requires Numbered(log) && k < n <= |log|
    ensures forall block :: Brings(log[k], block) ==> Committed(block, k + 1) in Blocks(log, n)
    decreases n
  {
    if k < n - 1 { BlocksComplete(log, n - 1, k); }
  }

  /** The index a node restarts from: that of the last block in its ledger. */
  function LastIndex(ledger: seq<Committed>): nat {
    if ledger == [] then 0 else ledger[|ledger| - 1].index
  }

  lemma {:induction false} LastIndexCovers(log: seq<Entry>, n: nat)
    requires Numbered(log) && n <= |log|
    ensures LastIndex(Blocks(log, n)) <= n
    ensures Blocks(log, LastIndex(Blocks(log, n))) == Blocks(log, n)
  {
    if n > 0 {
      BlocksOne(log, n - 1);
      if !ContentOf(log[n - 1]).Carries? {
        LastIndexCovers(log, n - 1);
      }
    }
  }

  datatype Result = Continue | Stop | Panic

  class BlockReplicator {
    const raftID: nat
    var appliedIndex: nat
    /** The blocks after the genesis block, which does not come from Raft. */
    var ledger: seq<Committed>
    var voters: set<nat>

    /** A start with a ledger that holds the blocks of a part of the log. */
    constructor (raftID: nat, ledger: seq<Committed>, voters: set<nat>, ghost log: seq<Entry>, ghost n: nat)
      requires Numbered(log) && n <= |log| && ledger == Blocks(log, n)
      ensures this.raftID == raftID && this.ledger == ledger && this.voters == voters && Synced(log)
    {
      this.raftID, this.ledger, this.voters := raftID, ledger, voters;
      appliedIndex := LastIndex(ledger);
      LastIndexCovers(log, n);
    }

    /** The ledger holds the blocks of the entries up to the applied index. */
    ghost predicate Synced(log: seq<Entry>)
      reads this
    {
      appliedIndex <= |log| && ledger == Blocks(log, appliedIndex)
    }

    /** The block of one entry goes to the ledger unless the entry is already applied; false if it is refused. */
    method CommitContent(e: Entry, content: Content, accepts: bool) returns (r: Result)
      requires content != Empty ==> content == ContentOf(e)
      modifies this`ledger
      ensures r == Panic <==> e.index > appliedIndex && content == Garbage
      ensures r == Stop <==> e.index > appliedIndex && content.Carries? && !accepts
      ensures ledger ==
        if r == Continue && e.index > appliedIndex && content.Carries?
        then old(ledger) + [Committed(content.block, e.index)] else old(ledger)
    {
      if e.index <= appliedIndex || content == Empty {
        return Continue;
      }
      if content == Garbage {
        return Panic;
      }
      if !accepts {
        return Stop;
      }
      ledger := ledger + [Committed(content.block, e.index)];
      r := Continue;
    }

    /** One entry up to the update of the applied index; membership changes apply even when the block is old. */
    method ProcessEntry(e: Entry, accepts: bool) returns (r: Result)
      modifies this`ledger, this`voters
      ensures r == Panic <==> Unreadable(e, appliedIndex) || Unsupported(e)
      ensures r == Stop <==>
        r != Panic && (Refused(e, appliedIndex, accepts) || RemovesSelf(e, raftID, old(voters)))
      ensures r == Continue <==> Goes(e, appliedIndex, raftID, old(voters), accepts)
      ensures ledger ==
        if e.index > appliedIndex && ContentOf(e).Carries? && accepts
        then old(ledger) + [Committed(ContentOf(e).block, e.index)] else old(ledger)
      ensures forall block :: Brings(e, block) && e.index > appliedIndex && accepts ==>
        ledger == old(ledger) + [Committed(block, e.index)]
      ensures voters ==
        if Unreadable(e, appliedIndex) || Refused(e, appliedIndex, accepts) then old(voters)
        else VotersAfter(old(voters), e)
    {
      match e.kind
      case Normal(data) =>
        r := CommitContent(e, data, accepts);
      case ConfChange(change) =>
        r := Continue;
        if change.Some? {
          voters := Voters(voters, [change.value]);
          if !change.value.AddNode? && !change.value.RemoveNode? {
            r := Panic;
          }
        }
      case ConfChangeV2(changes, context) =>
        if changes.None? {
          return Continue;
        }
        r := CommitContent(e, context, accepts);
        if r != Continue {
          return;
        }
        voters := Voters(voters, changes.value);
        if raftID !in voters {
          return Stop;
        }
    }

    /** In step with the first k entries too, which add nothing to those applied. */
    ghost predicate SyncedAt(log: seq<Entry>, k: nat)
      reads this
    {
      Synced(log) && k <= |log| && ledger == Blocks(log, Max(appliedIndex, k))
    }

    /** One entry, and the update of the applied index; `n` is where the prefix in the ledger ends. */
    method DeliverEntry(e: Entry, accepts: bool, ghost log: seq<Entry>, ghost k: nat)
      returns (r: Result, ghost n: nat)
      requires Numbered(log) && k < |log| && e == log[k] && SyncedAt(log, k)
      modifies this`appliedIndex, this`ledger, this`voters
      ensures old(appliedIndex) <= appliedIndex <= n <= Max(old(appliedIndex), k + 1) <= |log|
      ensures ledger == Blocks(log, n)
      ensures r == Continue <==> Goes(e, old(appliedIndex), raftID, old(voters), accepts)
      ensures r == Continue ==> SyncedAt(log, k + 1)
      ensures r == Continue ==>
        appliedIndex == AppliedAfter(old(appliedIndex), e) && voters == VotersAfter(old(voters), e)
      ensures Synced(log) <==> !RunsAhead(e, old(appliedIndex), raftID, old(voters), accepts)
      ensures r != Continue ==>
        n == Max(old(appliedIndex), k + if RunsAhead(e, old(appliedIndex), raftID, old(voters), accepts) then 1 else 0)
    {
      BlocksStep(log, appliedIndex, k);
      r := ProcessEntry(e, accepts);
      if r != Continue {
        n := if RunsAhead(e, appliedIndex, raftID, old(voters), accepts) then k + 1 else Max(appliedIndex, k);
        return;
      }
      n := Max(appliedIndex, k + 1);
      if !PassedOver(e) {
        if appliedIndex < e.index {
          appliedIndex := e.index;
        }
      }
    }

    /**
     * A batch is a stretch of the log. It must not leave a gap after the applied index. Entries are processed in
     * order, and the applied index follows each one, but for changes that do not parse and for the removal of this
     * node: if that comes with a new block, the ledger is ahead of the index.
     */
    method DeliverEntries(batch: seq<Entry>, accepts: seq<bool>, ghost log: seq<Entry>, ghost from: nat)
      returns (r: Result, ghost n: nat)
      requires Numbered(log) && Synced(log) && |accepts| == |batch|
      requires Stretch(batch, log, from)
      modifies this`appliedIndex, this`ledger, this`voters
      ensures appliedIndex >= old(appliedIndex) && n <= |log| && HoldsBlocks(ledger, log, n)
      ensures batch != [] && from > old(appliedIndex) ==> r == Panic && n == old(appliedIndex)
      ensures batch == [] ==> r == Continue && n == old(appliedIndex)
      ensures batch != [] && from <= old(appliedIndex) ==>
        var o := OutcomeOf(batch, accepts, 0, old(appliedIndex), raftID, old(voters));
        && (r == Continue <==> o.stop == |batch|) && (Synced(log) <==> !o.ahead)
        && n == Max(old(appliedIndex), from + o.stop + if o.ahead then 1 else 0)
      ensures r == Continue ==> voters == Voters(old(voters), ChangesIn(batch, |batch|))
      ensures batch == [] || from > old(appliedIndex) ==> Synced(log)
      ensures ledger == Blocks(log, n)
    {
      OutcomeVoters(batch, accepts, 0, appliedIndex, raftID, voters, voters);
      r, n := DeliverBatch(batch, accepts, log, from, OutcomeOf(batch, accepts, 0, appliedIndex, raftID, voters));
      BlocksHeld(log, n);
    }

    method DeliverBatch(
      batch: seq<Entry>, accepts: seq<bool>, ghost log: seq<Entry>, ghost from: nat, ghost o: Outcome)
      returns (r: Result, ghost n: nat)
      requires Numbered(log) && Synced(log) && |accepts| == |batch| && ToCome(batch, accepts, 0, o)
      requires Stretch(batch, log, from)
      modifies this`appliedIndex, this`ledger, this`voters
      ensures old(appliedIndex) <= appliedIndex && n <= |log| && ledger == Blocks(log, n)
      ensures batch != [] && from > old(appliedIndex) ==> r == Panic
      ensures batch == [] || from > old(appliedIndex) ==> n == old(appliedIndex) && Synced(log)
      ensures batch == [] ==> r == Continue && !o.ahead
      ensures batch != [] && from <= old(appliedIndex) ==>
        && (r == Continue <==> o.stop == |batch|) && (Synced(log) <==> !o.ahead)
        && n == Max(old(appliedIndex), from + o.stop + if o.ahead then 1 else 0)
      ensures r == Continue ==> voters == o.voters
    {
      n := appliedIndex;
      if |batch| == 0 {
        return Continue, n;
      }
      assert batch[0] == log[from] && batch[0].index == from + 1;
      if batch[0].index > appliedIndex + 1 {
        return Panic, n;
      }
      r, n := DeliverAll(batch, accepts, log, from, o);
    }

    method DeliverAll(
      batch: seq<Entry>, accepts: seq<bool>, ghost log: seq<Entry>, ghost from: nat, ghost o: Outcome)
      returns (r: Result, ghost n: nat)
      requires Numbered(log) && Synced(log) && from <= appliedIndex && |accepts| == |batch|
      requires ToCome(batch, accepts, 0, o)
      requires Stretch(batch, log, from)
      modifies this`appliedIndex, this`ledger, this`voters
      ensures old(appliedIndex) <= appliedIndex && n <= |log| && ledger == Blocks(log, n)
      ensures (Synced(log) <==> !o.ahead) && (r == Continue <==> o.stop == |batch|)
      ensures n == Max(old(appliedIndex), from + o.stop + if o.ahead then 1 else 0)
      ensures r == Continue ==> voters == o.voters
    {
      ghost var start, k := appliedIndex, from;
      for i := 0 to |batch|
        invariant k == from + i && MovedFrom(start, k) && SyncedAt(log, k) && ToCome(batch, accepts, i, o)
      {
        r, n := DeliverNext(batch, accepts, i, log, from, k, start, o);
        if r != Continue {
          return;
        }
        k := k + 1;
      }
      r, n := Continue, Max(appliedIndex, k);
    }

    /** The applied index is where it was, or has moved up among the entries gone through. */
    ghost predicate MovedFrom(start: nat, k: nat)
      reads this
    {
      start == appliedIndex || start <= appliedIndex <= k
    }

    /** What is left of the batch decides how far it goes and whether the ledger gets ahead. */
    ghost predicate ToCome(batch: seq<Entry>, accepts: seq<bool>, i: nat, o: Outcome)
      requires i <= |batch| == |accepts|
      reads this
    {
      o == OutcomeOf(batch, accepts, i, appliedIndex, raftID, voters)
    }

    method DeliverNext(
      batch: seq<Entry>, accepts: seq<bool>, i: nat, ghost log: seq<Entry>, ghost from: nat, ghost k: nat,
      ghost start: nat, ghost o: Outcome)
      returns (r: Result, ghost n: nat)
      requires i < |batch| == |accepts| && Numbered(log) && Stretch(batch, log, from) && k == from + i
      requires SyncedAt(log, k) && ToCome(batch, accepts, i, o) && MovedFrom(start, k)
      modifies this`appliedIndex, this`ledger, this`voters
      ensures start <= appliedIndex && n <= |log| && ledger == Blocks(log, n)
      ensures r == Continue ==> MovedFrom(start, k + 1) && SyncedAt(log, k + 1) && ToCome(batch, accepts, i + 1, o)
      ensures r != Continue ==>
        (Synced(log) <==> !o.ahead) && o.stop == i && n == Max(start, k + if o.ahead then 1 else 0)
    {
      assert batch[i] == log[k];
      r, n := DeliverEntry(batch[i], accepts[i], log, k);
    }
  }

  /** A log of one entry that removes the node and carries a block: the ledger then is ahead of the applied index. */
  lemma RemovalRunsAhead(raftID: nat, block: Bytes)
    ensures
      var log := [Entry(1, ConfChangeV2(Some([RemoveNode(raftID)]), Carries(block)))];
      && Numbered(log) && OutcomeOf(log, [true], 0, 0, raftID, {raftID}) == Outcome(0, true, {raftID})
      && Blocks(log, 1) == [Committed(block, 1)] && Blocks(log, 0) == []
  {
    var changes := [RemoveNode(raftID)];
    assert changes[..0] == [] && Voters({raftID}, changes) == {raftID} - {raftID};
  }

  lemma BlocksOne(log: seq<Entry>, k: nat)
    requires k < |log|
    ensures Blocks(log, k + 1) == Blocks(log, k) + Added(log[k])
  {
  }

  /** What one more entry adds, past those already applied. */
  lemma BlocksStep(log: seq<Entry>, applied: nat, k: nat)
    requires Numbered(log) && applied <= |log| && k < |log|
    ensures Blocks(log, Max(applied, k + 1)) ==
      Blocks(log, Max(applied, k)) + if k + 1 > applied then Added(log[k]) else []
  {
    if k + 1 > applied {
      BlocksOne(log, k);
      assert Max(applied, k + 1) == k + 1 && Max(applied, k) == k;
    } else {
      assert Max(applied, k + 1) == applied == Max(applied, k);
    }
  }

  function Max(a: nat, b: nat): nat { if a < b then b else a }

  // ----- Runs: batches in any overlap, crashes and restarts at any point -----

  /** An entry being processed: its place in the log, the end of its batch, and whether its block is stored. */
  datatype Cursor = Cursor(next: nat, end: nat, stored: bool)

  datatype Replica = Replica(ledger: seq<Committed>, applied: nat, cursor: Option<Cursor>)

  ghost predicate Begin(log: seq<Entry>, s: Replica, t: Replica, from: nat, end: nat) {
    && s.cursor.None? && from <= end <= |log| && from <= s.applied
    && t == s.(cursor := Some(Cursor(from, end, false)))
  }

  ghost predicate Store(log: seq<Entry>, s: Replica, t: Replica) {
    && s.cursor.Some? && !s.cursor.value.stored && s.cursor.value.next < s.cursor.value.end <= |log|
    && var e := log[s.cursor.value.next];
       && (e.index > s.applied ==> ContentOf(e) != Garbage)
       && t == s.(
            ledger := s.ledger + (if e.index > s.applied then Added(e) else []),
            cursor := Some(s.cursor.value.(stored := true)))
  }

  ghost predicate Advance(log: seq<Entry>, s: Replica, t: Replica) {
    && s.cursor.Some? && s.cursor.value.stored && s.cursor.value.next < |log|
    && var e := log[s.cursor.value.next];
       t == s.(
         applied := if PassedOver(e) then s.applied else Max(s.applied, e.index),
         cursor := Some(Cursor(s.cursor.value.next + 1, s.cursor.value.end, false)))
  }

  ghost predicate Finish(s: Replica, t: Replica) {
    s.cursor.Some? && s.cursor.value.next == s.cursor.value.end && t == s.(cursor := None)
  }

  /** A crash, or the removal of this node, loses everything but the ledger. */
  ghost predicate Restart(s: Replica, t: Replica) {
    t == Replica(s.ledger, LastIndex(s.ledger), None)
  }

  ghost predicate Next(log: seq<Entry>, s: Replica, t: Replica) {
    || (exists from, end :: Begin(log, s, t, from, end))
    || Store(log, s, t) || Advance(log, s, t) || Finish(s, t) || Restart(s, t)
  }

  ghost function Reached(s: Replica): nat {
    match s.cursor
    case None => s.applied
    case Some(c) => Max(s.applied, c.next + if c.stored then 1 else 0)
  }

  ghost predicate Inv(log: seq<Entry>, s: Replica) {
    && Numbered(log) && s.applied <= |log| && Reached(s) <= |log| && s.ledger == Blocks(log, Reached(s))
    && (s.cursor.Some? ==>
          var c := s.cursor.value;
          && c.next <= c.end <= |log| && (c.stored ==> c.next < c.end)
          && Blocks(log, s.applied) == Blocks(log, Max(s.applied, c.next)))
  }

  lemma StoreKeeps(log: seq<Entry>, s: Replica, t: Replica)
    requires Inv(log, s) && Store(log, s, t)
    ensures Inv(log, t) && s.ledger <= t.ledger
  {
    BlocksStep(log, s.applied, s.cursor.value.next);
  }

  lemma AdvanceKeeps(log: seq<Entry>, s: Replica, t: Replica)
    requires Inv(log, s) && Advance(log, s, t)
    ensures Inv(log, t) && s.ledger <= t.ledger
  {
    var k := s.cursor.value.next;
    BlocksStep(log, s.applied, k);
    assert PassedOver(log[k]) ==> Added(log[k]) == [];
    assert Reached(s) == Max(s.applied, k + 1) == Reached(t);
  }

  lemma NextKeeps(log: seq<Entry>, s: Replica, t: Replica)
    requires Inv(log, s) && Next(log, s, t)
    ensures Inv(log, t) && s.ledger <= t.ledger
  {
    if Store(log, s, t) {
      StoreKeeps(log, s, t);
    } else if Advance(log, s, t) {
      AdvanceKeeps(log, s, t);
    } else if Restart(s, t) {
      LastIndexCovers(log, Reached(s));
    }
  }

  ghost predicate Run(log: seq<Entry>, states: seq<Replica>) {
    && states != [] && states[0] == Replica([], 0, None)
    && forall i :: 0 <= i < |states| - 1 ==> Next(log, states[i], states[i + 1])
  }

  /**
   * In every state of every run the ledger is the blocks of a prefix of the log, in order and each once, and what an
   * earlier state has in its ledger stays; between batches the prefix ends at the applied index.
   */
  lemma {:induction false} ExactlyOnce(log: seq<Entry>, states: seq<Replica>, m: nat, n: nat)
    requires Numbered(log) && Run(log, states) && m <= n < |states|
    ensures Inv(log, states[n])
    ensures states[m].ledger <= states[n].ledger
    ensures states[n].cursor.None? ==> states[n].ledger == Blocks(log, states[n].applied)
    ensures HoldsBlocks(states[n].ledger, log, Reached(states[n]))
    decreases n
  {
    if n == 0 {
      BlocksHeld(log, 0);
    } else {
      ExactlyOnce(log, states, if m < n then m else n - 1, n - 1);
      NextKeeps(log, states[n - 1], states[n]);
      BlocksHeld(log, Reached(states[n]));
    }
  }
}
