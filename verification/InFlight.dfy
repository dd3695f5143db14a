/**
 * Throttling of proposals. The propose loop and the event loop share the fields of the replicator under one mutex;
 * every critical section is one step, and the steps of the two loops interleave in any order.
 */
module InFlight {
  import opened Basics

  const TWO32 := 0x1_0000_0000

  /** Where the propose loop is: ready for a block, holding a numbered one, having handed it to Raft, or waiting. */
  datatype Place =
    | Ready
    | Prepared(number: nat, isConfig: bool)
    | Proposed(number: nat, isConfig: bool)
    | Waiting
    | Panicked

  datatype State = State(
    leader: nat, justElected: bool, inFlight: nat, inFlightConfig: nat, lastProposed: nat, lastCommitted: nat,
    place: Place)

  predicate Crowded(s: State, max: nat) { s.inFlight > max || s.inFlightConfig > 0 }

  // ----- Steps of the propose loop -----

  predicate Prepare(s: State, t: State, raftID: nat, isConfig: bool) {
    && s.place == Ready
    && t == if s.leader == raftID && !s.justElected then s.(place := Prepared(s.lastProposed + 1, isConfig)) else s
  }

  predicate Propose(s: State, t: State, accepted: bool) {
    && s.place.Prepared?
    && t == s.(place := if accepted then Proposed(s.place.number, s.place.isConfig) else Ready)
  }

  function Recorded(s: State): State
    requires s.place.Proposed?
  {
    var config := if s.place.isConfig then s.place.number else s.inFlightConfig;
    s.(lastProposed := s.place.number, inFlight := (s.inFlight + 1) % TWO32, inFlightConfig := config)
  }

  predicate UpdateLastProposal(s: State, t: State, raftID: nat, max: nat) {
    && s.place.Proposed?
    && if s.leader != raftID then t == s.(place := Ready)
       else if s.place.isConfig && s.inFlightConfig > 0 then t.place == Panicked
       else t == Recorded(s).(place := if Crowded(Recorded(s), max) then Waiting else Ready)
  }

  predicate Wake(s: State, t: State, max: nat) {
    s.place == Waiting && t == if Crowded(s, max) then s else s.(place := Ready)
  }

  // ----- Steps of the event loop -----

  /** A config block that is not the expected one panics; the state is then of no interest. */
  predicate CommitBlock(s: State, t: State, number: nat, isConfig: bool) {
    && !(s.inFlightConfig > 0 && isConfig && s.inFlightConfig != number)
    && t == s.(lastCommitted := number,
               inFlight := if s.inFlight > 0 then s.inFlight - 1 else 0,
               inFlightConfig := if isConfig then 0 else s.inFlightConfig)
  }

  function Reset(s: State): State {
    s.(lastProposed := s.lastCommitted, inFlight := 0, inFlightConfig := 0)
  }

  predicate LeaderChange(s: State, t: State, raftID: nat, leader: nat, behind: bool) {
    if leader == s.leader then t == s
    else if s.leader == raftID then t == Reset(s).(leader := leader)
    else if leader == raftID then t == Reset(s).(leader := leader, justElected := behind || s.justElected)
    else t == s.(leader := leader)
  }

  predicate LeaderReady(s: State, t: State) {
    t == if s.justElected then s.(justElected := false, lastProposed := s.lastCommitted) else s
  }

  predicate Exit(s: State, t: State) {
    t == s.(leader := 0, inFlight := 0, inFlightConfig := 0)
  }

  datatype Event =
    | DoPrepare(isConfig: bool) | DoPropose(accepted: bool) | DoUpdate | DoWake
    | DoCommit(number: nat, isConfig: bool) | DoLeaderChange(leader: nat, behind: bool) | DoLeaderReady | DoExit

  predicate Step(s: State, t: State, e: Event, raftID: nat, max: nat) {
    match e
    case DoPrepare(isConfig) => Prepare(s, t, raftID, isConfig)
    case DoPropose(accepted) => Propose(s, t, accepted)
    case DoUpdate => UpdateLastProposal(s, t, raftID, max)
    case DoWake => Wake(s, t, max)
    case DoCommit(number, isConfig) => CommitBlock(s, t, number, isConfig)
    case DoLeaderChange(leader, behind) => LeaderChange(s, t, raftID, leader, behind)
    case DoLeaderReady => LeaderReady(s, t)
    case DoExit => Exit(s, t)
  }

  // ----- The replicator -----

  class Replicator {
    const raftID: nat
    const maxInflightBlocks: nat
    var lastKnownLeader: nat
    var justElectedInFlightBlocks: bool
    var numInFlightBlocks: nat
    var inFlightConfigBlockNumber: nat
    var lastProposedBlockNumber: nat
    var lastCommittedBlock: nat
    ghost var place: Place

    ghost function View(): State
      reads this
    {
      State(lastKnownLeader, justElectedInFlightBlocks, numInFlightBlocks, inFlightConfigBlockNumber,
            lastProposedBlockNumber, lastCommittedBlock, place)
    }

    constructor (raftID: nat, maxInflightBlocks: nat, lastCommittedBlock: nat)
      ensures this.raftID == raftID && this.maxInflightBlocks == maxInflightBlocks
      ensures View() == Initial(lastCommittedBlock)
    {
      this.raftID, this.maxInflightBlocks, this.lastCommittedBlock := raftID, maxInflightBlocks, lastCommittedBlock;
      lastKnownLeader, justElectedInFlightBlocks, lastProposedBlockNumber := 0, false, lastCommittedBlock;
      numInFlightBlocks, inFlightConfigBlockNumber, place := 0, 0, Ready;
    }

    method PrepareProposal(isConfig: bool) returns (doPropose: bool, number: nat)
      requires place == Ready
      modifies this`place
      ensures Prepare(old(View()), View(), raftID, isConfig)
      ensures doPropose ==> place == Prepared(number, isConfig)
    {
      if lastKnownLeader != raftID || justElectedInFlightBlocks {
        return false, 0;
      }
      number := lastProposedBlockNumber + 1;
      place := Prepared(number, isConfig);
      doPropose := true;
    }

    /** The critical section of an update up to its first wait; false if it panics. */
    method UpdateProposal(number: nat, isConfig: bool) returns (ok: bool)
      requires place == Proposed(number, isConfig)
      modifies this
      ensures UpdateLastProposal(old(View()), View(), raftID, maxInflightBlocks)
      ensures ok <==> place != Panicked
      ensures Inv(old(View()), maxInflightBlocks) && Outstanding(old(View())) ==>
        (Outstanding(View()) <==> !Overtaken(old(View()), DoUpdate, raftID))
    {
      if lastKnownLeader != raftID {
        place := Ready;
        return true;
      }
      lastProposedBlockNumber := number;
      numInFlightBlocks := (numInFlightBlocks + 1) % TWO32;
      if isConfig {
        if inFlightConfigBlockNumber > 0 {
          place := Panicked;
          return false;
        }
        inFlightConfigBlockNumber := number;
      }
      if numInFlightBlocks > maxInflightBlocks || inFlightConfigBlockNumber > 0 {
        place := Waiting;
      } else {
        place := Ready;
      }
      ok := true;
    }

    method WakeUp() returns (free: bool)
      requires place == Waiting
      modifies this`place
      ensures Wake(old(View()), View(), maxInflightBlocks)
      ensures free <==> place == Ready
    {
      free := !(numInFlightBlocks > maxInflightBlocks || inFlightConfigBlockNumber > 0);
      if free {
        place := Ready;
      }
    }

    method SetLastCommittedBlock(number: nat, isConfig: bool) returns (ok: bool)
      modifies this`lastCommittedBlock, this`numInFlightBlocks, this`inFlightConfigBlockNumber
      ensures ok <==> CommitBlock(old(View()), View(), number, isConfig)
      ensures ok <==> !(old(inFlightConfigBlockNumber) > 0 && isConfig && old(inFlightConfigBlockNumber) != number)
    {
      lastCommittedBlock := number;
      if numInFlightBlocks > 0 {
        numInFlightBlocks := numInFlightBlocks - 1;
      }
      if inFlightConfigBlockNumber > 0 && isConfig {
        if inFlightConfigBlockNumber != number {
          return false;
        }
        inFlightConfigBlockNumber := 0;
      }
      ok := true;
    }

    method ProcessLeaderChanges(leader: nat, behind: bool)
      modifies this`lastKnownLeader, this`justElectedInFlightBlocks, this`lastProposedBlockNumber,
               this`numInFlightBlocks, this`inFlightConfigBlockNumber
      ensures LeaderChange(old(View()), View(), raftID, leader, behind)
    {
      if leader != lastKnownLeader {
        var lost := lastKnownLeader == raftID;
        var assumed := leader == raftID;
        if !lost && assumed && behind {
          justElectedInFlightBlocks := true;
        }
        if lost || assumed {
          lastProposedBlockNumber := lastCommittedBlock;
          numInFlightBlocks := 0;
          inFlightConfigBlockNumber := 0;
        }
        lastKnownLeader := leader;
      }
    }

    method ProcessLeaderJustElected(behind: bool)
      modifies this`justElectedInFlightBlocks, this`lastProposedBlockNumber
      ensures if behind then View() == old(View()) else LeaderReady(old(View()), View())
    {
      if justElectedInFlightBlocks && !behind {
        justElectedInFlightBlocks := false;
        lastProposedBlockNumber := lastCommittedBlock;
      }
    }

    method ExitEventLoop()
      modifies this`lastKnownLeader, this`numInFlightBlocks, this`inFlightConfigBlockNumber
      ensures Exit(old(View()), View())
    {
      lastKnownLeader, numInFlightBlocks, inFlightConfigBlockNumber := 0, 0, 0;
    }
  }

  // ----- Safety -----

  function Initial(lastCommitted: nat): State {
    State(0, false, 0, 0, lastCommitted, lastCommitted, Ready)
  }

  /** Unless the propose loop waits, there is room and no config block is in flight. */
  predicate Inv(s: State, max: nat) {
    && s.place != Panicked && s.inFlight < TWO32 && s.inFlight <= max + 1
    && (s.place != Waiting ==> !Crowded(s, max))
  }

  lemma StepKeeps(s: State, t: State, e: Event, raftID: nat, max: nat)
    requires Inv(s, max) && Step(s, t, e, raftID, max)
    ensures Inv(t, max)
  {
  }

  ghost predicate Run(states: seq<State>, events: seq<Event>, raftID: nat, max: nat) {
    && |states| == |events| + 1 && states[0] == Initial(states[0].lastCommitted)
    && forall i :: 0 <= i < |events| ==> Step(states[i], states[i + 1], events[i], raftID, max)
  }

  /**
   * In every interleaving of the two loops: the count stays within one of the maximum, the panic on a second config
   * block is never reached, and no proposal is prepared, handed over or recorded while the count exceeds the maximum
   * or a config block is in flight.
   */
  lemma {:induction false} InFlightSafety(
    states: seq<State>, events: seq<Event>, raftID: nat, max: nat, n: nat)
    requires Run(states, events, raftID, max) && n < |states|
    ensures states[n].inFlight <= max + 1 && states[n].place != Panicked
    ensures states[n].place.Ready? || states[n].place.Prepared? || states[n].place.Proposed? ==>
      states[n].inFlight <= max && states[n].inFlightConfig == 0
    ensures Inv(states[n], max)
    decreases n
  {
    if n > 0 {
      InFlightSafety(states, events, raftID, max, n - 1);
      StepKeeps(states[n - 1], states[n], events[n - 1], raftID, max);
    }
  }

  // ----- A new leader that is behind -----

  /** From assuming leadership behind its own log until it has caught up, a leader numbers no block. */
  lemma {:induction false} BehindNumbersNothing(
    states: seq<State>, events: seq<Event>, raftID: nat, max: nat, k: nat, n: nat)
    requires Run(states, events, raftID, max) && k < n <= |events|
    requires events[k] == DoLeaderChange(raftID, true) && states[k].leader != raftID
    requires forall i :: k < i < n ==> events[i] != DoLeaderReady
    ensures states[n].justElected
    ensures n < |events| && events[n].DoPrepare? ==> states[n + 1] == states[n]
    decreases n
  {
    assert Step(states[n - 1], states[n], events[n - 1], raftID, max);
    InFlightSafety(states, events, raftID, max, n);
    if k < n - 1 { BehindNumbersNothing(states, events, raftID, max, k, n - 1); }
    if n < |events| { assert Step(states[n], states[n + 1], events[n], raftID, max); }
  }

  /** A leader that is not behind numbers the block after the last one proposed. */
  lemma ReadyNumbersNext(states: seq<State>, events: seq<Event>, raftID: nat, max: nat, n: nat)
    requires Run(states, events, raftID, max) && n < |events| && events[n].DoPrepare?
    requires states[n].leader == raftID && !states[n].justElected
    ensures states[n + 1].place == Prepared(states[n].lastProposed + 1, events[n].isConfig)
  {
    assert Step(states[n], states[n + 1], events[n], raftID, max);
  }

  // ----- How many blocks are in flight -----

  /** A leader records the block it handed over. */
  predicate Records(s: State, e: Event, raftID: nat) {
    e == DoUpdate && s.place.Proposed? && s.leader == raftID
  }

  /** Leadership is lost or assumed, or the event loop ends. */
  predicate Clears(s: State, e: Event, raftID: nat) {
    match e
    case DoLeaderChange(leader, _) => leader != s.leader && (s.leader == raftID || leader == raftID)
    case DoExit => true
    case _ => false
  }

  /** Blocks recorded less blocks committed, by the events from `m` to `n`. */
  ghost function Balance(states: seq<State>, events: seq<Event>, raftID: nat, m: nat, n: nat): int
    requires m <= n <= |events| < |states|
    decreases n
  {
    if m == n then 0
    else
      Balance(states, events, raftID, m, n - 1) +
      if Records(states[n - 1], events[n - 1], raftID) then 1 else if events[n - 1].DoCommit? then -1 else 0
  }

  ghost predicate NotCleared(states: seq<State>, events: seq<Event>, raftID: nat, m: nat, n: nat)
    requires m <= n <= |events| < |states|
  {
    forall i :: m <= i < n ==> !Clears(states[i], events[i], raftID)
  }

  lemma CountStep(s: State, t: State, e: Event, raftID: nat, max: nat)
    requires Step(s, t, e, raftID, max) && Inv(s, max) && raftID != 0
    requires Records(s, e, raftID) ==> s.inFlight + 1 < TWO32
    ensures t.inFlight ==
      if Clears(s, e, raftID) then 0
      else if Records(s, e, raftID) then s.inFlight + 1
      else if e.DoCommit? && s.inFlight > 0 then s.inFlight - 1 else s.inFlight
  {
  }

  /**
   * The count is what was recorded less what was committed since it was last cleared, where commits of blocks that
   * were not recorded before do not count: the greatest balance of any stretch of events up to now.
   */
  lemma {:induction false} CountExact(states: seq<State>, events: seq<Event>, raftID: nat, max: nat, n: nat)
    requires Run(states, events, raftID, max) && n <= |events| && raftID != 0
    requires forall i :: 0 <= i < n && Records(states[i], events[i], raftID) ==> states[i].inFlight + 1 < TWO32
    ensures forall m :: 0 <= m <= n && NotCleared(states, events, raftID, m, n) ==>
      Balance(states, events, raftID, m, n) <= states[n].inFlight
    ensures exists m ::
      && 0 <= m <= n && NotCleared(states, events, raftID, m, n)
      && Balance(states, events, raftID, m, n) == states[n].inFlight
    decreases n
  {
    if n == 0 {
      assert NotCleared(states, events, raftID, 0, 0) && Balance(states, events, raftID, 0, 0) == 0;
    } else {
      CountExact(states, events, raftID, max, n - 1);
      InFlightSafety(states, events, raftID, max, n - 1);
      CountStep(states[n - 1], states[n], events[n - 1], raftID, max);
      forall m | 0 <= m <= n && NotCleared(states, events, raftID, m, n)
        ensures Balance(states, events, raftID, m, n) <= states[n].inFlight
      {
        assert m < n ==> NotCleared(states, events, raftID, m, n - 1) && !Clears(states[n - 1], events[n - 1], raftID);
      }
      var k :| 0 <= k <= n - 1 && NotCleared(states, events, raftID, k, n - 1) &&
        Balance(states, events, raftID, k, n - 1) == states[n - 1].inFlight;
      var m := if states[n].inFlight == 0 then n else k;
      assert NotCleared(states, events, raftID, m, n) && Balance(states, events, raftID, m, n) == states[n].inFlight;
    }
  }

  // ----- What is recorded as in flight -----

  /** A leader records a config block with the given number. */
  predicate RecordsConfig(s: State, e: Event, raftID: nat, number: nat) {
    e == DoUpdate && s.leader == raftID && s.place == Proposed(number, true)
  }

  /** The record is cleared, or a config block commits. */
  predicate Settles(s: State, e: Event, raftID: nat) {
    Clears(s, e, raftID) || (e.DoCommit? && e.isConfig)
  }

  ghost predicate RecordedAt(states: seq<State>, events: seq<Event>, raftID: nat, number: nat, m: nat, n: nat)
    requires m < n <= |events| < |states|
  {
    && RecordsConfig(states[m], events[m], raftID, number)
    && forall i :: m < i < n ==> !Settles(states[i], events[i], raftID)
  }

  lemma ConfigStep(s: State, t: State, e: Event, raftID: nat, max: nat)
    requires Step(s, t, e, raftID, max) && Inv(s, max)
    ensures t.inFlightConfig ==
      if Settles(s, e, raftID) then 0
      else if Records(s, e, raftID) && s.place.isConfig then s.place.number else s.inFlightConfig
  {
  }

  /** The config block in flight is the one recorded since the record was last cleared or a config block committed. */
  lemma {:induction false} ConfigExact(
    states: seq<State>, events: seq<Event>, raftID: nat, max: nat, number: nat, n: nat)
    requires Run(states, events, raftID, max) && n <= |events| && number > 0
    ensures states[n].inFlightConfig == number <==>
      exists m :: 0 <= m < n && RecordedAt(states, events, raftID, number, m, n)
    decreases n
  {
    if n > 0 {
      var s, e := states[n - 1], events[n - 1];
      ConfigExact(states, events, raftID, max, number, n - 1);
      InFlightSafety(states, events, raftID, max, n - 1);
      ConfigStep(s, states[n], e, raftID, max);
      if states[n].inFlightConfig == number {
        if s.inFlightConfig == number {
          var m :| 0 <= m < n - 1 && RecordedAt(states, events, raftID, number, m, n - 1);
          assert RecordedAt(states, events, raftID, number, m, n);
        } else {
          assert RecordedAt(states, events, raftID, number, n - 1, n);
        }
      }
      forall m | 0 <= m < n && RecordedAt(states, events, raftID, number, m, n)
        ensures states[n].inFlightConfig == number
      {
        if m < n - 1 {
          assert RecordedAt(states, events, raftID, number, m, n - 1) && !Settles(s, e, raftID);
        }
      }
    }
  }

  /** A config block recorded as in flight is not committed yet. */
  predicate Outstanding(s: State) { s.inFlightConfig == 0 || s.inFlightConfig > s.lastCommitted }

  /** Blocks commit in the order of their numbers. */
  predicate InOrder(s: State, e: Event) { e.DoCommit? ==> e.number == s.lastCommitted + 1 }

  /** A config block is recorded after it was committed, or another block was committed under its number. */
  predicate Overtaken(s: State, e: Event, raftID: nat) {
    match e
    case DoUpdate =>
      s.place.Proposed? && s.leader == raftID && s.place.isConfig && 0 < s.place.number <= s.lastCommitted
    case DoCommit(number, isConfig) => 0 < number == s.inFlightConfig && !isConfig
    case _ => false
  }

  /** A step spoils the record exactly when it is overtaken, which can be seen before the step. */
  lemma RecordStep(s: State, t: State, e: Event, raftID: nat, max: nat)
    requires Inv(s, max) && Outstanding(s) && Step(s, t, e, raftID, max) && InOrder(s, e)
    ensures Outstanding(t) <==> !Overtaken(s, e, raftID)
  {
  }

  /** Along every run the record names what is outstanding exactly as long as no step was overtaken. */
  lemma {:induction false} RecordExact(states: seq<State>, events: seq<Event>, raftID: nat, max: nat, n: nat)
    requires Run(states, events, raftID, max) && n < |states|
    requires forall i :: 0 <= i < |events| ==> InOrder(states[i], events[i])
    ensures (forall i :: 0 <= i <= n ==> Outstanding(states[i])) <==>
      (forall i :: 0 <= i < n ==> !Overtaken(states[i], events[i], raftID))
    decreases n
  {
    if n > 0 {
      RecordExact(states, events, raftID, max, n - 1);
      InFlightSafety(states, events, raftID, max, n - 1);
      if forall i :: 0 <= i <= n - 1 ==> Outstanding(states[i]) {
        RecordStep(states[n - 1], states[n], events[n - 1], raftID, max);
      }
    }
  }

  /** A config block that commits between being handed to Raft and being recorded is waited for although it is there. */
  lemma WaitsForCommittedBlock(max: nat)
    ensures exists states: seq<State>, events: seq<Event> ::
      && Run(states, events, 7, max) && (forall i :: 0 <= i < |events| ==> InOrder(states[i], events[i]))
      && var s := states[|states| - 1]; s.place == Waiting && s.inFlightConfig == s.lastCommitted
  {
    var s0 := Initial(1);
    var s1 := s0.(leader := 7);
    var s2 := s1.(place := Prepared(2, true));
    var s3 := s2.(place := Proposed(2, true));
    var s4 := s3.(lastCommitted := 2);
    var s5 := Recorded(s4).(place := Waiting);
    var states := [s0, s1, s2, s3, s4, s5];
    var events := [DoLeaderChange(7, false), DoPrepare(true), DoPropose(true), DoCommit(2, true), DoUpdate];
    assert Step(s0, s1, events[0], 7, max) && Step(s1, s2, events[1], 7, max) && Step(s2, s3, events[2], 7, max);
    assert Step(s3, s4, events[3], 7, max) && Step(s4, s5, events[4], 7, max);
    assert Run(states, events, 7, max);
  }

  // ----- Block numbers -----

  /** A step that takes the number of the last proposal back to that of the last committed block. */
  predicate Resets(s: State, e: Event, raftID: nat) {
    match e
    case DoLeaderChange(leader, _) => leader != s.leader && (s.leader == raftID || leader == raftID)
    case DoLeaderReady => s.justElected
    case _ => false
  }

  /** The number due next: one after the last committed block at the last reset, one more for each hand-over since. */
  function Due(states: seq<State>, events: seq<Event>, raftID: nat, n: nat): nat
    requires n <= |events| < |states|
    decreases n
  {
    if n == 0 then states[0].lastCommitted + 1
    else if Resets(states[n - 1], events[n - 1], raftID) then states[n - 1].lastCommitted + 1
    else Due(states, events, raftID, n - 1) + if events[n - 1] == DoPropose(true) then 1 else 0
  }

  /** A leader's next block gets the number that is due, or will once the one handed to Raft is recorded. */
  predicate NumbersFollow(states: seq<State>, events: seq<Event>, raftID: nat, n: nat)
    requires n <= |events| < |states|
  {
    var s, due := states[n], Due(states, events, raftID, n);
    s.leader == raftID ==>
      || s.lastProposed + 1 == due
      || (s.place.Proposed? && s.place.number + 1 == due && s.lastProposed + 1 == s.place.number)
  }

  /** When the last reset was since the block in hand was prepared. */
  function LastReset(states: seq<State>, events: seq<Event>, raftID: nat, n: nat): (r: Option<nat>)
    requires n <= |events| < |states|
    ensures r.Some? ==> r.value < n && Resets(states[r.value], events[r.value], raftID)
    decreases n
  {
    if n == 0 || events[n - 1].DoPrepare? then None
    else if Resets(states[n - 1], events[n - 1], raftID) then Some(n - 1)
    else LastReset(states, events, raftID, n - 1)
  }

  /** What was the last committed block at a reset does not make a block prepared before it the next one. */
  predicate Misfits(states: seq<State>, reset: nat, n: nat)
    requires reset < n < |states| && (states[n].place.Prepared? || states[n].place.Proposed?)
  {
    var number, committed := states[n].place.number, states[reset].lastCommitted;
    number != if states[n].place.Proposed? && states[reset].place.Proposed? then committed else committed + 1
  }

  /**
   * A leader hands over, or records, a block that was prepared before a reset it does not fit: at a reset before the
   * hand-over the block before it must have been the last one committed, at a reset after it the block itself.
   */
  predicate Stale(states: seq<State>, events: seq<Event>, raftID: nat, n: nat)
    requires n < |events| < |states|
  {
    var s, reset := states[n], LastReset(states, events, raftID, n);
    && s.leader == raftID && reset.Some?
    && ((s.place.Prepared? && events[n] == DoPropose(true)) || (s.place.Proposed? && events[n] == DoUpdate))
    && Misfits(states, reset.value, n)
  }

  /** The number due while a block is in hand, by the block if it was not reset since and by the reset otherwise. */
  predicate InHand(states: seq<State>, events: seq<Event>, raftID: nat, n: nat)
    requires n <= |events| < |states|
  {
    var s, due, reset := states[n], Due(states, events, raftID, n), LastReset(states, events, raftID, n);
    var since := if s.place.Proposed? then 1 else 0;
    s.place.Prepared? || s.place.Proposed? ==>
      if reset.None? then due == s.place.number + since
      else
        var at := states[reset.value];
        && (at.place.Prepared? || (s.place.Proposed? && at.place.Proposed?))
        && due == at.lastCommitted + 1 + if at.place.Proposed? then 0 else since
  }

  lemma InHandStep(states: seq<State>, events: seq<Event>, raftID: nat, max: nat, n: nat)
    requires Run(states, events, raftID, max) && n < |events| && raftID != 0
    requires InHand(states, events, raftID, n) && NumbersFollow(states, events, raftID, n)
    ensures InHand(states, events, raftID, n + 1)
  {
    assert Step(states[n], states[n + 1], events[n], raftID, max);
  }

  lemma NumberStep(states: seq<State>, events: seq<Event>, raftID: nat, max: nat, n: nat)
    requires Run(states, events, raftID, max) && n < |events| && raftID != 0 && Inv(states[n], max)
    requires InHand(states, events, raftID, n) && NumbersFollow(states, events, raftID, n)
    ensures NumbersFollow(states, events, raftID, n + 1) <==> !Stale(states, events, raftID, n)
  {
    assert Step(states[n], states[n + 1], events[n], raftID, max);
  }

  ghost predicate AllFollow(states: seq<State>, events: seq<Event>, raftID: nat, n: nat)
    requires n <= |events| < |states|
  {
    forall i :: 0 <= i <= n ==> NumbersFollow(states, events, raftID, i)
  }

  ghost predicate NoneStale(states: seq<State>, events: seq<Event>, raftID: nat, n: nat)
    requires n <= |events| < |states|
  {
    forall i :: 0 <= i < n ==> !Stale(states, events, raftID, i)
  }

  /** One more step, at which the numbers go wrong or not. */
  lemma OneMoreStep(states: seq<State>, events: seq<Event>, raftID: nat, n: nat)
    requires n < |events| < |states|
    requires AllFollow(states, events, raftID, n) <==> NoneStale(states, events, raftID, n)
    requires AllFollow(states, events, raftID, n) ==>
      (NumbersFollow(states, events, raftID, n + 1) <==> !Stale(states, events, raftID, n))
    ensures AllFollow(states, events, raftID, n + 1) <==> NoneStale(states, events, raftID, n + 1)
    ensures AllFollow(states, events, raftID, n + 1) ==> AllFollow(states, events, raftID, n)
  {
    assert NoneStale(states, events, raftID, n + 1) <==>
      NoneStale(states, events, raftID, n) && !Stale(states, events, raftID, n);
    assert AllFollow(states, events, raftID, n + 1) <==>
      AllFollow(states, events, raftID, n) && NumbersFollow(states, events, raftID, n + 1);
  }

  /**
   * Along every run the blocks a leader prepares carry the numbers due, without a gap since the last reset, exactly as
   * long as no stale block was handed over or recorded.
   */
  lemma {:induction false} NumbersExact(states: seq<State>, events: seq<Event>, raftID: nat, max: nat, n: nat)
    requires Run(states, events, raftID, max) && n < |states| && raftID != 0
    ensures AllFollow(states, events, raftID, n) <==> NoneStale(states, events, raftID, n)
    ensures AllFollow(states, events, raftID, n) ==> InHand(states, events, raftID, n)
    decreases n
  {
    if n > 0 {
      NumbersExact(states, events, raftID, max, n - 1);
      if AllFollow(states, events, raftID, n - 1) {
        assert NumbersFollow(states, events, raftID, n - 1);
        InFlightSafety(states, events, raftID, max, n - 1);
        NumberStep(states, events, raftID, max, n - 1);
        InHandStep(states, events, raftID, max, n - 1);
      }
      OneMoreStep(states, events, raftID, n - 1);
    }
  }

  /** So a block that is prepared then has the number due. */
  lemma PreparedIsDue(states: seq<State>, events: seq<Event>, raftID: nat, max: nat, n: nat)
    requires Run(states, events, raftID, max) && n < |events| && raftID != 0
    requires NoneStale(states, events, raftID, n)
    requires events[n].DoPrepare? && states[n + 1].place.Prepared?
    ensures states[n + 1].place.number == Due(states, events, raftID, n + 1)
  {
    NumbersExact(states, events, raftID, max, n);
    assert Step(states[n], states[n + 1], events[n], raftID, max) && NumbersFollow(states, events, raftID, n);
  }

  /** Leadership is lost and regained before a block is recorded. */
  function SkipEvents(): seq<Event> {
    [DoLeaderChange(7, false), DoPrepare(false), DoPropose(true), DoLeaderChange(8, false), DoLeaderChange(7, false),
     DoUpdate, DoPrepare(false)]
  }

  function SkipStates(): seq<State> {
    var s2 := State(7, false, 0, 0, 1, 1, Prepared(2, false));
    var s3 := State(7, false, 0, 0, 1, 1, Proposed(2, false));
    var s6 := State(7, false, 1, 0, 2, 1, Ready);
    [Initial(1), Initial(1).(leader := 7), s2, s3, s3.(leader := 8), s3, s6, s6.(place := Prepared(3, false))]
  }

  lemma SkipSteps(max: nat, i: nat)
    requires max > 0 && i < 7
    ensures Step(SkipStates()[i], SkipStates()[i + 1], SkipEvents()[i], 7, max)
  {
    if i < 4 {
      assert i == 0 || i == 1 || i == 2 || i == 3;
    } else {
      assert i == 4 || i == 5 || i == 6;
    }
  }

  /** Block 3 is prepared while 2 is due and only 1 is committed. */
  lemma NumberSkipped(max: nat)
    requires max > 0
    ensures Run(SkipStates(), SkipEvents(), 7, max)
    ensures Due(SkipStates(), SkipEvents(), 7, 7) == 2
    ensures var s := SkipStates()[7]; s.place == Prepared(3, false) && s.lastCommitted == 1
  {
    forall i | 0 <= i < 7 ensures Step(SkipStates()[i], SkipStates()[i + 1], SkipEvents()[i], 7, max) {
      SkipSteps(max, i);
    }
    assert Due(SkipStates(), SkipEvents(), 7, 5) == 2;
  }
}
