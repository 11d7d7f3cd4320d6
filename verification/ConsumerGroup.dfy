/** The Kafka consumer group: sequential consumption with manual offset commits, retries, dead letters and
    rebalances.  The broker is a ghost record of committed offsets. */
module ConsumerGroup {
  import opened Graphs

  type Offset = nat

  datatype TopicPartition = TopicPartition(topic: string, partition: nat)

  /** `strictLogger` says that the logger rejects the keyword with which a failed retry is reported, as the
      standard library's logger does. */
  datatype Config = Config(maxBatchSize: nat, deadLetterTopic: bool, retryPolicy: bool, maxRetries: nat,
                           strictLogger: bool)

  /** The first call of the processor on a message. */
  datatype First = Accepts | Invalid | Fails

  /** How a delivered message will turn out: its first call, and whether each later call succeeds. */
  datatype Script = Script(first: First, retries: seq<bool>)

  /** How a delivery ended.  A dead-letter send never succeeds: building its headers reads a variable that
      does not exist there, so it raises.  So does reporting a failed retry to a strict logger.  What raises
      ends the consumption loop. */
  datatype Fate = Processed | Retried | Skipped | RetryReportFailed | DeadLetterFailed {
    predicate Raises() {
      RetryReportFailed? || DeadLetterFailed?
    }
  }

  datatype Delivery = Delivery(tp: TopicPartition, offset: Offset, fate: Fate)

  type Pending = map<string, map<nat, Offset>>

  /** How a commit of a nonempty table ends: the broker takes it, refuses it, or the call itself raises. */
  datatype Answer = Accepted | Refused | Raised

  /** The consumer's uncommitted successes, the broker's record, the fetch position of every owned partition,
      every delivery so far, and whether the consumption loop has ended. */
  datatype State = State(pending: Pending,
                         committed: map<TopicPartition, Offset>,
                         position: map<TopicPartition, Offset>,
                         deliveries: set<Delivery>,
                         stopped: bool)

  const START := State(map[], map[], map[], {}, false)

  /** The offsets at which each partition holds a message; offsets may have gaps. */
  type Log = map<TopicPartition, set<Offset>>

  /** `Closing` is the commit at the end of the loop, or that of a client that closes the consumer. */
  datatype Event =
    | Idle
    | Message(tp: TopicPartition, offset: Offset, script: Script, answer: Answer)
    | Revoked(tps: set<TopicPartition>, answer: Answer)
    | Assigned(tps: set<TopicPartition>)
    | Closing(answer: Answer)

  // ----- Specification -----

  /** The first successful retry among those allowed, or `allowed`. */
  function FirstSuccess(retries: seq<bool>, allowed: nat): (k: nat)
    ensures k <= allowed && (k < allowed ==> k < |retries| && retries[k])
    ensures forall j :: 0 <= j < k && j < |retries| ==> !retries[j]
  {
    if allowed == 0 || retries == [] then allowed
    else if retries[0] then 0
    else 1 + FirstSuccess(retries[1..], allowed - 1)
  }

  function DeadLetterFate(config: Config): Fate {
    if config.deadLetterTopic then DeadLetterFailed else Skipped
  }

  function RetryFate(config: Config, retries: seq<bool>): Fate {
    if !config.retryPolicy || config.maxRetries == 0 then Skipped
    else if FirstSuccess(retries, 1) == 0 then Retried
    else if config.strictLogger then RetryReportFailed
    else if FirstSuccess(retries, config.maxRetries) < config.maxRetries then Retried
    else DeadLetterFate(config)
  }

  function FateOf(config: Config, script: Script): Fate {
    match script.first
    case Accepts => Processed
    case Invalid => DeadLetterFate(config)
    case Fails => RetryFate(config, script.retries)
  }

  /** Some call on the message succeeds: the first, or a retry that the policy allows and that is reached. */
  ghost predicate Succeeds(config: Config, script: Script) {
    || script.first.Accepts?
    || (script.first.Fails? && config.retryPolicy
        && exists j :: 0 <= j < config.maxRetries && j < |script.retries| && script.retries[j]
                       && (config.strictLogger ==> j == 0))
  }

  /** What the fates stand for. */
  lemma FateMeans(config: Config, script: Script)
    ensures var fate := FateOf(config, script);
            && (fate.Processed? <==> script.first.Accepts?)
            && (fate.Retried? <==> Succeeds(config, script) && script.first.Fails?)
            && (fate.RetryReportFailed? <==>
                  && script.first.Fails? && config.retryPolicy && config.maxRetries > 0 && config.strictLogger
                  && !Succeeds(config, script))
            && (fate.DeadLetterFailed? <==>
                  && config.deadLetterTopic && !Succeeds(config, script)
                  && (script.first.Fails? ==> config.retryPolicy && config.maxRetries > 0 && !config.strictLogger))
  {
    if script.first.Fails? {
      var k := FirstSuccess(script.retries, config.maxRetries);
      if j :| 0 <= j < config.maxRetries && j < |script.retries| && script.retries[j] {
        assert k <= j;
      }
    }
  }

  /** With a dead-letter topic and a retry policy, what does not raise has succeeded. */
  lemma NotRaisingMeans(config: Config, script: Script)
    requires config.deadLetterTopic && config.retryPolicy && config.maxRetries > 0
    ensures !FateOf(config, script).Raises() <==> Succeeds(config, script)
  {
    FateMeans(config, script);
  }

  predicate IsPending(pending: Pending, tp: TopicPartition) {
    tp.topic in pending && tp.partition in pending[tp.topic]
  }

  function PendingOffset(pending: Pending, tp: TopicPartition): Offset
    requires IsPending(pending, tp)
  {
    pending[tp.topic][tp.partition]
  }

  function WithPending(pending: Pending, tp: TopicPartition, offset: Offset): Pending {
    pending[tp.topic := (if tp.topic in pending then pending[tp.topic] else map[])[tp.partition := offset]]
  }

  function PendingPartitions(pending: Pending): set<TopicPartition> {
    set t, p | t in pending && p in pending[t] :: TopicPartition(t, p)
  }

  /** The offset from which the broker would resume a partition. */
  function Committed(s: State, tp: TopicPartition): Offset {
    if tp in s.committed then s.committed[tp] else 0
  }

  predicate CommitRaises(s: State, answer: Answer) {
    PendingPartitions(s.pending) != {} && answer.Raised?
  }

  /** Commits one past every pending offset.  The pending table is emptied before the broker answers, but not
      if the call raises; then the loop ends. */
  function Commit(s: State, answer: Answer): State {
    var tps := PendingPartitions(s.pending);
    if tps == {} then s
    else
      match answer
      case Raised => s.(stopped := true)
      case Refused => s.(pending := map[])
      case Accepted =>
        s.(pending := map[], committed := s.committed + map tp | tp in tps :: PendingOffset(s.pending, tp) + 1)
  }

  /** A message is fetched and dealt with; only a success on the first call becomes pending. */
  function Deliver(s: State, config: Config, tp: TopicPartition, offset: Offset, script: Script): State {
    var fate := FateOf(config, script);
    s.(position := s.position[tp := offset + 1],
       deliveries := s.deliveries + {Delivery(tp, offset, fate)},
       pending := if fate.Processed? then WithPending(s.pending, tp, offset) else s.pending,
       stopped := s.stopped || fate.Raises())
  }

  /** The message is followed by a commit of the batch. */
  predicate BatchFull(s: State, config: Config, e: Event)
    requires e.Message?
  {
    !FateOf(config, e.script).Raises() && |Deliver(s, config, e.tp, e.offset, e.script).pending| >= config.maxBatchSize
  }

  function Step(s: State, config: Config, e: Event): State {
    match e
    case Idle => s
    case Message(tp, offset, script, answer) =>
      var s' := Deliver(s, config, tp, offset, script);
      if BatchFull(s, config, e) then Commit(s', answer) else s'
    case Revoked(tps, answer) =>
      if CommitRaises(s, answer) then Commit(s, answer)
      else Commit(s, answer).(position := s.position - tps)
    case Assigned(tps) => s.(position := map tp | tp in tps :: Committed(s, tp))
    case Closing(answer) => Commit(s, answer).(stopped := true)
  }

  /** The event ends the consumption loop. */
  predicate EndsLoop(s: State, config: Config, e: Event) {
    match e
    case Idle => false
    case Message(tp, offset, script, answer) =>
      || FateOf(config, script).Raises()
      || (BatchFull(s, config, e) && CommitRaises(Deliver(s, config, tp, offset, script), answer))
    case Revoked(_, answer) => CommitRaises(s, answer)
    case Assigned(_) => false
    case Closing(_) => true
  }

  /** `offset` is the first message of the partition at or after `from`. */
  ghost predicate IsNext(log: Log, tp: TopicPartition, from: Offset, offset: Offset) {
    && tp in log && offset in log[tp] && from <= offset && NoneBetween(log, tp, from, offset)
  }

  /** The partition holds no message at or after `from` and before `to`. */
  ghost predicate NoneBetween(log: Log, tp: TopicPartition, from: Offset, to: Offset) {
    forall o :: tp in log && o in log[tp] && from <= o ==> to <= o
  }

  /** No success pending on the assigned partitions lies above a message that is not yet committed. */
  ghost predicate Harmless(s: State, log: Log, tps: set<TopicPartition>) {
    forall tp :: tp in tps && IsPending(s.pending, tp) ==>
      NoneBetween(log, tp, Committed(s, tp), PendingOffset(s.pending, tp))
  }

  /** What may happen: after the end of the loop only further commits; messages of an owned partition come in
      log order without omission; and an assignment is harmless. */
  ghost predicate Enabled(s: State, log: Log, e: Event) {
    match e
    case Idle => !s.stopped
    case Message(tp, offset, _, _) =>
      !s.stopped && tp in s.position && IsNext(log, tp, s.position[tp], offset)
    case Revoked(_, _) => !s.stopped
    case Assigned(tps) => !s.stopped && Harmless(s, log, tps)
    case Closing(_) => true
  }

  // ----- Every run -----

  /** The message was processed, at once or on a retry, or skipped as configured; nothing raised over it. */
  ghost predicate WasHandled(s: State, tp: TopicPartition, offset: Offset) {
    exists fate :: Delivery(tp, offset, fate) in s.deliveries && !fate.Raises()
  }

  /** Every message of the partition below `bound` has been handled. */
  ghost predicate CoveredBelow(s: State, log: Log, tp: TopicPartition, bound: Offset) {
    forall o :: tp in log && o in log[tp] && o < bound ==> WasHandled(s, tp, o)
  }

  /** A committed offset is one past a success, and everything below it has been handled. */
  ghost predicate Backed(s: State, log: Log, tp: TopicPartition, bound: Offset) {
    bound > 0 && Delivery(tp, bound - 1, Processed) in s.deliveries && CoveredBelow(s, log, tp, bound)
  }

  /** A pending offset can be committed: the commit would be backed and would not go back, and no message below
      it can come any more. */
  ghost predicate Committable(s: State, log: Log, tp: TopicPartition)
    requires IsPending(s.pending, tp)
  {
    var offset := PendingOffset(s.pending, tp);
    && Committed(s, tp) <= offset + 1 && Backed(s, log, tp, offset + 1)
    && (!s.stopped && tp in s.position ==> NoneBetween(log, tp, s.position[tp], offset))
  }

  /** While the loop runs, what comes before the fetch position has been handled, and the first message from
      there on is at most the one just below the committed offset again. */
  ghost predicate Resumable(s: State, log: Log, tp: TopicPartition)
    requires tp in s.position
  {
    && CoveredBelow(s, log, tp, s.position[tp])
    && (Committed(s, tp) > 0 ==> NoneBetween(log, tp, s.position[tp], Committed(s, tp) - 1))
  }

  ghost predicate Consistent(s: State, log: Log) {
    && (forall tp :: IsPending(s.pending, tp) ==> Committable(s, log, tp))
    && (forall tp :: !s.stopped && tp in s.position ==> Resumable(s, log, tp))
    && (forall tp :: tp in s.committed ==> Backed(s, log, tp, s.committed[tp]))
  }

  /** No partition's committed offset is smaller in `s'`, and no delivery is forgotten. */
  ghost predicate Advances(s: State, s': State) {
    s.deliveries <= s'.deliveries && forall tp :: Committed(s, tp) <= Committed(s', tp)
  }

  lemma PendingMeans(pending: Pending)
    ensures forall tp :: IsPending(pending, tp) <==> tp in PendingPartitions(pending)
  {
    forall tp ensures IsPending(pending, tp) <==> tp in PendingPartitions(pending) {
      assert tp == TopicPartition(tp.topic, tp.partition);
    }
  }

  lemma WithPendingMeans(pending: Pending, tp: TopicPartition, offset: Offset)
    ensures forall q :: IsPending(WithPending(pending, tp, offset), q) <==> q == tp || IsPending(pending, q)
    ensures forall q :: IsPending(WithPending(pending, tp, offset), q) ==>
              PendingOffset(WithPending(pending, tp, offset), q) ==
              if q == tp then offset else PendingOffset(pending, q)
  {
    forall q ensures q == tp <==> q.topic == tp.topic && q.partition == tp.partition {
      assert q == TopicPartition(q.topic, q.partition);
    }
  }

  lemma CoverageKept(s: State, s': State, log: Log)
    requires s.deliveries <= s'.deliveries
    ensures forall tp, bound :: CoveredBelow(s, log, tp, bound) ==> CoveredBelow(s', log, tp, bound)
  {
    forall tp, o | WasHandled(s, tp, o) ensures WasHandled(s', tp, o) {
      var fate :| Delivery(tp, o, fate) in s.deliveries && !fate.Raises();
      assert Delivery(tp, o, fate) in s'.deliveries;
    }
  }

  /** Where the broker stands after a commit. */
  lemma CommitEffect(s: State, answer: Answer)
    ensures var s' := Commit(s, answer);
            && s'.position == s.position && s'.deliveries == s.deliveries && (s.stopped ==> s'.stopped)
            && (CommitRaises(s, answer) ==> s' == s.(stopped := true))
            && (!CommitRaises(s, answer) ==> s'.stopped == s.stopped && forall tp :: !IsPending(s'.pending, tp))
            && s'.committed.Keys == s.committed.Keys + (if answer.Accepted? then PendingPartitions(s.pending) else {})
            && (forall tp :: tp in s'.committed ==>
                  s'.committed[tp] ==
                  if answer.Accepted? && IsPending(s.pending, tp) then PendingOffset(s.pending, tp) + 1
                  else s.committed[tp])
  {
    PendingMeans(s.pending);
    PendingMeans(Commit(s, answer).pending);
  }

  lemma CommitKeepsConsistent(s: State, log: Log, answer: Answer)
    requires Consistent(s, log)
    ensures Consistent(Commit(s, answer), log) && Advances(s, Commit(s, answer))
  {
    hide CoveredBelow, NoneBetween, Commit, PendingPartitions, IsPending, PendingOffset, CommitRaises;
    var s' := Commit(s, answer);
    CommitEffect(s, answer);
    if CommitRaises(s, answer) {
      StopKeepsConsistent(s, log);
    } else {
      PendingMeans(s.pending);
      CoverageKept(s, s', log);
      forall tp | IsPending(s.pending, tp) ensures Committable(s, log, tp) {
      }
      forall tp | tp in s'.committed ensures Backed(s', log, tp, s'.committed[tp]) {
        assert Backed(s, log, tp, s'.committed[tp]);
      }
      forall tp | !s'.stopped && tp in s'.position ensures Resumable(s', log, tp) {
        assert Resumable(s, log, tp);
      }
    }
  }

  lemma StopKeepsConsistent(s: State, log: Log)
    requires Consistent(s, log)
    ensures Consistent(s.(stopped := true), log)
  {
    hide CoveredBelow, NoneBetween, IsPending, PendingOffset;
    CoverageKept(s, s.(stopped := true), log);
  }

  /** The step from a fetch position to the one after the next message. */
  lemma PositionMoves(s: State, s': State, log: Log, tp: TopicPartition, from: Offset, offset: Offset)
    requires IsNext(log, tp, from, offset) && s.deliveries <= s'.deliveries
    requires CoveredBelow(s, log, tp, from) && WasHandled(s', tp, offset)
    ensures CoveredBelow(s', log, tp, offset + 1) && NoneBetween(log, tp, offset + 1, offset)
    ensures forall to: nat :: NoneBetween(log, tp, from, to) ==> to <= offset && NoneBetween(log, tp, offset + 1, to)
  {
    CoverageKept(s, s', log);
    assert CoveredBelow(s', log, tp, from);
  }

  lemma DeliverKeepsConsistent(s: State, log: Log, config: Config, tp: TopicPartition, offset: Offset, script: Script)
    requires Consistent(s, log) && Enabled(s, log, Message(tp, offset, script, Accepted))
    ensures Consistent(Deliver(s, config, tp, offset, script), log)
    ensures Advances(s, Deliver(s, config, tp, offset, script))
  {
    hide WithPending, IsPending, PendingOffset, FateOf, CoveredBelow, NoneBetween;
    var s' := Deliver(s, config, tp, offset, script);
    var fate := FateOf(config, script);
    WithPendingMeans(s.pending, tp, offset);
    CoverageKept(s, s', log);
    assert Delivery(tp, offset, fate) in s'.deliveries;
    assert Resumable(s, log, tp);
    if !fate.Raises() {
      PositionMoves(s, s', log, tp, s.position[tp], offset);
    }
    forall q | IsPending(s'.pending, q) ensures Committable(s', log, q) {
      assert (q == tp && fate.Processed?) || Committable(s, log, q);
    }
    forall q | q in s'.committed ensures Backed(s', log, q, s'.committed[q]) {
      assert Backed(s, log, q, s.committed[q]);
    }
    forall q | !s'.stopped && q in s'.position ensures Resumable(s', log, q) {
      assert q == tp || Resumable(s, log, q);
    }
  }

  lemma RevokeKeepsConsistent(s: State, log: Log, tps: set<TopicPartition>)
    requires Consistent(s, log)
    ensures Consistent(s.(position := s.position - tps), log)
  {
    hide CoveredBelow, NoneBetween, IsPending, PendingOffset;
    var s' := s.(position := s.position - tps);
    CoverageKept(s, s', log);
  }

  /** An assignment keeps the link exactly when it is harmless. */
  lemma AssignKeepsConsistentIff(s: State, log: Log, config: Config, tps: set<TopicPartition>)
    requires Consistent(s, log) && !s.stopped
    ensures Consistent(Step(s, config, Assigned(tps)), log) <==> Harmless(s, log, tps)
  {
    hide CoveredBelow, IsPending, PendingOffset;
    var s' := Step(s, config, Assigned(tps));
    CoverageKept(s, s', log);
    forall tp | tp in tps ensures Resumable(s', log, tp) {
      ConsistentMeansHandled(s, log, tp);
    }
    if !Harmless(s, log, tps) {
      var tp :| tp in tps && IsPending(s.pending, tp)
        && !NoneBetween(log, tp, Committed(s, tp), PendingOffset(s.pending, tp));
      assert !Committable(s', log, tp);
    }
  }

  lemma StepKeepsConsistent(s: State, log: Log, config: Config, e: Event)
    requires Consistent(s, log) && Enabled(s, log, e)
    ensures Consistent(Step(s, config, e), log) && Advances(s, Step(s, config, e))
  {
    hide Consistent, Commit, Deliver, BatchFull, CommitRaises;
    match e
    case Idle =>
    case Message(tp, offset, script, answer) =>
      DeliverKeepsConsistent(s, log, config, tp, offset, script);
      CommitKeepsConsistent(Deliver(s, config, tp, offset, script), log, answer);
    case Revoked(tps, answer) =>
      CommitKeepsConsistent(s, log, answer);
      CommitEffect(s, answer);
      RevokeKeepsConsistent(Commit(s, answer), log, tps);
    case Assigned(tps) =>
      AssignKeepsConsistentIff(s, log, config, tps);
    case Closing(answer) =>
      CommitKeepsConsistent(s, log, answer);
      StopKeepsConsistent(Commit(s, answer), log);
  }

  /** The state after a list of events, from `start` on. */
  function Run(start: State, config: Config, events: seq<Event>): State {
    if events == [] then start else Step(Run(start, config, events[..|events| - 1]), config, events[|events| - 1])
  }

  ghost predicate IsRun(start: State, config: Config, log: Log, events: seq<Event>) {
    forall i :: 0 <= i < |events| ==> Enabled(Run(start, config, events[..i]), log, events[i])
  }

  lemma {:induction false} RunIsConsistent(start: State, config: Config, log: Log, events: seq<Event>)
    requires Consistent(start, log) && IsRun(start, config, log, events)
    ensures Consistent(Run(start, config, events), log)
  {
    hide Consistent, Enabled, Step;
    if events == [] {
    } else {
      var n := |events| - 1;
      assert forall i :: 0 <= i < n ==> events[..n][..i] == events[..i];
      RunIsConsistent(start, config, log, events[..n]);
      StepKeepsConsistent(Run(start, config, events[..n]), log, config, events[n]);
    }
  }

  lemma StartIsConsistent(log: Log)
    ensures Consistent(START, log)
  {
  }

  /** Between any two moments of a run no committed offset decreases. */
  lemma {:induction false} CommittedNeverDecreases(start: State, config: Config, log: Log, events: seq<Event>, i: nat,
                                                   j: nat)
    requires Consistent(start, log) && IsRun(start, config, log, events) && i <= j <= |events|
    ensures Advances(Run(start, config, events[..i]), Run(start, config, events[..j]))
  {
    hide Consistent, Enabled, Step;
    if i == j {
    } else {
      CommittedNeverDecreases(start, config, log, events, i, j - 1);
      var before := events[..j - 1];
      assert events[..j][..j - 1] == before && events[..j][j - 1] == events[j - 1];
      assert IsRun(start, config, log, before) by {
        assert forall k :: 0 <= k < |before| ==> before[..k] == events[..k];
      }
      RunIsConsistent(start, config, log, before);
      StepKeepsConsistent(Run(start, config, before), log, config, events[j - 1]);
    }
  }

  lemma ConsistentMeansHandled(s: State, log: Log, tp: TopicPartition)
    requires Consistent(s, log)
    ensures CoveredBelow(s, log, tp, Committed(s, tp))
    ensures Committed(s, tp) > 0 ==> Delivery(tp, Committed(s, tp) - 1, Processed) in s.deliveries
  {
    if tp in s.committed {
      assert Backed(s, log, tp, s.committed[tp]);
    }
  }

  /** At-least-once handling: after any run, whatever a restart from the committed offset would skip has been
      handled, and the message just below the committed offset was processed successfully. */
  lemma NothingCommittedUnhandled(start: State, config: Config, log: Log, events: seq<Event>, tp: TopicPartition)
    requires Consistent(start, log) && IsRun(start, config, log, events)
    ensures CoveredBelow(Run(start, config, events), log, tp, Committed(Run(start, config, events), tp))
    ensures var s := Run(start, config, events);
            Committed(s, tp) > 0 ==> Delivery(tp, Committed(s, tp) - 1, Processed) in s.deliveries
  {
    hide Run, Consistent, IsRun, CoveredBelow;
    RunIsConsistent(start, config, log, events);
    ConsistentMeansHandled(Run(start, config, events), log, tp);
  }

  /** The same for a consumer that starts with nothing, without any hypothesis about its state. */
  lemma FreshConsumerLosesNothing(config: Config, log: Log, events: seq<Event>, tp: TopicPartition, o: Offset)
    requires IsRun(START, config, log, events)
    requires tp in log && o in log[tp] && o < Committed(Run(START, config, events), tp)
    ensures exists fate :: Delivery(tp, o, fate) in Run(START, config, events).deliveries && !fate.Raises()
  {
    hide Run, Consistent, IsRun;
    StartIsConsistent(log);
    NothingCommittedUnhandled(START, config, log, events, tp);
    assert WasHandled(Run(START, config, events), tp, o);
  }

  /** The guarantee ends where the loop does.  If it is run again after a message over which something raised, from
      whatever state, the fetch position is past that message, and the next success commits it unhandled. */
  lemma RunAgainAfterRaiseSkips(s: State, config: Config, lost: Event, later: Event)
    requires lost.Message? && FateOf(config, lost.script).Raises() && !WasHandled(s, lost.tp, lost.offset)
    requires later.Message? && later.script.first.Accepts? && later.answer.Accepted?
    requires later.tp == lost.tp && later.offset > lost.offset
    ensures EndsLoop(s, config, lost)
    ensures var ended := Step(s, config, lost);
            var s' := Commit(Step(ended, config, later), Accepted);
            && lost.tp in ended.position && ended.position[lost.tp] == lost.offset + 1
            && Committed(s', lost.tp) == later.offset + 1 && !WasHandled(s', lost.tp, lost.offset)
  {
    hide BatchFull, Commit, WithPending;
    var ended := Step(s, config, lost);
    assert ended == Deliver(s, config, lost.tp, lost.offset, lost.script) by {
      RaisingIsNoBatch(s, config, lost);
    }
    SuccessIsCommitted(ended, config, later);
    CommitEffect(Step(ended, config, later), Accepted);
  }

  lemma RaisingIsNoBatch(s: State, config: Config, e: Event)
    requires e.Message? && FateOf(config, e.script).Raises()
    ensures !BatchFull(s, config, e)
  {
  }

  lemma PendingIsCommitted(s: State, tp: TopicPartition)
    requires IsPending(s.pending, tp)
    ensures var s' := Commit(s, Accepted);
            Committed(s', tp) == PendingOffset(s.pending, tp) + 1 && Commit(s', Accepted) == s'
  {
    hide Commit, IsPending, PendingOffset, PendingPartitions;
    var s' := Commit(s, Accepted);
    CommitEffect(s, Accepted);
    PendingMeans(s.pending);
    PendingMeans(s'.pending);
    assert PendingPartitions(s'.pending) == {};
    NothingToCommit(s', Accepted);
  }

  lemma NothingToCommit(s: State, answer: Answer)
    requires PendingPartitions(s.pending) == {}
    ensures Commit(s, answer) == s
  {
  }

  /** A success on the first call is committed by the next commit that the broker accepts. */
  lemma SuccessIsCommitted(s: State, config: Config, e: Event)
    requires e.Message? && e.script.first.Accepts? && e.answer.Accepted?
    ensures Committed(Commit(Step(s, config, e), Accepted), e.tp) == e.offset + 1
    ensures Step(s, config, e).deliveries == s.deliveries + {Delivery(e.tp, e.offset, Processed)}
  {
    var d := Deliver(s, config, e.tp, e.offset, e.script);
    assert d.pending == WithPending(s.pending, e.tp, e.offset);
    assert d.deliveries == s.deliveries + {Delivery(e.tp, e.offset, Processed)};
    hide Commit, WithPending, IsPending, PendingOffset, PendingPartitions, Deliver, BatchFull, Committed;
    WithPendingMeans(s.pending, e.tp, e.offset);
    PendingIsCommitted(d, e.tp);
    CommitEffect(d, Accepted);
  }

  lemma ThreeAreRun(start: State, config: Config, log: Log, events: seq<Event>)
    requires |events| == 3 && Enabled(start, log, events[0]) && Enabled(Step(start, config, events[0]), log, events[1])
    ensures IsRun(start, config, log, events[..2])
    ensures Enabled(Run(start, config, events[..2]), log, events[2]) ==> IsRun(start, config, log, events)
  {
    hide Enabled, Step, Run;
    RunThree(start, config, events);
    var two := events[..2];
    assert two[..0] == events[..0] && two[..1] == events[..1];
  }

  // ----- What the messages below a committed offset went through -----

  /** One of the events delivered the message, and a call on it succeeded. */
  ghost predicate SucceededIn(config: Config, events: seq<Event>, tp: TopicPartition, o: Offset) {
    exists i :: 0 <= i < |events| && events[i].Message? && events[i].tp == tp && events[i].offset == o
                && Succeeds(config, events[i].script)
  }

  ghost predicate DeliveredBy(config: Config, events: seq<Event>, d: Delivery) {
    exists i :: 0 <= i < |events| && events[i].Message? && events[i].tp == d.tp && events[i].offset == d.offset
                && FateOf(config, events[i].script) == d.fate
  }

  lemma {:induction false} DeliveriesComeFromEvents(start: State, config: Config, events: seq<Event>, d: Delivery)
    requires d in Run(start, config, events).deliveries
    ensures d in start.deliveries || DeliveredBy(config, events, d)
  {
    if events == [] {
    } else {
      var n := |events| - 1;
      var s, e := Run(start, config, events[..n]), events[n];
      StepDelivers(s, config, e);
      if d in s.deliveries {
        hide Step, Run, FateOf;
        DeliveriesComeFromEvents(start, config, events[..n], d);
        if d !in start.deliveries {
          var i :| 0 <= i < n && events[..n][i].Message? && events[..n][i].tp == d.tp
            && events[..n][i].offset == d.offset && FateOf(config, events[..n][i].script) == d.fate;
          assert events[..n][i] == events[i];
        }
      }
    }
  }

  lemma StepDelivers(s: State, config: Config, e: Event)
    ensures Step(s, config, e).deliveries
         == s.deliveries + if e.Message? then {Delivery(e.tp, e.offset, FateOf(config, e.script))} else {}
  {
    hide PendingPartitions, WithPending, FateOf;
  }

  /** With a dead-letter topic and a retry policy: some call on every message below a committed offset succeeded. */
  lemma CommittedMeansSucceeded(config: Config, log: Log, events: seq<Event>, tp: TopicPartition, o: Offset)
    requires IsRun(START, config, log, events)
    requires config.deadLetterTopic && config.retryPolicy && config.maxRetries > 0
    requires tp in log && o in log[tp] && o < Committed(Run(START, config, events), tp)
    ensures SucceededIn(config, events, tp, o)
  {
    hide Run, IsRun, FateOf, Succeeds, Committed;
    FreshConsumerLosesNothing(config, log, events, tp, o);
    var fate :| Delivery(tp, o, fate) in Run(START, config, events).deliveries && !fate.Raises();
    DeliveriesComeFromEvents(START, config, events, Delivery(tp, o, fate));
    var i :| 0 <= i < |events| && events[i].Message? && events[i].tp == tp && events[i].offset == o
      && FateOf(config, events[i].script) == fate;
    NotRaisingMeans(config, events[i].script);
  }

  /** Without a dead-letter topic an invalid message ends the loop only if the commit after it raises. */
  lemma InvalidIsSkipped(s: State, config: Config, e: Event)
    requires e.Message? && e.script.first.Invalid? && !config.deadLetterTopic && !e.answer.Raised?
    ensures !EndsLoop(s, config, e) && Step(s, config, e).stopped == s.stopped
  {
  }

  /** Fewer topics than the batch bound wait for a commit as long as the loop runs, and nothing is committed for a
      message before that many wait. */
  lemma BatchBound(s: State, config: Config, e: Event)
    requires |s.pending| < config.maxBatchSize && e.Message? && !EndsLoop(s, config, e)
    ensures |Step(s, config, e).pending| < config.maxBatchSize
    ensures Step(s, config, e).committed != s.committed ==>
              |s.pending.Keys + if e.script.first.Accepts? then {e.tp.topic} else {}| >= config.maxBatchSize
  {
    hide Commit, Deliver, FateOf, PendingPartitions;
    DeliveredTopics(s, config, e);
    if BatchFull(s, config, e) {
      CommittedTopics(Deliver(s, config, e.tp, e.offset, e.script), e.answer);
    }
  }

  lemma DeliveredTopics(s: State, config: Config, e: Event)
    requires e.Message?
    ensures var d := Deliver(s, config, e.tp, e.offset, e.script);
            && d.committed == s.committed && |d.pending| == |d.pending.Keys|
            && d.pending.Keys == s.pending.Keys + (if e.script.first.Accepts? then {e.tp.topic} else {})
            && (d.pending == s.pending || PendingPartitions(d.pending) != {})
  {
    hide WithPending, PendingPartitions, FateOf;
    FateMeans(config, e.script);
    WithPendingTopics(s.pending, e.tp, e.offset);
    assert s.pending.Keys + {} == s.pending.Keys;
  }

  lemma WithPendingTopics(pending: Pending, tp: TopicPartition, offset: Offset)
    ensures WithPending(pending, tp, offset).Keys == pending.Keys + {tp.topic}
    ensures PendingPartitions(WithPending(pending, tp, offset)) != {}
  {
    WithPendingMeans(pending, tp, offset);
    PendingMeans(WithPending(pending, tp, offset));
    assert tp in PendingPartitions(WithPending(pending, tp, offset));
  }

  lemma CommittedTopics(s: State, answer: Answer)
    requires !CommitRaises(s, answer)
    ensures Commit(s, answer).pending == if PendingPartitions(s.pending) == {} then s.pending else map[]
  {
  }

  // ----- Assignment of a partition with a pending success -----

  function RewindingEvents(tp: TopicPartition, o: Offset): seq<Event> {
    [Revoked({}, Accepted), Message(tp, o, Script(Accepts, []), Accepted), Revoked({}, Accepted)]
  }

  /** From any consistent state, assigning a partition with a pending success above an uncommitted message makes
      a committed offset go back, every later event being one that may happen. */
  lemma AssignWhilePendingRewinds(s: State, config: Config, log: Log, tps: set<TopicPartition>, tp: TopicPartition,
                                  o: Offset)
    requires Consistent(s, log) && !s.stopped && tp in tps && IsPending(s.pending, tp)
    requires IsNext(log, tp, Committed(s, tp), o) && o < PendingOffset(s.pending, tp)
    ensures var s', events := Step(s, config, Assigned(tps)), RewindingEvents(tp, o);
            && IsRun(s', config, log, events)
            && Committed(Run(s', config, events), tp) < Committed(Run(s', config, events[..1]), tp)
  {
    hide Run, Commit, PendingPartitions, IsPending, PendingOffset, NoneBetween, Deliver, BatchFull;
    var rewound, events := Step(s, config, Assigned(tps)), RewindingEvents(tp, o);
    RunThree(rewound, config, events);
    PendingIsCommitted(rewound, tp);
    CommitEffect(rewound, Accepted);
    var s1 := Commit(rewound, Accepted);
    NothingRevoked(rewound, config);
    assert Enabled(s1, log, events[1]);
    SuccessIsCommitted(s1, config, events[1]);
    NothingRevoked(Step(s1, config, events[1]), config);
    SuccessKeepsRunning(s1, config, events[1]);
    ThreeAreRun(rewound, config, log, events);
  }

  lemma NothingRevoked(s: State, config: Config)
    ensures Step(s, config, Revoked({}, Accepted)) == Commit(s, Accepted)
  {
    assert Commit(s, Accepted).position - {} == Commit(s, Accepted).position;
  }

  lemma SuccessKeepsRunning(s: State, config: Config, e: Event)
    requires e.Message? && e.script.first.Accepts? && e.answer.Accepted? && !s.stopped
    ensures !Step(s, config, e).stopped
  {
  }

  ghost predicate NeverRewinds(s: State, config: Config, log: Log) {
    forall events, i, j :: IsRun(s, config, log, events) && 0 <= i <= j <= |events| ==>
      Advances(Run(s, config, events[..i]), Run(s, config, events[..j]))
  }

  /** An assignment is harmless exactly when no continuation lowers a committed offset. */
  lemma HarmlessIffNeverRewinds(s: State, config: Config, log: Log, tps: set<TopicPartition>)
    requires Consistent(s, log) && !s.stopped
    ensures NeverRewinds(Step(s, config, Assigned(tps)), config, log) <==> Harmless(s, log, tps)
  {
    hide Consistent, IsRun, Run, Step, Advances;
    var s' := Step(s, config, Assigned(tps));
    if Harmless(s, log, tps) {
      AssignKeepsConsistentIff(s, log, config, tps);
      forall events, i, j | IsRun(s', config, log, events) && 0 <= i <= j <= |events|
        ensures Advances(Run(s', config, events[..i]), Run(s', config, events[..j]))
      {
        CommittedNeverDecreases(s', config, log, events, i, j);
      }
    } else {
      var tp :| tp in tps && IsPending(s.pending, tp)
        && !NoneBetween(log, tp, Committed(s, tp), PendingOffset(s.pending, tp));
      var o := NextMessage(log, tp, Committed(s, tp), PendingOffset(s.pending, tp));
      var events := RewindingEvents(tp, o);
      AssignWhilePendingRewinds(s, config, log, tps, tp, o);
      assert events[..3] == events;
      NotAdvancing(Run(s', config, events[..1]), Run(s', config, events[..3]), tp);
    }
  }

  lemma NotAdvancing(s: State, s': State, tp: TopicPartition)
    requires Committed(s', tp) < Committed(s, tp)
    ensures !Advances(s, s')
  {
  }

  lemma {:induction false} NextMessage(log: Log, tp: TopicPartition, from: Offset, bound: Offset) returns (o: Offset)
    requires !NoneBetween(log, tp, from, bound)
    ensures IsNext(log, tp, from, o) && o < bound
    decreases bound
  {
    o :| tp in log && o in log[tp] && from <= o < bound;
    if !NoneBetween(log, tp, from, o) {
      o := NextMessage(log, tp, from, o);
    }
  }

  /** An ordinary run reaches a state in which an assignment would do harm: two messages in a row that succeed. */
  lemma PendingAboveUncommitted(tp: TopicPartition) returns (config: Config, log: Log, events: seq<Event>)
    ensures IsRun(START, config, log, events) && !Harmless(Run(START, config, events), log, {tp})
  {
    config, log := Config(2, false, false, 0, true), map[tp := {0, 1}];
    var m0, m1 := Message(tp, 0, Script(Accepts, []), Accepted), Message(tp, 1, Script(Accepts, []), Accepted);
    events := [Assigned({tp}), m0, m1];
    hide Run, Step, WithPending, IsPending, PendingOffset;
    RunThree(START, config, events);
    AssignFirst(config, tp);
    var s1 := START.(position := map[tp := 0]);
    var s2 := Deliver(s1, config, tp, 0, Script(Accepts, []));
    BatchNotFull(s1, config, m0);
    BatchNotFull(s2, config, m1);
    WithPendingMeans(s1.pending, tp, 0);
    WithPendingMeans(s2.pending, tp, 1);
    assert 0 in log[tp];
  }

  lemma RunThree(start: State, config: Config, events: seq<Event>)
    requires |events| == 3
    ensures Run(start, config, events[..0]) == start
    ensures Run(start, config, events[..1]) == Step(start, config, events[0])
    ensures Run(start, config, events[..2]) == Step(Run(start, config, events[..1]), config, events[1])
    ensures Run(start, config, events) == Step(Run(start, config, events[..2]), config, events[2])
  {
    assert events[..1][..0] == events[..0] && events[..2][..1] == events[..1];
  }

  lemma AssignFirst(config: Config, tp: TopicPartition)
    ensures Step(START, config, Assigned({tp})) == START.(position := map[tp := 0])
  {
  }

  lemma BatchNotFull(s: State, config: Config, e: Event)
    requires e.Message? && config.maxBatchSize == 2 && s.pending.Keys <= {e.tp.topic}
    ensures var s' := Deliver(s, config, e.tp, e.offset, e.script);
            Step(s, config, e) == s' && s'.pending.Keys <= {e.tp.topic}
  {
    var pending := Deliver(s, config, e.tp, e.offset, e.script).pending;
    assert |pending.Keys| <= |{e.tp.topic}| by {
      SubsetSize(pending.Keys, {e.tp.topic});
    }
  }

  // ----- The consumer -----

  class KafkaConsumerGroup {
    const config: Config
    var offsetCommits: Pending
    var assignments: set<TopicPartition>
    ghost var committed: map<TopicPartition, Offset>
    ghost var position: map<TopicPartition, Offset>
    ghost var deliveries: set<Delivery>
    ghost var stopped: bool

    constructor (config: Config)
      ensures this.config == config && View() == START && assignments == {}
    {
      this.config := config;
      offsetCommits, assignments := map[], {};
      committed, position, deliveries, stopped := map[], map[], {}, false;
    }

    ghost function View(): State
      reads this
    {
      State(offsetCommits, committed, position, deliveries, stopped)
    }

    /** Submits one past every pending offset.  The table is emptied whether or not the broker accepts, but not
        if the call raises. */
    method CommitOffsets(answer: Answer) returns (raised: bool, commitList: map<TopicPartition, Offset>)
      modifies this`offsetCommits, this`committed, this`stopped
      ensures View() == Commit(old(View()), answer) && (raised <==> CommitRaises(old(View()), answer))
      ensures commitList == map tp | tp in PendingPartitions(old(offsetCommits)) ::
                PendingOffset(old(offsetCommits), tp) + 1
    {
      raised := false;
      commitList := map[];
      var todo := PendingPartitions(offsetCommits);
      PendingMeans(offsetCommits);
      while todo != {}
        invariant todo <= PendingPartitions(offsetCommits)
        invariant commitList == map tp | tp in PendingPartitions(offsetCommits) - todo ::
                  PendingOffset(offsetCommits, tp) + 1
      {
        var tp :| tp in todo;
        todo := todo - {tp};
        commitList := commitList[tp := offsetCommits[tp.topic][tp.partition] + 1];
      }
      assert PendingPartitions(offsetCommits) - {} == PendingPartitions(offsetCommits);
      if commitList != map[] {
        assert commitList.Keys != {};
        if answer.Raised? {
          stopped := true;
          return true, commitList;
        }
        if answer.Accepted? {
          committed := committed + commitList;
        }
        offsetCommits := map[];
      } else {
        assert commitList.Keys == {};
      }
    }

    /** Calls the processor again until it succeeds, its failure cannot be reported, or the policy is exhausted. */
    method HandleRetry(retries: seq<bool>) returns (fate: Fate, calls: nat)
      ensures fate == RetryFate(config, retries) && calls <= config.maxRetries
      ensures config.strictLogger ==> calls <= 1
      ensures calls == 0 <==> !config.retryPolicy || config.maxRetries == 0
      ensures forall j :: 0 <= j < calls - 1 && j < |retries| ==> !retries[j]
      ensures fate.Retried? <==> 0 < calls <= |retries| && retries[calls - 1]
      ensures !fate.Retried? && !config.strictLogger && config.retryPolicy ==> calls == config.maxRetries
    {
      calls := 0;
      if !config.retryPolicy {
        return Skipped, calls;
      }
      while calls < config.maxRetries
        invariant calls <= config.maxRetries
        invariant calls <= FirstSuccess(retries, config.maxRetries)
        invariant forall j :: 0 <= j < calls && j < |retries| ==> !retries[j]
        invariant calls > 0 ==> FirstSuccess(retries, 1) == 1 && calls < config.maxRetries && !config.strictLogger
      {
        calls := calls + 1;
        if calls - 1 < |retries| && retries[calls - 1] {
          return Retried, calls;
        }
        if config.strictLogger {
          return RetryReportFailed, calls;
        }
        if calls == config.maxRetries {
          return DeadLetterFate(config), calls;
        }
      }
      return Skipped, calls;
    }

    /** Deals with one delivered message.  The loop must stop when the result says so. */
    method ProcessMessage(tp: TopicPartition, offset: Offset, script: Script) returns (raised: bool, calls: nat)
      modifies this`offsetCommits, this`position, this`deliveries, this`stopped
      ensures View() == Deliver(old(View()), config, tp, offset, script)
      ensures raised <==> FateOf(config, script).Raises()
      ensures 1 <= calls <= config.maxRetries + 1 && (!script.first.Fails? ==> calls == 1)
    {
      var fate;
      calls := 1;
      match script.first {
        case Accepts =>
          offsetCommits := WithPending(offsetCommits, tp, offset);
          fate := Processed;
        case Invalid =>
          fate := DeadLetterFate(config);
        case Fails =>
          var more;
          fate, more := HandleRetry(script.retries);
          calls := calls + more;
      }
      position := position[tp := offset + 1];
      deliveries := deliveries + {Delivery(tp, offset, fate)};
      raised := fate.Raises();
      stopped := stopped || raised;
    }

    method HandleRevoked(tps: set<TopicPartition>, answer: Answer) returns (raised: bool)
      modifies this`offsetCommits, this`assignments, this`committed, this`position, this`stopped
      ensures View() == Step(old(View()), config, Revoked(tps, answer))
      ensures raised <==> CommitRaises(old(View()), answer)
      ensures assignments == if raised then old(assignments) else {}
    {
      var list;
      raised, list := CommitOffsets(answer);
      if !raised {
        assignments := {};
        position := position - tps;
      }
    }

    /** The client's assignment is replaced, the consumer's own table only grows. */
    method HandleAssigned(tps: set<TopicPartition>)
      modifies this`assignments, this`position
      ensures View() == Step(old(View()), config, Assigned(tps)) && assignments == old(assignments) + tps
    {
      assignments := assignments + tps;
      position := map tp | tp in tps :: Committed(View(), tp);
    }

    /** Consumes events up to the first that ends the loop, then commits what is pending.  For a consumer whose
        state is consistent with the log, which a fresh one's is, and events that may happen, no message below a
        committed offset has gone unhandled; with a dead-letter topic and a retry policy, some call on it succeeded. */
    method RunConsumptionLoop(events: seq<Event>, lastAnswer: Answer, ghost log: Log) returns (consumed: nat)
      modifies this
      ensures consumed <= |events|
      ensures View() == Run(old(View()), config, events[..consumed] + [Closing(lastAnswer)])
      ensures consumed < |events| ==>
                consumed > 0 && EndsLoop(Run(old(View()), config, events[..consumed - 1]), config, events[consumed - 1])
      ensures forall i :: 0 <= i < consumed - 1 ==> !EndsLoop(Run(old(View()), config, events[..i]), config, events[i])
      ensures Consistent(old(View()), log) && IsRun(old(View()), config, log, events[..consumed]) ==>
                forall tp :: CoveredBelow(View(), log, tp, Committed(View(), tp))
      ensures old(View()) == START && IsRun(START, config, log, events[..consumed])
              && config.deadLetterTopic && config.retryPolicy && config.maxRetries > 0 ==>
                forall tp, o :: tp in log && o in log[tp] && o < Committed(View(), tp) ==>
                  SucceededIn(config, events[..consumed], tp, o)
    {
      hide Consistent, IsRun, CoveredBelow, Run, Step, EndsLoop, Commit, SucceededIn, Committed;
      RunNothing(View(), config, events);
      consumed := 0;
      var ended := false;
      while consumed < |events| && !ended
        invariant consumed <= |events| && View() == Run(old(View()), config, events[..consumed])
        invariant ended ==>
                    && consumed > 0
                    && EndsLoop(Run(old(View()), config, events[..consumed - 1]), config, events[consumed - 1])
        invariant forall i :: 0 <= i < (if ended then consumed - 1 else consumed) ==>
                    !EndsLoop(Run(old(View()), config, events[..i]), config, events[i])
        decreases |events| - consumed
      {
        assert events[..consumed + 1] == events[..consumed] + [events[consumed]];
        RunAppend(old(View()), config, events[..consumed], events[consumed]);
        ended := Dispatch(events[consumed]);
        consumed := consumed + 1;
      }
      var _, _ := CommitOffsets(lastAnswer);
      stopped := true;
      RunCloses(old(View()), config, log, events[..consumed], lastAnswer);
      if old(View()) == START && IsRun(START, config, log, events[..consumed])
         && config.deadLetterTopic && config.retryPolicy && config.maxRetries > 0 {
        CommittedAtTheEnd(config, log, events[..consumed], lastAnswer);
      }
    }

    /** One turn of the loop, or what a handler does in between. */
    method Dispatch(e: Event) returns (ended: bool)
      modifies this
      ensures View() == Step(old(View()), config, e) && (ended <==> EndsLoop(old(View()), config, e))
    {
      hide WithPending, PendingPartitions;
      match e {
        case Idle =>
          ended := false;
        case Message(tp, offset, script, answer) =>
          var calls;
          ended, calls := ProcessMessage(tp, offset, script);
          if !ended && |offsetCommits| >= config.maxBatchSize {
            var list;
            ended, list := CommitOffsets(answer);
          }
        case Revoked(tps, answer) =>
          ended := HandleRevoked(tps, answer);
        case Assigned(tps) =>
          HandleAssigned(tps);
          ended := false;
        case Closing(answer) =>
          var _, _ := CommitOffsets(answer);
          stopped := true;
          ended := true;
      }
    }
  }

  lemma RunAppend(start: State, config: Config, events: seq<Event>, e: Event)
    ensures Run(start, config, events + [e]) == Step(Run(start, config, events), config, e)
  {
    assert (events + [e])[..|events|] == events;
  }

  lemma RunNothing(start: State, config: Config, events: seq<Event>)
    ensures Run(start, config, events[..0]) == start
  {
  }

  /** A run that ends with the last commit. */
  lemma RunCloses(start: State, config: Config, log: Log, events: seq<Event>, answer: Answer)
    ensures var s := Run(start, config, events + [Closing(answer)]);
            && s == Commit(Run(start, config, events), answer).(stopped := true)
            && (Consistent(start, log) && IsRun(start, config, log, events) ==>
                  forall tp :: CoveredBelow(s, log, tp, Committed(s, tp)))
  {
    hide Consistent, IsRun, Run, Commit, CoveredBelow;
    RunAppend(start, config, events, Closing(answer));
    if Consistent(start, log) && IsRun(start, config, log, events) {
      ClosingIsRun(start, config, log, events, answer);
      forall tp
        ensures var s := Run(start, config, events + [Closing(answer)]); CoveredBelow(s, log, tp, Committed(s, tp))
      {
        NothingCommittedUnhandled(start, config, log, events + [Closing(answer)], tp);
      }
    }
  }

  lemma CommittedAtTheEnd(config: Config, log: Log, events: seq<Event>, answer: Answer)
    requires IsRun(START, config, log, events)
    requires config.deadLetterTopic && config.retryPolicy && config.maxRetries > 0
    ensures var s := Run(START, config, events + [Closing(answer)]);
            forall tp, o :: tp in log && o in log[tp] && o < Committed(s, tp) ==> SucceededIn(config, events, tp, o)
  {
    hide IsRun, Run, Committed, Succeeds;
    ClosingIsRun(START, config, log, events, answer);
    forall tp, o | tp in log && o in log[tp] && o < Committed(Run(START, config, events + [Closing(answer)]), tp)
      ensures SucceededIn(config, events, tp, o)
    {
      CommittedMeansSucceeded(config, log, events + [Closing(answer)], tp, o);
    }
  }

  lemma ClosingIsRun(start: State, config: Config, log: Log, events: seq<Event>, answer: Answer)
    requires IsRun(start, config, log, events)
    ensures IsRun(start, config, log, events + [Closing(answer)])
  {
    hide Run;
    var longer := events + [Closing(answer)];
    assert forall i :: 0 <= i < |longer| ==> longer[..i] == events[..i];
  }
}
