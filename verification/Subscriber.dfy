/** The message subscriber: concurrent processing, a retry queue with an attempt bound, and a dead-letter
    sink, as a machine over the steps of its tasks. */
module Subscriber {

  /** `id` names the delivery; `attempt` is its retry header, which the broker may already have set. */
  datatype Message = Message(id: nat, attempt: nat)

  datatype Config = Config(maxRetryAttempts: nat, deadLetterTopic: bool)

  datatype Verdict =
    | Accepted  // the handler returned and the offset was committed
    | Invalid   // schema validation failed
    | Failed    // deserialization, the handler or the commit raised

  /** How one processing of a message goes: its verdict, whether the handler was called, and whether a
      publication to the dead-letter topic, should there be one, succeeds. */
  datatype Outcome = Outcome(verdict: Verdict, called: bool, published: bool)

  datatype Fate = Succeeded | DeadLettered | Dropped | LostInPublish

  /** The deliveries being processed, those waiting for a retry, and the record of every delivery: its first
      attempt number, how often the handler was called for it, and how it ended. */
  datatype State = State(next: nat, inFlight: seq<Message>, retryQueue: seq<Message>,
                         first: map<nat, nat>, calls: map<nat, nat>, finished: map<nat, Fate>)

  const START := State(0, [], [], map[], map[], map[])

  datatype Event = Poll(attempt: nat) | TakeRetry | Finish(k: nat, outcome: Outcome)

  // ----- Specification -----

  function InvalidFate(config: Config, published: bool): Fate {
    if !config.deadLetterTopic then Dropped else if published then DeadLettered else LostInPublish
  }

  predicate Requeues(config: Config, m: Message, outcome: Outcome) {
    outcome.verdict.Failed? && m.attempt < config.maxRetryAttempts
  }

  function FateOf(config: Config, outcome: Outcome): Fate {
    if outcome.verdict.Accepted? then Succeeded else InvalidFate(config, outcome.published)
  }

  /** `m` has been processed: it is requeued with the next attempt number, or it is finished. */
  function Settle(s: State, config: Config, m: Message, outcome: Outcome): State
    requires m.id in s.calls
  {
    var s' := s.(calls := s.calls[m.id := s.calls[m.id] + if outcome.called then 1 else 0]);
    if Requeues(config, m, outcome)
    then s'.(retryQueue := s.retryQueue + [m.(attempt := m.attempt + 1)])
    else s'.(finished := s.finished[m.id := FateOf(config, outcome)])
  }

  function Remove(s: seq<Message>, k: nat): seq<Message>
    requires k < |s|
  {
    s[..k] + s[k + 1..]
  }

  predicate Enabled(s: State, e: Event) {
    match e
    case Poll(_) => true
    case TakeRetry => s.retryQueue != []
    case Finish(k, outcome) =>
      && k < |s.inFlight| && s.inFlight[k].id in s.calls
      && (outcome.verdict.Accepted? ==> outcome.called)
  }

  function Step(s: State, config: Config, e: Event): State
    requires Enabled(s, e)
  {
    match e
    case Poll(attempt) =>
      s.(next := s.next + 1, inFlight := s.inFlight + [Message(s.next, attempt)],
         first := s.first[s.next := attempt], calls := s.calls[s.next := 0])
    case TakeRetry =>
      s.(inFlight := s.inFlight + [s.retryQueue[0]], retryQueue := s.retryQueue[1..])
    case Finish(k, outcome) =>
      Settle(s.(inFlight := Remove(s.inFlight, k)), config, s.inFlight[k], outcome)
  }

  // ----- The invariant -----

  function Ids(ms: seq<Message>): (ids: seq<nat>)
    ensures |ids| == |ms| && forall i :: 0 <= i < |ms| ==> ids[i] == ms[i].id
  {
    seq(|ms|, i requires 0 <= i < |ms| => ms[i].id)
  }

  /** In how many of the three places delivery `id` is. */
  function Places(s: State, id: nat): nat {
    multiset(Ids(s.inFlight))[id] + multiset(Ids(s.retryQueue))[id] + if id in s.finished then 1 else 0
  }

  /** The most handler calls a delivery can get. */
  function CallBound(config: Config, first: nat): nat {
    if first < config.maxRetryAttempts then config.maxRetryAttempts - first + 1 else 1
  }

  /** A delivery still in play has been called at most once for each attempt it has used up. */
  predicate WithinBudget(s: State, config: Config, m: Message) {
    && m.id in s.first && m.id in s.calls && m.id < s.next
    && s.first[m.id] <= m.attempt && (m.attempt <= config.maxRetryAttempts || m.attempt == s.first[m.id])
    && s.calls[m.id] + s.first[m.id] <= m.attempt
  }

  ghost predicate Inv(s: State, config: Config) {
    && (forall id: nat :: Places(s, id) == if id < s.next then 1 else 0)
    && (forall m :: m in s.inFlight ==> WithinBudget(s, config, m))
    && (forall m :: m in s.retryQueue ==> WithinBudget(s, config, m) && 0 < m.attempt <= config.maxRetryAttempts)
    && (forall id: nat :: id < s.next ==>
        id in s.first && id in s.calls && s.calls[id] <= CallBound(config, s.first[id]))
  }

  lemma IdsConcat(a: seq<Message>, b: seq<Message>)
    ensures Ids(a + b) == Ids(a) + Ids(b)
  {
  }

  lemma RemoveIds(ms: seq<Message>, k: nat)
    requires k < |ms|
    ensures multiset(Ids(ms)) == multiset(Ids(Remove(ms, k))) + multiset{ms[k].id}
  {
    assert ms == ms[..k] + [ms[k]] + ms[k + 1..];
    IdsConcat(ms[..k] + [ms[k]], ms[k + 1..]);
    IdsConcat(ms[..k], [ms[k]]);
    IdsConcat(ms[..k], ms[k + 1..]);
    assert Ids([ms[k]]) == [ms[k].id];
  }

  lemma AppendIds(ms: seq<Message>, m: Message)
    ensures multiset(Ids(ms + [m])) == multiset(Ids(ms)) + multiset{m.id}
  {
    IdsConcat(ms, [m]);
    assert Ids([m]) == [m.id];
  }

  lemma {:induction false} CountsMember(ms: seq<Message>, m: Message)
    requires m in ms
    ensures multiset(Ids(ms))[m.id] > 0
  {
    var i :| 0 <= i < |ms| && ms[i] == m;
    assert Ids(ms)[i] == m.id;
  }

  lemma PollKeepsInv(s: State, config: Config, attempt: nat)
    requires Inv(s, config)
    ensures Inv(Step(s, config, Poll(attempt)), config)
  {
    AppendIds(s.inFlight, Message(s.next, attempt));
    var s' := Step(s, config, Poll(attempt));
    forall id: nat ensures Places(s', id) == if id < s'.next then 1 else 0 {
      assert Places(s, id) == if id < s.next then 1 else 0;
    }
  }

  lemma TakeRetryKeepsInv(s: State, config: Config)
    requires Inv(s, config) && Enabled(s, TakeRetry)
    ensures Inv(Step(s, config, TakeRetry), config)
  {
    hide Places;
    var s' := Step(s, config, TakeRetry);
    forall id: nat ensures Places(s', id) == Places(s, id) {
      TakeRetryPlaces(s, config, id);
    }
    assert s.retryQueue[0] in s.retryQueue;
  }

  lemma TakeRetryPlaces(s: State, config: Config, id: nat)
    requires Enabled(s, TakeRetry)
    ensures Places(Step(s, config, TakeRetry), id) == Places(s, id)
  {
    AppendIds(s.inFlight, s.retryQueue[0]);
    RemoveIds(s.retryQueue, 0);
    assert Remove(s.retryQueue, 0) == s.retryQueue[1..];
  }

  /** A message being processed is nowhere else. */
  lemma FinishedOnce(s: State, config: Config, k: nat)
    requires Inv(s, config) && k < |s.inFlight|
    ensures var m, rest := s.inFlight[k], Remove(s.inFlight, k);
            && m.id !in s.finished &&
                (forall x :: x in rest || x in s.retryQueue ==> x.id != m.id && WithinBudget(s, config, x))
            && (forall x :: x in rest ==> x in s.inFlight)
  {
    var m, rest := s.inFlight[k], Remove(s.inFlight, k);
    assert m in s.inFlight;
    assert Places(s, m.id) == 1;
    RemoveIds(s.inFlight, k);
    forall x | x in rest || x in s.retryQueue ensures x.id != m.id && WithinBudget(s, config, x) {
      if x in rest {
        CountsMember(rest, x);
      } else {
        CountsMember(s.retryQueue, x);
      }
    }
  }

  lemma FinishPlaces(s: State, config: Config, k: nat, outcome: Outcome, id: nat)
    requires Inv(s, config) && Enabled(s, Finish(k, outcome))
    ensures Places(Step(s, config, Finish(k, outcome)), id) == if id < s.next then 1 else 0
  {
    var m := s.inFlight[k];
    assert m in s.inFlight;
    FinishedOnce(s, config, k);
    RemoveIds(s.inFlight, k);
    AppendIds(s.retryQueue, m.(attempt := m.attempt + 1));
    assert Places(s, id) == if id < s.next then 1 else 0;
  }

  lemma FinishKeepsInv(s: State, config: Config, k: nat, outcome: Outcome)
    requires Inv(s, config) && Enabled(s, Finish(k, outcome))
    ensures Inv(Step(s, config, Finish(k, outcome)), config)
  {
    hide Places;
    var s' := Step(s, config, Finish(k, outcome));
    forall id: nat ensures Places(s', id) == if id < s'.next then 1 else 0 {
      FinishPlaces(s, config, k, outcome, id);
    }
    assert s.inFlight[k] in s.inFlight;
    FinishedOnce(s, config, k);
  }

  lemma StepKeepsInv(s: State, config: Config, e: Event)
    requires Inv(s, config) && Enabled(s, e)
    ensures Inv(Step(s, config, e), config)
  {
    hide Inv;
    match e
    case Poll(attempt) => PollKeepsInv(s, config, attempt);
    case TakeRetry => TakeRetryKeepsInv(s, config);
    case Finish(k, outcome) => FinishKeepsInv(s, config, k, outcome);
  }

  // ----- Runs -----

  ghost predicate IsRun(ss: seq<State>, config: Config, es: seq<Event>) {
    |ss| == |es| + 1 && forall i :: 0 <= i < |es| ==> Enabled(ss[i], es[i]) && ss[i + 1] == Step(ss[i], config, es[i])
  }

  lemma {:induction false} RunKeepsInv(ss: seq<State>, config: Config, es: seq<Event>, k: nat)
    requires IsRun(ss, config, es) && Inv(ss[0], config) && k < |ss|
    ensures Inv(ss[k], config)
  {
    hide Inv, Enabled, Step;
    if k == 0 {
    } else {
      RunKeepsInv(ss, config, es, k - 1);
      StepKeepsInv(ss[k - 1], config, es[k - 1]);
      assert ss[k - 1 + 1] == ss[k];
    }
  }

  lemma StartIsInv(config: Config)
    ensures Inv(START, config)
  {
  }

  /** At every moment of every run each polled delivery is in exactly one place (in flight, in the retry
      queue or finished), and its handler has been called at most once more than it had retries left. */
  lemma EveryDeliveryAccounted(ss: seq<State>, config: Config, es: seq<Event>, k: nat, id: nat)
    requires IsRun(ss, config, es) && ss[0] == START && k < |ss|
    ensures Places(ss[k], id) == if id < ss[k].next then 1 else 0
    ensures id < ss[k].next ==>
              id in ss[k].calls && id in ss[k].first && ss[k].calls[id] <= CallBound(config, ss[k].first[id])
    ensures id < ss[k].next ==> ss[k].calls[id] <= config.maxRetryAttempts + 1
  {
    StartIsInv(config);
    RunKeepsInv(ss, config, es, k);
  }

  // ----- Once polling stops -----

  function Slack(config: Config, m: Message): nat {
    if m.attempt < config.maxRetryAttempts then config.maxRetryAttempts - m.attempt else 0
  }

  /** The steps that `ms` can still take part in, `extra` of them besides two for each attempt left. */
  function Load(config: Config, ms: seq<Message>, extra: nat): nat {
    if ms == [] then 0
    else Load(config, ms[..|ms| - 1], extra) + 2 * Slack(config, ms[|ms| - 1]) + extra
  }

  function Work(config: Config, s: State): nat {
    Load(config, s.inFlight, 1) + Load(config, s.retryQueue, 2)
  }

  lemma {:induction false} LoadConcat(config: Config, a: seq<Message>, b: seq<Message>, extra: nat)
    ensures Load(config, a + b, extra) == Load(config, a, extra) + Load(config, b, extra)
  {
    if b == [] {
      assert a + b == a;
    } else {
      var n := |b| - 1;
      assert (a + b)[..|a + b| - 1] == a + b[..n];
      LoadConcat(config, a, b[..n], extra);
    }
  }

  lemma LoadOne(config: Config, m: Message, extra: nat)
    ensures Load(config, [m], extra) == 2 * Slack(config, m) + extra
  {
    assert [m][..0] == [];
  }

  lemma LoadRemove(config: Config, ms: seq<Message>, k: nat, extra: nat)
    requires k < |ms|
    ensures Load(config, ms, extra) == Load(config, Remove(ms, k), extra) + 2 * Slack(config, ms[k]) + extra
  {
    assert ms == ms[..k] + [ms[k]] + ms[k + 1..];
    LoadConcat(config, ms[..k] + [ms[k]], ms[k + 1..], extra);
    LoadConcat(config, ms[..k], [ms[k]], extra);
    LoadConcat(config, ms[..k], ms[k + 1..], extra);
    LoadOne(config, ms[k], extra);
  }

  lemma LoadAppend(config: Config, ms: seq<Message>, m: Message, extra: nat)
    ensures Load(config, ms + [m], extra) == Load(config, ms, extra) + 2 * Slack(config, m) + extra
  {
    LoadConcat(config, ms, [m], extra);
    LoadOne(config, m, extra);
  }

  lemma StepShrinksWork(s: State, config: Config, e: Event)
    requires Enabled(s, e) && !e.Poll?
    ensures Work(config, Step(s, config, e)) < Work(config, s)
  {
    match e
    case TakeRetry =>
      LoadRemove(config, s.retryQueue, 0, 2);
      assert Remove(s.retryQueue, 0) == s.retryQueue[1..];
      LoadAppend(config, s.inFlight, s.retryQueue[0], 1);
    case Finish(k, outcome) =>
      var m := s.inFlight[k];
      LoadRemove(config, s.inFlight, k, 1);
      LoadAppend(config, s.retryQueue, m.(attempt := m.attempt + 1), 2);
  }

  /** Without new polls a run ends within a number of steps fixed at its start. */
  lemma {:induction false} QuietRunIsShort(ss: seq<State>, config: Config, es: seq<Event>, k: nat)
    requires IsRun(ss, config, es) && k < |ss| && forall e :: e in es ==> !e.Poll?
    ensures k + Work(config, ss[k]) <= Work(config, ss[0])
  {
    if k == 0 {
    } else {
      QuietRunIsShort(ss, config, es, k - 1);
      assert es[k - 1] in es;
      StepShrinksWork(ss[k - 1], config, es[k - 1]);
      assert ss[k - 1 + 1] == ss[k];
    }
  }

  /** A state in which only polling is possible has finished every delivery. */
  lemma StuckMeansFinished(s: State, config: Config, id: nat)
    requires Inv(s, config) && (forall e: Event :: Enabled(s, e) ==> e.Poll?)
    ensures id < s.next ==> id in s.finished
  {
    assert !Enabled(s, TakeRetry);
    if s.inFlight != [] {
      assert s.inFlight[0] in s.inFlight;
      assert Enabled(s, Finish(0, Outcome(Failed, false, false)));
    }
    assert Places(s, id) == if id < s.next then 1 else 0;
  }

  lemma QueuedIsCounted(s: State, config: Config, m: Message)
    requires Inv(s, config) && m in s.retryQueue
    ensures m.id in s.calls
  {
  }

  /** With nothing in flight, no work left means an empty queue, and an empty queue means all is finished. */
  lemma IdleMeansFinished(s: State, config: Config)
    requires Inv(s, config) && s.inFlight == []
    ensures Work(config, s) == 0 ==> s.retryQueue == []
    ensures s.retryQueue == [] ==> forall id: nat :: id < s.next ==> id in s.finished
  {
    if s.retryQueue != [] {
      LoadRemove(config, s.retryQueue, 0, 2);
    }
    forall id: nat | id < s.next && s.retryQueue == [] ensures id in s.finished {
      assert Places(s, id) == 1;
    }
  }

  // ----- The subscriber -----

  class KafkaSubscriber {
    const config: Config
    var retryQueue: seq<Message>
    ghost var next: nat
    ghost var inFlight: seq<Message>
    ghost var first: map<nat, nat>
    ghost var calls: map<nat, nat>
    ghost var finished: map<nat, Fate>

    constructor (config: Config)
      ensures this.config == config && View() == START && Valid()
    {
      this.config := config;
      retryQueue := [];
      next, inFlight, first, calls, finished := 0, [], map[], map[], map[];
    }

    ghost function View(): State
      reads this
    {
      State(next, inFlight, retryQueue, first, calls, finished)
    }

    ghost predicate Valid()
      reads this
    {
      Inv(View(), config)
    }

    ghost method Poll(attempt: nat)
      requires Valid()
      modifies this
      ensures Valid() && View() == Step(old(View()), config, Event.Poll(attempt))
    {
      PollKeepsInv(View(), config, attempt);
      inFlight := inFlight + [Message(next, attempt)];
      first, calls, next := first[next := attempt], calls[next := 0], next + 1;
    }

    /** The `k`-th message in flight is processed to the end. */
    method ProcessMessage(ghost k: nat, msg: Message, outcome: Outcome)
      requires Valid() && Enabled(View(), Finish(k, outcome)) && inFlight[k] == msg
      modifies this
      ensures Valid() && View() == Step(old(View()), config, Finish(k, outcome))
      ensures var requeued := outcome.verdict == Failed && msg.attempt < config.maxRetryAttempts;
              && retryQueue == old(retryQueue) + (if requeued then [Message(msg.id, msg.attempt + 1)] else [])
              && finished == if requeued then old(finished) else old(finished)[msg.id :=
                               if outcome.verdict == Accepted then Succeeded
                               else if !config.deadLetterTopic then Dropped
                               else if outcome.published then DeadLettered else LostInPublish]
      ensures msg.id in old(calls) &&
              calls == old(calls)[msg.id := old(calls)[msg.id] + if outcome.called then 1 else 0]
    {
      hide Inv;
      FinishKeepsInv(View(), config, k, outcome);
      inFlight := Remove(inFlight, k);
      calls := calls[msg.id := calls[msg.id] + if outcome.called then 1 else 0];
      match outcome.verdict {
        case Accepted => finished := finished[msg.id := Succeeded];
        case Invalid => HandleInvalidMessage(msg, outcome.published);
        case Failed => HandleProcessingFailure(msg, outcome.published);
      }
    }

    method HandleInvalidMessage(msg: Message, published: bool)
      modifies this`finished
      ensures finished == old(finished)[msg.id :=
                if !config.deadLetterTopic then Dropped else if published then DeadLettered else LostInPublish]
    {
      if config.deadLetterTopic {
        finished := finished[msg.id := if published then DeadLettered else LostInPublish];
      } else {
        finished := finished[msg.id := Dropped];
      }
    }

    method HandleProcessingFailure(msg: Message, published: bool)
      modifies this`retryQueue, this`finished
      ensures if msg.attempt < config.maxRetryAttempts
              then retryQueue == old(retryQueue) + [msg.(attempt := msg.attempt + 1)] && finished == old(finished)
              else retryQueue == old(retryQueue) && finished == old(finished)[msg.id := InvalidFate(config, published)]
    {
      var attempt := msg.attempt;
      if attempt < config.maxRetryAttempts {
        retryQueue := retryQueue + [msg.(attempt := attempt + 1)];
      } else {
        HandleInvalidMessage(msg, published);
      }
    }

    /** One round of the retry task that finds a message waiting. */
    method TakeAndProcess(outcome: Outcome)
      requires Valid() && inFlight == [] && retryQueue != [] && (outcome.verdict.Accepted? ==> outcome.called)
      modifies this
      ensures Valid() && inFlight == [] && next == old(next)
      ensures var oldest := old(retryQueue)[0];
              retryQueue == old(retryQueue)[1..] ||
              retryQueue == old(retryQueue)[1..] + [Message(oldest.id, oldest.attempt + 1)]
      ensures Work(config, View()) + 2 <= Work(config, old(View()))
    {
      hide Inv, Work;
      ghost var s := View();
      var msg := retryQueue[0];
      TakeRetryKeepsInv(s, config);
      StepShrinksWork(s, config, TakeRetry);
      QueuedIsCounted(s, config, msg);
      retryQueue := retryQueue[1..];
      inFlight := [msg];
      assert View() == Step(s, config, TakeRetry);
      StepShrinksWork(View(), config, Finish(0, outcome));
      ProcessMessage(0, msg, outcome);
    }

    /** The retry task: in each of `rounds` rounds it takes the oldest queued message, if there is one, and
        processes it; `outcomes` says how each processing goes.  With nothing else going on, enough rounds
        empty the queue, whatever the outcomes. */
    method HandleRetries(rounds: nat, outcomes: nat -> Outcome)
      requires Valid() && inFlight == []
      requires forall i :: outcomes(i).verdict.Accepted? ==> outcomes(i).called
      modifies this
      ensures Valid() && inFlight == [] && next == old(next)
      ensures 2 * rounds >= Work(config, old(View())) ==>
                retryQueue == [] && forall id: nat :: id < next ==> id in finished
    {
      hide Inv, Work, Step;
      for i := 0 to rounds
        invariant Valid() && inFlight == [] && next == old(next)
        invariant retryQueue == [] || 2 * i + Work(config, View()) <= Work(config, old(View()))
      {
        if retryQueue != [] {
          TakeAndProcess(outcomes(i));
        }
      }
      if 2 * rounds >= Work(config, old(View())) {
        IdleMeansFinished(View(), config);
      }
    }
  }
}
