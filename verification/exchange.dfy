/**
 * The exchange: queues by name, transactions by event id, a transaction
 * counter, and the interpreter that applies commands and runs the trigger
 * cascade of a status update (src/exchange/exchange.rs).
 *
 * The Rust code wraps its state in a `Mutex` and an `AtomicU64`; here the
 * state is plain fields of one object and the lock-poisoning error is gone.
 */
module Exchanges {
  import opened Wrappers
  import opened Events
  import opened Queues
  import opened Transactions

  datatype ExchangeError =
    | QueueAlreadyExistsForName(name: string)
    | TransactionNotFound(eventId: nat)
    | QueueNotFound(queueName: string)

  /** The `Result<()>` the exchange's operations return. */
  datatype Outcome = Pass | Fail(error: ExchangeError)

  /** The queues' values after a run of commands, and how the run ended. */
  datatype Step = Step(queues: map<string, QueueState>, outcome: Outcome)

  ghost predicate AllValid(qs: map<string, QueueState>)
  {
    forall n :: n in qs ==> qs[n].Valid()
  }

  /** True of a command that `apply_command` rejects against these queues. */
  predicate Rejected(qs: map<string, QueueState>, c: Command)
  {
    c.AddEvent? && c.queueName !in qs
  }

  /**
   * `apply_command` on the queues' values: `AddEvent` adds the event to the
   * named queue, or fails with `QueueNotFound` when there is no such queue;
   * `AddEvents` and `UpdateEventStatus` do nothing.
   */
  function ApplyCommandTo(qs: map<string, QueueState>, c: Command): (r: Step)
    ensures r.queues.Keys == qs.Keys
    ensures r.outcome.Fail? <==> Rejected(qs, c)
    ensures r.outcome.Fail? ==> r.queues == qs && r.outcome.error == QueueNotFound(c.queueName)
    ensures forall n :: n in qs && !(c.AddEvent? && c.queueName == n) ==> r.queues[n] == qs[n]
    ensures c.AddEvent? && c.queueName in qs ==> r.queues[c.queueName] == qs[c.queueName].WithEvent(c.event)
  {
    match c
    case AddEvent(queueName, event) =>
      if queueName !in qs then Step(qs, Fail(QueueNotFound(queueName)))
      else Step(qs[queueName := qs[queueName].WithEvent(event)], Pass)
    case AddEvents(_, _) => Step(qs, Pass)
    case UpdateEventStatus(_, _, _) => Step(qs, Pass)
  }

  /** Commands applied in order; the first failure stops the run and is its outcome. */
  function RunCommands(qs: map<string, QueueState>, cmds: seq<Command>): (r: Step)
    ensures r.queues.Keys == qs.Keys
    decreases |cmds|
  {
    if cmds == [] then Step(qs, Pass)
    else
      var s := ApplyCommandTo(qs, cmds[0]);
      if s.outcome.Fail? then s else RunCommands(s.queues, cmds[1..])
  }

  /**
   * The cascade of `update_event_status`: the command triggers are walked in
   * order; the first one that the new status does not fire ends the cascade
   * with success, and a firing one has its commands applied in order, any
   * failure ending the cascade with that failure.
   */
  function RunCascade(qs: map<string, QueueState>, cts: seq<CommandTrigger>, status: EventStatus): (r: Step)
    ensures r.queues.Keys == qs.Keys
    decreases |cts|
  {
    if cts == [] || !TriggeredBy(cts[0].trigger, status) then Step(qs, Pass)
    else
      var s := RunCommands(qs, cts[0].commands);
      if s.outcome.Fail? then s else RunCascade(s.queues, cts[1..], status)
  }

  /** The rest of a cascade once one command trigger's commands have run to `s`. */
  function Resume(s: Step, rest: seq<CommandTrigger>, status: EventStatus): Step
  {
    if s.outcome.Fail? then s else RunCascade(s.queues, rest, status)
  }

  /**
   * `update_event_status` on the values: the queues and the command triggers
   * pending per event id. An unknown queue fails and changes nothing; otherwise
   * the queue's event is updated, then a missing transaction fails with
   * `TransactionNotFound` (the queue update stays), and a present one is
   * removed and its cascade run.
   */
  function UpdateEventStatusTo(qs: map<string, QueueState>, pending: map<nat, seq<CommandTrigger>>,
                               queueName: string, eventId: nat, status: EventStatus)
    : (r: (Step, map<nat, seq<CommandTrigger>>))
    ensures r.0.queues.Keys == qs.Keys
    ensures r.1.Keys == if queueName in qs then pending.Keys - {eventId} else pending.Keys
  {
    if queueName !in qs then (Step(qs, Fail(QueueNotFound(queueName))), pending)
    else
      var updated := qs[queueName := qs[queueName].UpdateStatus(eventId, status).0];
      if eventId !in pending then (Step(updated, Fail(TransactionNotFound(eventId))), pending)
      else (RunCascade(updated, pending[eventId], status), pending - {eventId})
  }

  /** The commands of the given command triggers, in order. */
  function Flatten(cts: seq<CommandTrigger>): seq<Command>
  {
    if cts == [] then [] else cts[0].commands + Flatten(cts[1..])
  }

  /** The number of leading command triggers that the status fires. */
  function MatchedPrefix(cts: seq<CommandTrigger>, status: EventStatus): (k: nat)
    ensures k <= |cts|
    ensures forall i :: 0 <= i < k ==> TriggeredBy(cts[i].trigger, status)
    ensures k < |cts| ==> !TriggeredBy(cts[k].trigger, status)
    decreases |cts|
  {
    if cts == [] || !TriggeredBy(cts[0].trigger, status) then 0
    else 1 + MatchedPrefix(cts[1..], status)
  }

  /** The number of `AddEvent` commands aimed at queue `n`. */
  function AddsTo(cmds: seq<Command>, n: string): nat
  {
    if cmds == [] then 0
    else (if cmds[0].AddEvent? && cmds[0].queueName == n then 1 else 0) + AddsTo(cmds[1..], n)
  }

  /** Running `a + b` is running `a`, then, unless `a` failed, running `b` from where `a` left off. */
  lemma {:induction false} RunCommandsAppend(qs: map<string, QueueState>, a: seq<Command>, b: seq<Command>)
    ensures RunCommands(qs, a + b)
         == (var s := RunCommands(qs, a); if s.outcome.Fail? then s else RunCommands(s.queues, b))
    decreases |a|
  {
    if a == [] {
      assert a + b == b;
    } else {
      assert (a + b)[0] == a[0];
      assert (a + b)[1..] == a[1..] + b;
      var s := ApplyCommandTo(qs, a[0]);
      if s.outcome.Pass? {
        RunCommandsAppend(s.queues, a[1..], b);
      }
    }
  }

  /**
   * The cascade runs exactly the commands of the leading command triggers the
   * status fires, in order; everything from the first one it does not fire
   * onwards is never looked at.
   */
  lemma {:induction false} CascadeRunsMatchedPrefix(qs: map<string, QueueState>, cts: seq<CommandTrigger>, status: EventStatus)
    ensures RunCascade(qs, cts, status) == RunCommands(qs, Flatten(cts[..MatchedPrefix(cts, status)]))
    decreases |cts|
  {
    var k := MatchedPrefix(cts, status);
    if k > 0 {
      var prefix := cts[..k];
      assert prefix[0] == cts[0];
      assert prefix[1..] == cts[1..][..k - 1];
      assert Flatten(prefix) == cts[0].commands + Flatten(cts[1..][..k - 1]);
      RunCommandsAppend(qs, cts[0].commands, Flatten(cts[1..][..k - 1]));
      var s := RunCommands(qs, cts[0].commands);
      if s.outcome.Pass? {
        CascadeRunsMatchedPrefix(s.queues, cts[1..], status);
      }
    }
  }

  /** Command triggers after one that the status does not fire have no effect, whatever they hold. */
  lemma CascadeStopsAtFirstUnmatched(qs: map<string, QueueState>, before: seq<CommandTrigger>,
                                     ct: CommandTrigger, after: seq<CommandTrigger>, status: EventStatus)
    requires !TriggeredBy(ct.trigger, status)
    ensures RunCascade(qs, before + [ct] + after, status) == RunCascade(qs, before + [ct], status)
  {
    var long, short := before + [ct] + after, before + [ct];
    MatchedPrefixStops(short, |before|, status);
    var k := MatchedPrefix(short, status);
    assert forall i :: 0 <= i <= k ==> long[i] == short[i];
    MatchedPrefixIs(long, k, status);
    CascadeRunsMatchedPrefix(qs, long, status);
    CascadeRunsMatchedPrefix(qs, short, status);
    assert long[..k] == short[..k];
  }

  /** The matched prefix ends no later than a trigger the status does not fire. */
  lemma MatchedPrefixStops(cts: seq<CommandTrigger>, j: nat, status: EventStatus)
    requires j < |cts| && !TriggeredBy(cts[j].trigger, status)
    ensures MatchedPrefix(cts, status) <= j
  {
  }

  /** The matched prefix is `k` when the first `k` triggers fire and the one at `k` does not. */
  lemma MatchedPrefixIs(cts: seq<CommandTrigger>, k: nat, status: EventStatus)
    requires k < |cts| && !TriggeredBy(cts[k].trigger, status)
    requires forall i :: 0 <= i < k ==> TriggeredBy(cts[i].trigger, status)
    ensures MatchedPrefix(cts, status) == k
  {
    MatchedPrefixStops(cts, k, status);
  }

  /** A run of commands succeeds exactly when no `AddEvent` among them names a missing queue. */
  lemma {:induction false} RunCommandsSucceedsIff(qs: map<string, QueueState>, cmds: seq<Command>)
    ensures RunCommands(qs, cmds).outcome.Pass? <==> forall i :: 0 <= i < |cmds| ==> !Rejected(qs, cmds[i])
    decreases |cmds|
  {
    if cmds != [] {
      var s := ApplyCommandTo(qs, cmds[0]);
      if s.outcome.Pass? {
        RunCommandsSucceedsIff(s.queues, cmds[1..]);
        assert forall i :: 0 < i < |cmds| ==> cmds[i] == cmds[1..][i - 1];
        assert forall c :: Rejected(qs, c) == Rejected(s.queues, c);
      }
    }
  }

  /**
   * When command `i` is the first `AddEvent` naming a missing queue, the run
   * fails with `QueueNotFound` for that queue, and the commands before it stay
   * applied while those after it are never run.
   */
  lemma RunCommandsFailsAtFirstRejected(qs: map<string, QueueState>, cmds: seq<Command>, i: nat)
    requires i < |cmds| && Rejected(qs, cmds[i])
    requires forall j :: 0 <= j < i ==> !Rejected(qs, cmds[j])
    ensures RunCommands(qs, cmds) == Step(RunCommands(qs, cmds[..i]).queues, Fail(QueueNotFound(cmds[i].queueName)))
  {
    assert cmds == cmds[..i] + cmds[i..];
    RunCommandsAppend(qs, cmds[..i], cmds[i..]);
    RunCommandsSucceedsIff(qs, cmds[..i]);
  }

  /** Each queue of `qs2` extends the queue of the same name in `qs`. */
  ghost predicate AllExtend(qs: map<string, QueueState>, qs2: map<string, QueueState>)
  {
    qs.Keys == qs2.Keys && forall n :: n in qs ==> qs[n].ExtendedBy(qs2[n])
  }

  /**
   * A run of commands keeps every queue valid, keeps every stored event under
   * its id and only adds events under ids not handed out before.
   */
  lemma {:induction false} RunCommandsExtendsQueues(qs: map<string, QueueState>, cmds: seq<Command>)
    requires AllValid(qs)
    ensures AllValid(RunCommands(qs, cmds).queues) && AllExtend(qs, RunCommands(qs, cmds).queues)
    decreases |cmds|
  {
    var r := RunCommands(qs, cmds);
    if cmds == [] {
      forall n | n in qs ensures qs[n].ExtendedBy(r.queues[n]) {
        ExtendedByReflexive(qs[n]);
      }
    } else {
      var s := ApplyCommandTo(qs, cmds[0]);
      if s.outcome.Fail? {
        forall n | n in qs ensures qs[n].ExtendedBy(r.queues[n]) {
          ExtendedByReflexive(qs[n]);
        }
      } else {
        forall n | n in qs ensures qs[n].ExtendedBy(s.queues[n]) {
          if cmds[0].AddEvent? && cmds[0].queueName == n {
            WithEventExtends(qs[n], cmds[0].event);
          } else {
            ExtendedByReflexive(qs[n]);
          }
        }
        RunCommandsExtendsQueues(s.queues, cmds[1..]);
        forall n | n in qs ensures qs[n].ExtendedBy(r.queues[n]) {
          ExtendedByTransitive(qs[n], s.queues[n], r.queues[n]);
        }
      }
    }
  }

  /** A successful run advances each queue's counter by the number of `AddEvent` commands aimed at it. */
  lemma {:induction false} RunCommandsCountsIds(qs: map<string, QueueState>, cmds: seq<Command>, n: string)
    requires n in qs && RunCommands(qs, cmds).outcome.Pass?
    ensures RunCommands(qs, cmds).queues[n].eventIdx == qs[n].eventIdx + AddsTo(cmds, n)
    decreases |cmds|
  {
    if cmds != [] {
      var s := ApplyCommandTo(qs, cmds[0]);
      RunCommandsCountsIds(s.queues, cmds[1..], n);
    }
  }

  /** The cascade keeps every queue valid, every stored event in place, and only uses fresh ids. */
  lemma CascadeExtendsQueues(qs: map<string, QueueState>, cts: seq<CommandTrigger>, status: EventStatus)
    requires AllValid(qs)
    ensures AllValid(RunCascade(qs, cts, status).queues) && AllExtend(qs, RunCascade(qs, cts, status).queues)
  {
    CascadeRunsMatchedPrefix(qs, cts, status);
    RunCommandsExtendsQueues(qs, Flatten(cts[..MatchedPrefix(cts, status)]));
  }

  /**
   * A terminal status update of an event that is in its queue takes it out of
   * that queue for good: the cascade that may follow never re-adds its id.
   */
  lemma TerminalUpdateRemovesEvent(qs: map<string, QueueState>, pending: map<nat, seq<CommandTrigger>>,
                                   queueName: string, eventId: nat, status: EventStatus)
    requires AllValid(qs) && IsTerminal(status)
    requires queueName in qs && eventId in qs[queueName].events
    ensures var r := UpdateEventStatusTo(qs, pending, queueName, eventId, status);
      eventId !in r.0.queues[queueName].events && AllValid(r.0.queues)
  {
    var updated := qs[queueName := qs[queueName].UpdateStatus(eventId, status).0];
    assert AllValid(updated);
    if eventId in pending {
      CascadeExtendsQueues(updated, pending[eventId], status);
    }
  }

  /**
   * An `OnEventSuccess` trigger holding one `AddEvent` makes the update of its
   * event to `Complete` add that event to the target queue, under the id the
   * target queue hands out next, before the update reports success; the
   * transaction is used up.
   */
  lemma CascadeAddsTriggeredEvent(qs: map<string, QueueState>, pending: map<nat, seq<CommandTrigger>>,
                                  queueName: string, eventId: nat, target: string, e: Event)
    requires queueName in qs && target in qs
    requires eventId in pending && pending[eventId] == [CommandTrigger(OnEventSuccess(eventId), [AddEvent(target, e)])]
    ensures var r := UpdateEventStatusTo(qs, pending, queueName, eventId, Complete);
      && r.0.outcome == Pass
      && eventId !in r.1
      && qs[target].eventIdx in r.0.queues[target].events
      && r.0.queues[target].events[qs[target].eventIdx] == e
  {
    var updated := qs[queueName := qs[queueName].UpdateStatus(eventId, Complete).0];
    var cts := pending[eventId];
    assert updated[target].eventIdx == qs[target].eventIdx;
    FiledTransactionRunsCascade(qs, pending, queueName, eventId, Complete);
    var s := ApplyCommandTo(updated, AddEvent(target, e));
    assert s.queues[target] == updated[target].WithEvent(e);
    assert RunCommands(updated, cts[0].commands) == RunCommands(s.queues, []);
    assert RunCascade(updated, cts, Complete) == RunCascade(s.queues, [], Complete);
  }

  /**
   * When the queue is found but no transaction is filed under the event id,
   * the update fails with `TransactionNotFound`; the named queue keeps the
   * status update, every other queue and the pending triggers are unchanged.
   */
  lemma MissingTransactionFails(qs: map<string, QueueState>, pending: map<nat, seq<CommandTrigger>>,
                                queueName: string, eventId: nat, status: EventStatus)
    requires queueName in qs && eventId !in pending
    ensures var r := UpdateEventStatusTo(qs, pending, queueName, eventId, status);
      && r.0.outcome == Fail(TransactionNotFound(eventId))
      && r.0.queues[queueName] == qs[queueName].UpdateStatus(eventId, status).0
      && (forall n :: n in qs && n != queueName ==> r.0.queues[n] == qs[n])
      && r.1 == pending
  {
  }

  /**
   * When the queue is found and a transaction is filed under the event id,
   * the transaction is used up and the update's queues and outcome are those
   * of its cascade, run from the queues with the status update applied.
   */
  lemma FiledTransactionRunsCascade(qs: map<string, QueueState>, pending: map<nat, seq<CommandTrigger>>,
                                    queueName: string, eventId: nat, status: EventStatus)
    requires queueName in qs && eventId in pending
    ensures var updated := qs[queueName := qs[queueName].UpdateStatus(eventId, status).0];
      UpdateEventStatusTo(qs, pending, queueName, eventId, status)
        == (RunCascade(updated, pending[eventId], status), pending - {eventId})
  {
  }

  /**
   * When the queue is found and a transaction is filed under the event id,
   * the update runs, in order, exactly the commands of the transaction's
   * leading command triggers that the new status fires, starting from the
   * queues with the status update applied; the transaction is used up.
   */
  lemma FiledTransactionRunsFiredPrefix(qs: map<string, QueueState>, pending: map<nat, seq<CommandTrigger>>,
                                        queueName: string, eventId: nat, status: EventStatus)
    requires queueName in qs && eventId in pending
    ensures var updated := qs[queueName := qs[queueName].UpdateStatus(eventId, status).0];
      var cts := pending[eventId];
      UpdateEventStatusTo(qs, pending, queueName, eventId, status)
        == (RunCommands(updated, Flatten(cts[..MatchedPrefix(cts, status)])), pending - {eventId})
  {
    var updated := qs[queueName := qs[queueName].UpdateStatus(eventId, status).0];
    FiledTransactionRunsCascade(qs, pending, queueName, eventId, status);
    CascadeRunsMatchedPrefix(updated, pending[eventId], status);
  }

  /** A status update that names no queue fails with `QueueNotFound` and changes nothing. */
  lemma UnknownQueueChangesNothing(qs: map<string, QueueState>, pending: map<nat, seq<CommandTrigger>>,
                                   queueName: string, eventId: nat, status: EventStatus)
    requires queueName !in qs
    ensures UpdateEventStatusTo(qs, pending, queueName, eventId, status)
         == (Step(qs, Fail(QueueNotFound(queueName))), pending)
  {
  }

  class Exchange {
    var queues: map<string, Queue>
    /** Indexed by event id. */
    var transactions: map<nat, Transaction>
    var transactionIdx: nat

    ghost function QueueObjects(): set<Queue>
      reads this
    {
      set n | n in queues :: queues[n]
    }

    /** The queues' values by name. */
    ghost function QueueStates(): map<string, QueueState>
      reads this, QueueObjects()
    {
      map n | n in queues :: queues[n].State()
    }

    /** The command triggers pending per event id. */
    ghost function Pending(): map<nat, seq<CommandTrigger>>
      reads this, set e | e in transactions :: transactions[e]
    {
      map e | e in transactions :: transactions[e].commandTriggers
    }

    /**
     * Each queue is filed under its own name (so no queue object is filed
     * twice) and is valid, and every transaction id was handed out before.
     */
    ghost predicate Valid()
      reads this, QueueObjects()
    {
      && (forall n :: n in queues ==> queues[n].name == n && queues[n].Valid())
      && (forall e :: e in transactions ==> transactions[e].id < transactionIdx)
    }

    /** `Exchange::new`: no queues, no transactions, counter 0. */
    constructor ()
      ensures Valid()
      ensures queues == map[] && transactions == map[] && transactionIdx == 0
    {
      queues := map[];
      transactions := map[];
      transactionIdx := 0;
    }

    /** `add_queue`: a duplicate name fails and changes nothing; a fresh one is added and nothing else changes. */
    method AddQueue(queue: Queue) returns (r: Outcome)
      requires Valid() && queue.Valid()
      modifies this
      ensures Valid()
      ensures transactions == old(transactions) && transactionIdx == old(transactionIdx)
      ensures old(queue.name in queues) ==> r == Fail(QueueAlreadyExistsForName(queue.name)) && queues == old(queues)
      ensures old(queue.name !in queues) ==>
        && r == Pass
        && queues == old(queues)[queue.name := queue]
        && QueueStates() == old(QueueStates())[queue.name := queue.State()]
    {
      if queue.Name() in queues {
        return Fail(QueueAlreadyExistsForName(queue.Name()));
      }
      queues := queues[queue.Name() := queue];
      r := Pass;
    }

    /**
     * `create_transaction`: hands out the counter's value, bumps the counter,
     * and files a new transaction with no command triggers under the event id,
     * replacing any earlier one there.
     */
    method CreateTransaction(eventId: nat) returns (id: nat)
      requires Valid()
      modifies this
      ensures Valid()
      ensures id == old(transactionIdx) && transactionIdx == id + 1
      ensures forall e :: e in old(transactions) ==> old(transactions)[e].id < id
      ensures queues == old(queues)
      ensures transactions.Keys == old(transactions).Keys + {eventId}
      ensures fresh(transactions[eventId]) && transactions[eventId].id == id
      ensures transactions[eventId].lastHeartbeat.None?
      ensures forall e :: e in old(transactions) && e != eventId ==> transactions[e] == old(transactions)[e]
      ensures Pending() == old(Pending())[eventId := []]
    {
      id := transactionIdx;
      transactionIdx := transactionIdx + 1;
      var transaction := new Transaction(id);
      transactions := transactions[eventId := transaction];
    }

    /** `apply_command`, specified by `ApplyCommandTo` on the queues' values. */
    method ApplyCommand(command: Command) returns (r: Outcome)
      requires Valid()
      modifies QueueObjects()
      ensures Valid()
      ensures Step(QueueStates(), r) == ApplyCommandTo(old(QueueStates()), command)
    {
      match command
      case AddEvent(queueName, event) =>
        if queueName !in queues {
          return Fail(QueueNotFound(queueName));
        }
        var queue := queues[queueName];
        var _ := queue.AddEvent(event);
        r := Pass;
      case AddEvents(_, _) =>
        r := Pass;
      case UpdateEventStatus(_, _, _) =>
        r := Pass;
    }

    /**
     * `update_event_status`, specified by `UpdateEventStatusTo` on the
     * queues' values and the pending command triggers.
     */
    method UpdateEventStatus(queueName: string, eventId: nat, status: EventStatus) returns (r: Outcome)
      requires Valid()
      modifies this, QueueObjects()
      ensures Valid()
      ensures queues == old(queues) && transactionIdx == old(transactionIdx)
      ensures transactions == if queueName in old(queues) then old(transactions) - {eventId} else old(transactions)
      ensures var expected := UpdateEventStatusTo(old(QueueStates()), old(Pending()), queueName, eventId, status);
        QueueStates() == expected.0.queues && r == expected.0.outcome && Pending() == expected.1
    {
      ghost var queues0, pending0 := QueueStates(), Pending();
      assert queues0.Keys == queues.Keys;
      if queueName !in queues {
        return Fail(QueueNotFound(queueName));
      }
      r := UpdateFoundEventStatus(queueName, eventId, status);
      if eventId in pending0 {
        FiledTransactionRunsCascade(queues0, pending0, queueName, eventId, status);
      }
    }

    /**
     * `update_event_status` once the queue is found: the queue updates the
     * event, then the event's transaction is taken out and its cascade run,
     * or, when there is none, the update fails with `TransactionNotFound`.
     */
    method UpdateFoundEventStatus(queueName: string, eventId: nat, status: EventStatus) returns (r: Outcome)
      requires Valid() && queueName in queues
      modifies this, QueueObjects()
      ensures Valid()
      ensures queues == old(queues) && transactionIdx == old(transactionIdx)
      ensures transactions == old(transactions) - {eventId}
      ensures Pending() == old(Pending()) - {eventId}
      ensures var updated := old(QueueStates())[queueName := old(QueueStates())[queueName].UpdateStatus(eventId, status).0];
        if eventId in old(Pending()) then Step(QueueStates(), r) == RunCascade(updated, old(Pending())[eventId], status)
        else QueueStates() == updated && r == Fail(TransactionNotFound(eventId))
    {
      ghost var pending0 := Pending();
      UpdateQueueEventStatus(queueName, eventId, status);
      var removed := RemoveTransaction(eventId);
      match removed
      case None =>
        r := Fail(TransactionNotFound(eventId));
      case Some(transaction) =>
        r := RunTriggers(transaction.commandTriggers, status);
    }

    /** `transactions.remove(event_id)`: takes the event's transaction out of the map, if there is one. */
    method RemoveTransaction(eventId: nat) returns (removed: Option<Transaction>)
      requires Valid()
      modifies this
      ensures Valid()
      ensures queues == old(queues) && transactionIdx == old(transactionIdx)
      ensures transactions == old(transactions) - {eventId}
      ensures removed == if eventId in old(transactions) then Some(old(transactions)[eventId]) else None
      ensures removed.Some? ==> removed.value.commandTriggers == old(Pending())[eventId]
      ensures QueueStates() == old(QueueStates()) && Pending() == old(Pending()) - {eventId}
    {
      removed := None;
      if eventId in transactions {
        removed := Some(transactions[eventId]);
        transactions := transactions - {eventId};
      }
    }

    /** The queue step of `update_event_status`: the named queue updates the event's status. */
    method UpdateQueueEventStatus(queueName: string, eventId: nat, status: EventStatus)
      requires Valid() && queueName in queues
      modifies QueueObjects()
      ensures Valid() && Pending() == old(Pending())
      ensures QueueStates() == old(QueueStates())[queueName := old(QueueStates())[queueName].UpdateStatus(eventId, status).0]
    {
      var queue := queues[queueName];
      var _ := queue.UpdateEventStatus(eventId, status);
      forall n | n in queues && n != queueName ensures queues[n] != queue {
        assert queues[n].name == n;
      }
    }

    /**
     * The cascade loop of `update_event_status`: walks the command triggers
     * in order and applies each firing one's commands in order.
     */
    method RunTriggers(triggers: seq<CommandTrigger>, status: EventStatus) returns (r: Outcome)
      requires Valid()
      modifies QueueObjects()
      ensures Valid() && Pending() == old(Pending())
      ensures Step(QueueStates(), r) == RunCascade(old(QueueStates()), triggers, status)
    {
      for i := 0 to |triggers|
        invariant Valid() && Pending() == old(Pending())
        invariant RunCascade(old(QueueStates()), triggers, status) == RunCascade(QueueStates(), triggers[i..], status)
      {
        var commandTrigger := triggers[i];
        if !TriggeredBy(commandTrigger.trigger, status) {
          return Pass;
        }
        assert triggers[i..][1..] == triggers[i + 1..];
        var commands := commandTrigger.commands;
        for j := 0 to |commands|
          invariant Valid() && Pending() == old(Pending())
          invariant RunCascade(old(QueueStates()), triggers, status)
                 == Resume(RunCommands(QueueStates(), commands[j..]), triggers[i + 1..], status)
        {
          assert commands[j..][1..] == commands[j + 1..];
          r := ApplyCommand(commands[j]);
          if r.Fail? {
            return;
          }
        }
      }
      r := Pass;
    }
  }
}
