/**
 * Transactions: status-conditioned lists of follow-up commands bound to one
 * event (src/exchange/transaction.rs).
 */
module Transactions {
  import opened Wrappers
  import opened Events

  /** A wall-clock reading; the clock itself is not part of this model. */
  type Timestamp = nat

  /** The condition a command list waits for; each names the event it was registered against. */
  datatype Trigger =
    | OnEventSuccess(eventId: nat)
    | OnEventError(eventId: nat)
    | OnEventMissedHeartbeat(eventId: nat)
    | OnEventTimeout(eventId: nat)

  /** The status each kind of trigger waits for. */
  function TargetStatus(t: Trigger): (s: EventStatus)
    ensures IsTerminal(s)
  {
    match t
    case OnEventSuccess(_) => Complete
    case OnEventError(_) => Errored
    case OnEventMissedHeartbeat(_) => MissedHeartbeat
    case OnEventTimeout(_) => Timedout
  }

  /**
   * `triggered_by_event_status_change`: an exact match of the trigger's kind
   * with the new status; the event id the trigger carries is not consulted.
   */
  function TriggeredBy(t: Trigger, s: EventStatus): (fires: bool)
    ensures fires <==> s == TargetStatus(t)
    ensures fires ==> IsTerminal(s)
  {
    match (t, s)
    case (OnEventSuccess(_), Complete) => true
    case (OnEventError(_), Errored) => true
    case (OnEventMissedHeartbeat(_), MissedHeartbeat) => true
    case (OnEventTimeout(_), Timedout) => true
    case _ => false
  }

  /**
   * Derived `PartialEq` on `Trigger`: two triggers are equal exactly when they
   * are of the same kind (wait for the same status) and name the same event.
   */
  lemma TriggerEquality(t1: Trigger, t2: Trigger)
    ensures t1 == t2 <==> TargetStatus(t1) == TargetStatus(t2) && t1.eventId == t2.eventId
  {
  }

  /** A command the exchange interprets; every variant names the queue it acts on. */
  datatype Command =
    | AddEvent(queueName: string, event: Event)
    | AddEvents(queueName: string, events: seq<Event>)
    | UpdateEventStatus(queueName: string, eventId: nat, status: EventStatus)

  /** A trigger with the commands to run, in order, when it fires. */
  datatype CommandTrigger = CommandTrigger(trigger: Trigger, commands: seq<Command>)

  /** No two command triggers hold equal triggers. */
  ghost predicate UniqueTriggers(cts: seq<CommandTrigger>)
  {
    forall i, j :: 0 <= i < j < |cts| ==> cts[i].trigger != cts[j].trigger
  }

  /** The triggers in registration order. */
  function Triggers(cts: seq<CommandTrigger>): (ts: seq<Trigger>)
    ensures |ts| == |cts|
    ensures forall i :: 0 <= i < |cts| ==> ts[i] == cts[i].trigger
  {
    if cts == [] then [] else [cts[0].trigger] + Triggers(cts[1..])
  }

  /** The number of commands across all command triggers. */
  function TotalCommands(cts: seq<CommandTrigger>): nat
  {
    if cts == [] then 0 else |cts[0].commands| + TotalCommands(cts[1..])
  }

  /**
   * `add_command_trigger` on the list: the first command trigger holding an
   * equal trigger gets the command appended; when there is none, a new
   * command trigger with the single command goes at the end.
   */
  function WithCommand(cts: seq<CommandTrigger>, t: Trigger, c: Command): (r: seq<CommandTrigger>)
    ensures |r| == |cts| || (|r| == |cts| + 1 && r[|cts|] == CommandTrigger(t, [c]))
  {
    if cts == [] then [CommandTrigger(t, [c])]
    else if cts[0].trigger == t then [cts[0].(commands := cts[0].commands + [c])] + cts[1..]
    else [cts[0]] + WithCommand(cts[1..], t, c)
  }

  /**
   * When `k` is the first command trigger with an equal trigger, only its
   * command list changes, by the command appended at its end; the order of
   * the triggers and every other list stay as they were.
   */
  lemma {:induction false} WithCommandAppendsToMatch(cts: seq<CommandTrigger>, t: Trigger, c: Command, k: nat)
    requires k < |cts| && cts[k].trigger == t
    requires forall j :: 0 <= j < k ==> cts[j].trigger != t
    ensures WithCommand(cts, t, c) == cts[k := CommandTrigger(t, cts[k].commands + [c])]
    decreases k
  {
    if k > 0 {
      WithCommandAppendsToMatch(cts[1..], t, c, k - 1);
      assert cts[1..][k - 1 := CommandTrigger(t, cts[k].commands + [c])]
          == cts[k := CommandTrigger(t, cts[k].commands + [c])][1..];
    }
  }

  /** When no command trigger holds an equal trigger, a new one goes at the end. */
  lemma {:induction false} WithCommandAppendsNew(cts: seq<CommandTrigger>, t: Trigger, c: Command)
    requires forall j :: 0 <= j < |cts| ==> cts[j].trigger != t
    ensures WithCommand(cts, t, c) == cts + [CommandTrigger(t, [c])]
    decreases |cts|
  {
    if cts != [] {
      WithCommandAppendsNew(cts[1..], t, c);
      assert cts == [cts[0]] + cts[1..];
    }
  }

  /** `add_command_trigger` keeps at most one command trigger per trigger. */
  lemma WithCommandKeepsUnique(cts: seq<CommandTrigger>, t: Trigger, c: Command)
    requires UniqueTriggers(cts)
    ensures UniqueTriggers(WithCommand(cts, t, c))
  {
    if k :| 0 <= k < |cts| && cts[k].trigger == t {
      WithCommandAppendsToMatch(cts, t, c, k);
    } else {
      WithCommandAppendsNew(cts, t, c);
    }
  }

  /** `add_command_trigger` keeps the existing triggers in order and adds `t` at the end if it is new. */
  lemma {:induction false} WithCommandKeepsOrder(cts: seq<CommandTrigger>, t: Trigger, c: Command)
    ensures Triggers(WithCommand(cts, t, c)) == if t in Triggers(cts) then Triggers(cts) else Triggers(cts) + [t]
    decreases |cts|
  {
    if cts != [] {
      var r := WithCommand(cts, t, c);
      assert Triggers(cts) == [cts[0].trigger] + Triggers(cts[1..]);
      if cts[0].trigger == t {
        assert r == [cts[0].(commands := cts[0].commands + [c])] + cts[1..];
        assert Triggers(r) == [t] + Triggers(cts[1..]);
      } else {
        var rest := WithCommand(cts[1..], t, c);
        assert r == [cts[0]] + rest;
        assert Triggers(r) == [cts[0].trigger] + Triggers(rest);
        WithCommandKeepsOrder(cts[1..], t, c);
      }
    }
  }

  /** `add_command_trigger` adds exactly one command in all. */
  lemma {:induction false} WithCommandAddsOneCommand(cts: seq<CommandTrigger>, t: Trigger, c: Command)
    ensures TotalCommands(WithCommand(cts, t, c)) == TotalCommands(cts) + 1
    decreases |cts|
  {
    if cts != [] {
      if cts[0].trigger == t {
        var r := WithCommand(cts, t, c);
        assert r[1..] == cts[1..];
      } else {
        WithCommandAddsOneCommand(cts[1..], t, c);
        var r := WithCommand(cts, t, c);
        assert r[1..] == WithCommand(cts[1..], t, c);
      }
    }
  }

  /** Registering two commands under a new trigger makes one command trigger holding both, in order. */
  lemma RegisterTwiceMerges(cts: seq<CommandTrigger>, t: Trigger, c1: Command, c2: Command)
    requires t !in Triggers(cts)
    ensures WithCommand(WithCommand(cts, t, c1), t, c2) == cts + [CommandTrigger(t, [c1, c2])]
  {
    WithCommandAppendsNew(cts, t, c1);
    var once := cts + [CommandTrigger(t, [c1])];
    assert forall j :: 0 <= j < |cts| ==> once[j].trigger == Triggers(cts)[j] != t;
    WithCommandAppendsToMatch(once, t, c2, |cts|);
    assert [c1] + [c2] == [c1, c2];
  }

  class Transaction {
    const id: nat
    var commandTriggers: seq<CommandTrigger>
    var lastHeartbeat: Option<Timestamp>

    ghost predicate Valid()
      reads this
    {
      UniqueTriggers(commandTriggers)
    }

    /** `Transaction::new`: no command triggers and no heartbeat yet. */
    constructor (id: nat)
      ensures this.id == id && commandTriggers == [] && lastHeartbeat == None
      ensures Valid()
    {
      this.id := id;
      commandTriggers := [];
      lastHeartbeat := None;
    }

    /** The search `add_command_trigger` makes: the first command trigger holding an equal trigger. */
    method FindTrigger(trigger: Trigger) returns (index: Option<nat>)
      ensures index.Some? ==> index.value < |commandTriggers| && commandTriggers[index.value].trigger == trigger
      ensures index.Some? ==> forall j :: 0 <= j < index.value ==> commandTriggers[j].trigger != trigger
      ensures index.None? ==> forall j :: 0 <= j < |commandTriggers| ==> commandTriggers[j].trigger != trigger
    {
      var i := 0;
      while i < |commandTriggers|
        invariant 0 <= i <= |commandTriggers|
        invariant forall j :: 0 <= j < i ==> commandTriggers[j].trigger != trigger
      {
        if commandTriggers[i].trigger == trigger {
          return Some(i);
        }
        i := i + 1;
      }
      return None;
    }

    /**
     * `add_command_trigger`: appends the command to the command trigger
     * holding an equal trigger, or adds a new command trigger at the end.
     */
    method AddCommandTrigger(trigger: Trigger, command: Command)
      requires Valid()
      modifies this
      ensures Valid()
      ensures commandTriggers == WithCommand(old(commandTriggers), trigger, command)
      ensures lastHeartbeat == old(lastHeartbeat)
    {
      WithCommandKeepsUnique(commandTriggers, trigger, command);
      var found := FindTrigger(trigger);
      match found
      case Some(k) =>
        WithCommandAppendsToMatch(commandTriggers, trigger, command, k);
        var ct := commandTriggers[k];
        commandTriggers := commandTriggers[k := ct.(commands := ct.commands + [command])];
      case None =>
        WithCommandAppendsNew(commandTriggers, trigger, command);
        commandTriggers := commandTriggers + [CommandTrigger(trigger, [command])];
    }

    /** `update_heartbeat`, with the clock reading passed in. */
    method UpdateHeartbeat(now: Timestamp)
      modifies this
      ensures lastHeartbeat == Some(now)
      ensures commandTriggers == old(commandTriggers)
    {
      lastHeartbeat := Some(now);
    }
  }
}
