# Orkidea exchange engine — a Dafny model

This project models the exchange engine of Orkidea (`src/exchange/`). Orkidea is a small in-memory broker. It owns named **queues** of **events**, and each event has a lifecycle **status**. A **transaction** may be filed under an event id. A transaction holds **command triggers**: each one is a **trigger** (a condition on the status) with a list of **commands**. When an event's status is updated, the exchange removes that event's transaction and runs the **cascade**: it walks the command triggers in order and applies the commands of each leading one that fires, stopping at the first that does not.

One module per source file:

| file | module | form |
|---|---|---|
| `event.dfy` | `Events` | datatypes and record-update functions (`Attribute`, `EventStatus`, `Event`) |
| `queue.dfy` | `Queues` | the class `Queue` (fields `name`, `events`, `eventIdx`), specified by the value `QueueState` |
| `transaction.dfy` | `Transactions` | the class `Transaction` (fields `id`, `commandTriggers`, `lastHeartbeat`) and the datatypes `Trigger`, `Command`, `CommandTrigger` |
| `exchange.dfy` | `Exchanges` | the class `Exchange` (fields `queues`, `transactions`, `transactionIdx`) and the interpreter's specification functions |
| `wrappers.dfy` | `Wrappers` | `Option` |

How the model is built:

- **Specification and implementation.** These mutating methods are proved against a function on values:
  - `Queue.AddEvent` against `QueueState.WithEvent`;
  - `Queue.UpdateEventStatus` against `QueueState.UpdateStatus`;
  - `Transaction.AddCommandTrigger` against `WithCommand`;
  - `Exchange.ApplyCommand` against `ApplyCommandTo`;
  - the nested cascade loops against `RunCascade`;
  - `Exchange.UpdateEventStatus` against `UpdateEventStatusTo`.

  The lemmas about the engine's behaviour are proved about these functions. The other mutating methods (`Exchange.AddQueue`, `Exchange.CreateTransaction`, `Exchange.RemoveTransaction`, `Transaction.UpdateHeartbeat` and the constructors) state their new state directly in terms of the old one.
- **Events are values.** `Event` derives `Clone`. It is moved into its queue's map and cloned into commands, so no event is ever shared. `set_id` and `set_status` overwrite a field of a value only one place owns. They are modelled as functions that return the updated record. `Attribute::new` is the `Attribute` datatype constructor.
- **Queue names.** A queue's name is a `const`, so no operation can change it. `name()` is `Queue.Name`. `Exchange.Valid` files each queue under its own name. So no queue object is filed twice, and updating one queue leaves the others unchanged.

Four operations are called in `exchange.rs` but not defined in the other files. They are modelled as follows:

- `Queue::update_event_status` is `Queue.UpdateEventStatus`:
  - an unknown id is not an error and changes nothing;
  - a terminal status (`Complete`, `Errored`, `MissedHeartbeat`, `Timedout`) removes the event and returns it with the new status;
  - `Queued` or `Running` sets the status in place.
- `triggered_by_event_status_change` is `TriggeredBy`. It matches the trigger's kind exactly against the status and ignores the event id the trigger carries: `OnEventSuccess`/`Complete`, `OnEventError`/`Errored`, `OnEventMissedHeartbeat`/`MissedHeartbeat`, `OnEventTimeout`/`Timedout`.
- `get_command_triggers` and `get_commands` are plain reads of the fields.

Three parts of the code conflict or do not compile. The model resolves them this way:

- `Command` takes the shape that `exchange.rs:107-123` matches on, with a queue name on every variant. The declaration at `transaction.rs:55-62` has no queue name.
- `Transaction::new` takes only the id, as declared at `transaction.rs:13`. It builds an empty trigger list with no heartbeat. The event id passed at `exchange.rs:56` has no field to go into: it is the map key.
- `Queue::add_event` mutates its queue, so it is a method that `modifies` the queue.

Behaviour of the code worth noting:

- `add_event` stores the event as given and never calls `set_id`, so the event keeps the caller's id, which may differ from the id `add_event` returns.
- `update_event_status` first updates the event in its queue, whatever the new status. A missing transaction is then an error (`TransactionNotFound`, `exchange.rs:89`), and the queue update is not undone. `MissingTransactionFails` states this.
- The cascade runs whenever a transaction is filed, whether or not the event existed or was removed.
- The cascade stops, with success, at the first command trigger the new status does not fire. Command triggers after it are never evaluated, even ones that would fire. `CascadeRunsMatchedPrefix` and `CascadeStopsAtFirstUnmatched` pin down this behaviour.
- `apply_command` handles only `AddEvent`. `AddEvents` and `UpdateEventStatus` do nothing and succeed. The code's `Command` has no `AddQueue` or `CreateTransaction` variant.
- The code never registers command triggers on the transactions the exchange creates. The model states the cascade for any command triggers a transaction may hold.

## Model

| member | source | states |
|---|---|---|
| `Events.IsTerminal` | src/exchange/exchange.rs:74-77 | a status is terminal exactly when it is `Complete`, `Errored`, `MissedHeartbeat` or `Timedout`; only these take an event out of its queue |
| `Events.NewEvent` | src/exchange/event.rs:32-39 | a new event is always `Queued` (not terminal) and keeps the given id, data and attributes |
| `Events.Event.SetId` | src/exchange/event.rs:41-43 | only the id changes; data, attributes and status are unchanged |
| `Events.Event.SetStatus` | src/exchange/event.rs:45-47 | the status reads back as the value set; id, data and attributes are unchanged |
| `Events.SetStatusIdempotent` | src/exchange/event.rs:45-47 | setting the same status twice equals setting it once |
| `Queues.QueueState.WithEvent` | src/exchange/queue.rs:26-31 | the counter grows by one; the event is stored under the old counter; every other entry is kept; a valid queue stays valid and grows by exactly one entry (nothing is overwritten) |
| `Queues.QueueState.UpdateStatus` | src/exchange/exchange.rs:74-77 | unknown id: nothing changes; terminal status: exactly that id is removed and the event is returned with the new status; otherwise the status is set in place and nothing is returned; the counter and the other entries are unchanged; validity is kept |
| `Queues.WithEventExtends` | src/exchange/queue.rs:26-31 | adding an event keeps every stored event and only uses an id not handed out before |
| `Queues.AddInOrderIds` | src/exchange/queue.rs:26-31 | successive `add_event` calls return consecutive ids starting at the counter; none was in use; each event stays stored under its id; the counter ends `n` higher |
| `Queues.NewQueueIdsFromZero` | src/exchange/queue.rs:14-31 | on a new queue, successive `add_event` calls return 0, 1, 2, … |
| `Queues.TerminalUpdateIsFinal` | src/exchange/exchange.rs:74-77 | after a terminal update the event is gone, and any further update of that id changes nothing |
| `Queues.Queue.constructor` | src/exchange/queue.rs:14-20 | a new queue has the given name, no events and counter 0 |
| `Queues.Queue.Name` | src/exchange/queue.rs:22-24 | returns the name the queue was built with; the name is a constant, so it is the same for the queue's whole life |
| `Queues.Queue.AddEvent` | src/exchange/queue.rs:26-31 | returns the counter's old value, which no stored event uses; increments the counter by one; stores the event under the returned id and leaves every other entry unchanged |
| `Queues.Queue.UpdateEventStatus` | src/exchange/exchange.rs:74-77 | the queue's new value and the removed event are those of `QueueState.UpdateStatus`; the queue stays valid |
| `Transactions.TargetStatus` | src/exchange/transaction.rs:46-52 | each kind of trigger waits for a terminal status |
| `Transactions.TriggeredBy` | src/exchange/exchange.rs:93 | a trigger fires exactly when the status is its kind's target status, and only on terminal statuses |
| `Transactions.TriggerEquality` | src/exchange/transaction.rs:46-52 | two triggers are equal exactly when they are of the same kind and carry the same event id |
| `Transactions.WithCommand` | src/exchange/transaction.rs:21-33 | registering a command either keeps the number of command triggers, or adds exactly one, at the end, holding just the new trigger and command; the lemmas below give the rest |
| `Transactions.WithCommandAppendsToMatch` | src/exchange/transaction.rs:22-25 | when a command trigger holds an equal trigger, the command is appended to the end of the first such list; nothing else changes |
| `Transactions.WithCommandAppendsNew` | src/exchange/transaction.rs:26-31 | when no command trigger holds an equal trigger, a new one with the single command is appended at the end |
| `Transactions.WithCommandKeepsUnique` | src/exchange/transaction.rs:21-33 | the invariant "no two command triggers hold equal triggers" is preserved |
| `Transactions.WithCommandKeepsOrder` | src/exchange/transaction.rs:21-33 | the existing triggers keep their order, and the new trigger comes last if it was not there |
| `Transactions.WithCommandAddsOneCommand` | src/exchange/transaction.rs:21-33 | the total number of commands grows by exactly one |
| `Transactions.RegisterTwiceMerges` | src/exchange/transaction.rs:21-33 | two registrations under one new trigger give one command trigger holding both commands, in order |
| `Transactions.Transaction.constructor` | src/exchange/transaction.rs:13-19 | a new transaction keeps its id and has no command triggers and no heartbeat |
| `Transactions.Transaction.FindTrigger` | src/exchange/transaction.rs:22 | returns the first index holding an equal trigger, or none when no index does |
| `Transactions.Transaction.AddCommandTrigger` | src/exchange/transaction.rs:21-33 | the new list is `WithCommand` of the old one; the unique-trigger invariant is kept; the id and the heartbeat are unchanged |
| `Transactions.Transaction.UpdateHeartbeat` | src/exchange/transaction.rs:35-37 | records the given time; the command triggers are unchanged |
| `Exchanges.ApplyCommandTo` | src/exchange/exchange.rs:105-127 | `AddEvent` fails with `QueueNotFound`, changing nothing, exactly when its queue is missing; otherwise it adds the event to that queue only; `AddEvents` and `UpdateEventStatus` change nothing and succeed; the set of queue names never changes |
| `Exchanges.RunCommands` | src/exchange/exchange.rs:97-99 | applying commands in order never adds or drops a queue |
| `Exchanges.RunCascade` | src/exchange/exchange.rs:92-100 | the cascade never adds or drops a queue |
| `Exchanges.UpdateEventStatusTo` | src/exchange/exchange.rs:61-103 | the set of queue names is unchanged; when the queue exists, the event's transaction is used up, and otherwise the pending transactions are unchanged; each branch is stated in full by `UnknownQueueChangesNothing`, `MissingTransactionFails` and `FiledTransactionRunsCascade` |
| `Exchanges.MatchedPrefix` | src/exchange/exchange.rs:92-96 | counts the leading command triggers the status fires: all before it fire, and the one at it does not |
| `Exchanges.RunCommandsAppend` | src/exchange/exchange.rs:97-99 | running `a + b` is running `a`, then `b` from where `a` ended unless `a` failed |
| `Exchanges.CascadeRunsMatchedPrefix` | src/exchange/exchange.rs:92-100 | the cascade equals running, in order, exactly the commands of the leading command triggers that fire |
| `Exchanges.CascadeStopsAtFirstUnmatched` | src/exchange/exchange.rs:92-95 | command triggers after the first one that does not fire have no effect, whatever they hold |
| `Exchanges.RunCommandsSucceedsIff` | src/exchange/exchange.rs:97-99 | a run of commands succeeds exactly when no `AddEvent` in it names a missing queue |
| `Exchanges.RunCommandsFailsAtFirstRejected` | src/exchange/exchange.rs:97-99 | an error aborts the run: it fails with `QueueNotFound` for the first bad `AddEvent`; the commands before it stay applied and those after it never run |
| `Exchanges.RunCommandsExtendsQueues` | src/exchange/exchange.rs:105-117 | commands keep every queue valid, keep every stored event under its id, and add events only under fresh ids |
| `Exchanges.RunCommandsCountsIds` | src/exchange/exchange.rs:105-117 | a successful run advances each queue's counter by the number of `AddEvent` commands aimed at it |
| `Exchanges.CascadeExtendsQueues` | src/exchange/exchange.rs:92-100 | the cascade keeps every queue valid, keeps every stored event, and uses only fresh ids |
| `Exchanges.TerminalUpdateRemovesEvent` | src/exchange/exchange.rs:74-100 | after a terminal update of an event in its queue, that event is gone from the queue; no cascade brings its id back |
| `Exchanges.CascadeAddsTriggeredEvent` | src/exchange/exchange.rs:81-100 | an `OnEventSuccess` trigger with one `AddEvent` makes the update to `Complete` succeed, adds the event to the target queue under that queue's next id, and uses up the transaction |
| `Exchanges.UnknownQueueChangesNothing` | src/exchange/exchange.rs:68-72 | a status update naming an unknown queue fails with `QueueNotFound` and changes neither queues nor transactions |
| `Exchanges.MissingTransactionFails` | src/exchange/exchange.rs:74-90 | when the queue is found but no transaction is filed under the event id, the update fails with `TransactionNotFound`; the named queue keeps the status update, the other queues and the pending transactions are unchanged |
| `Exchanges.FiledTransactionRunsCascade` | src/exchange/exchange.rs:74-100 | when the queue is found and a transaction is filed, the transaction is used up and the queues and outcome are those of its cascade, run from the queues with the status update applied |
| `Exchanges.FiledTransactionRunsFiredPrefix` | src/exchange/exchange.rs:74-100 | in that case the update runs, in order, exactly the commands of the transaction's leading command triggers that the status fires, from the queues with the status update applied |
| `Exchanges.MatchedPrefixIs` | src/exchange/exchange.rs:92-95 | when the first `k` command triggers fire and the one at `k` does not, the cascade's matched prefix is exactly `k` |
| `Exchanges.Exchange.constructor` | src/exchange/exchange.rs:32-38 | a new exchange has no queues, no transactions and counter 0 |
| `Exchanges.Exchange.AddQueue` | src/exchange/exchange.rs:40-47 | a duplicate name fails with `QueueAlreadyExistsForName` and leaves the queues unchanged; a fresh name adds exactly that key and leaves every other queue unchanged |
| `Exchanges.Exchange.CreateTransaction` | src/exchange/exchange.rs:49-59 | returns the counter's old value, which differs from every live transaction's id; increments the counter by one; files a new, empty transaction under the event id, replacing any earlier one; other entries are unchanged |
| `Exchanges.Exchange.ApplyCommand` | src/exchange/exchange.rs:105-127 | the queues' new values and the outcome are those of `ApplyCommandTo` |
| `Exchanges.Exchange.UpdateEventStatus` | src/exchange/exchange.rs:61-103 | the queues' new values, the outcome and the pending command triggers are those of `UpdateEventStatusTo`; the event's transaction is removed once its queue is found |
| `Exchanges.Exchange.UpdateFoundEventStatus` | src/exchange/exchange.rs:74-103 | once the queue is found: the transaction is removed; with a transaction, the queues and outcome are those of `RunCascade` from the updated queues; without one, the queues are the updated ones and the outcome is `TransactionNotFound` |
| `Exchanges.Exchange.UpdateQueueEventStatus` | src/exchange/exchange.rs:68-77 | only the named queue changes, as `QueueState.UpdateStatus` says |
| `Exchanges.Exchange.RemoveTransaction` | src/exchange/exchange.rs:81-90 | removes and returns the transaction filed under the event id, if any; the queues are unchanged |
| `Exchanges.Exchange.RunTriggers` | src/exchange/exchange.rs:92-100 | the nested loops over command triggers and their commands produce exactly `RunCascade`'s queues and outcome |

## Left out

- `Mutex`, `AtomicU64` and `ExchangeError::LockError`: the engine is modelled as sequential state, and lock poisoning cannot happen in it.
- Integer width: ids and counters are unbounded `nat`s. The wrap of the `u64` counters after 2^64 allocations is not modelled.
- Event payload: `data` bytes and `attributes` are carried along unchanged. No logic reads them.
- Heartbeat clock: `update_heartbeat` reads the wall clock through `chrono`. `Transaction.UpdateHeartbeat` takes the time as a parameter.
- The gRPC server (`src/rpc/server/exchange.rs`), the client (`src/bin/client.rs`), the worker runtime (`src/worker/worker.rs`), the entry point (`src/bin/main.rs`) and the protobuf build script (`build.rs`) are not part of this model. They are network, runtime and logging plumbing.
