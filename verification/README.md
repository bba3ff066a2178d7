# Behavioural patterns with state: undo/redo remote, cash chain, observer registry

A Dafny model of the three behavioural-pattern demonstrations in this Python
repository that carry state or arithmetic worth proving:

- **Command** (`python/behavioral/command.py`): a `RemoteControl` invoker holding a
  current command, a history stack and a redo stack. `set_command` replaces the
  current command. `press_button` executes it, pushes it on the history and clears
  the redo stack. `press_undo` pops the history, undoes the command and pushes it
  on the redo stack. `press_redo` pops the redo stack, executes the command again
  and pushes it back on the history. The model is the module `CommandInvoker`. The
  remote is an immutable record, and each operation is a pure function returning
  the new remote plus the receiver effects (`TurnedOn`/`TurnedOff` of a light) in
  order. A command is `LightOn(id, light)`: `id` stands for object identity.
- **Chain of responsibility** (`python/behavioral/chain_of_responsiblity.py`): the
  $100 → $50 → $20 → $10 cash dispensers. Each handler splits the amount into
  `amount // d` bills and `amount % d`. It reports only a positive bill count. It
  forwards only a positive remainder, and only when it has a next handler. The
  model is the module `CashChain`. The chain is a non-empty sequence of
  denominations, and one `Dispense` call returns the amounts each reached handler
  received, the reported bills and the remainder nobody paid out. Python's `//`
  and `%` with a positive divisor agree with Dafny's Euclidean `/` and `%`, so
  amounts are unbounded `int`s, negative ones included.
- **Observer** (`python/behavioral/observer.py`): a `Subject` with a duplicate-free
  observer list. `attach` appends only absent observers. `detach` removes an
  observer and ignores an absent one. Setting `state` stores the value and then
  calls `update` on every observer in list order. The model is the module
  `ObserverRegistry`. Observers are `Observer(id, kind)` values, and a
  notification is a list of `Notice`s, one per `update` call, saying whether that
  observer reacted. `ConcreteObserverA` reacts below 3 and `ConcreteObserverB` at
  3 or above.

Unlike many undo/redo engines, this remote has:

- no failure status: `execute` and `undo` cannot fail here, so no stack is ever
  restored after a failed command;
- no `canUndo`/`canRedo`: a client tests whether `history` or `redo` is empty
  directly;
- no separate `submit`: submitting is `set_command` followed by `press_button`,
  and `press_button` with no command set does nothing;
- no rule that a command sits in at most one stack: pressing the button twice
  pushes the current command twice (`SameCommandTwice`).

Worth knowing about the cash chain as written: a negative request is not
rejected. The $100 handler computes a negative bill count (which it does not
report) and a remainder in [0, 100), which it forwards when positive. So a
request for -30 pays out a $50 bill and a $20 bill (`NegativeRequest`), while a
negative multiple of 100 such as -100 leaves remainder 0 and pays nothing. The
amounts that balance (`Conservation`) are therefore stated for non-negative
requests only.

## Model

| member | source | states |
|---|---|---|
| CommandInvoker.Execute | python/behavioral/command.py:87-88 | executing a light-on command emits exactly one effect, `TurnedOn` of the command's own light (`turn_on`, lines 67-71) |
| CommandInvoker.Undo | python/behavioral/command.py:90-91 | undoing it emits exactly one effect, `TurnedOff` of that same light (`turn_off`, lines 73-77) |
| CommandInvoker.Init | python/behavioral/command.py:98-101 | a new remote has no current command and an empty history and redo stack |
| CommandInvoker.SetCommand | python/behavioral/command.py:103-107 | only the current command changes; history and redo stacks are untouched |
| CommandInvoker.PressButton | python/behavioral/command.py:109-116 | with no command: nothing changes and no effect; with command c: history gains c at its tail, redo becomes empty, exactly c's execute effect is emitted, and the stacks' combined size becomes the old history size plus one |
| CommandInvoker.PressUndo | python/behavioral/command.py:118-125 | empty history: no change, no effect; otherwise the history's last command c is removed, appended to redo, and c's undo effect is emitted; combined stack size is preserved |
| CommandInvoker.PressRedo | python/behavioral/command.py:127-134 | empty redo: no change, no effect; otherwise redo's last command moves to the history's tail and its execute effect is emitted; combined stack size is preserved |
| CommandInvoker.UndoThenRedo | python/behavioral/command.py:118-134 | from a non-empty history, undo then redo restores the remote exactly and emits c's undo effect followed by c's execute effect |
| CommandInvoker.RedoThenUndo | python/behavioral/command.py:118-134 | from a non-empty redo stack, redo then undo restores the remote exactly |
| CommandInvoker.UndoRedoKeepTimeline | python/behavioral/command.py:122-125 | undo and redo keep the timeline (history followed by the redo stack read top-down) unchanged: they only move the cursor |
| CommandInvoker.ButtonTruncatesTimeline | python/behavioral/command.py:113-116 | a press cuts the timeline at the cursor and appends the current command, discarding the redo branch |
| CommandInvoker.NavigationKeepsTimeline | python/behavioral/command.py:118-134 | any sequence of undo/redo presses keeps the timeline, the current command and the combined stack size |
| CommandInvoker.PressButtonRepeatedly | python/behavioral/command.py:113-116 | n presses with c set append n copies of c to the history, empty the redo stack when n > 0, and execute c n times |
| CommandInvoker.FreshPresses | python/behavioral/command.py:98-116 | from a new remote, any number n of presses (0 included) leaves exactly n history entries and no redo entries |
| CommandInvoker.SubmitsAppend | python/behavioral/command.py:103-116 | from any remote, submitting commands c1..cn (each set, then pressed) appends exactly c1..cn to the history in that order, leaves the redo stack empty when n > 0, and emits the execute effects of c1..cn in order |
| CommandInvoker.SameCommandTwice | python/behavioral/command.py:113-116 | pressing twice leaves the same command twice in the history |
| CommandInvoker.PressAfterUndoDiscardsRedo | python/behavioral/command.py:103-125 | A; B; undo; C gives history [A, C] and an empty redo stack: B is discarded |
| CommandInvoker.ClientScenario | python/behavioral/command.py:138-146 | the client's press, undo, redo emits on, off, on and ends with history [light_on] and empty redo |
| CashChain.Split | python/behavioral/chain_of_responsiblity.py:60-61 | bills × d + remainder equals the amount and 0 ≤ remainder < d |
| CashChain.Dispense | python/behavioral/chain_of_responsiblity.py:59-65 | the first handler gets the request; each later handler gets a positive remainder of the previous one, below its denomination; forwarding stops before the end only on a zero remainder; the leftover is the last reached handler's remainder, is in [0, d), and is 0 when the chain was not exhausted; every report has a positive count and a denomination of the chain |
| CashChain.DispenseReports | python/behavioral/chain_of_responsiblity.py:59-105 | the reported bills are exactly, in chain order, one report per reached handler whose count `amount // d` is positive, giving that count and the handler's own denomination, and nothing for a handler whose count is zero or negative |
| CashChain.Conservation | python/behavioral/chain_of_responsiblity.py:59-105 | for a non-negative request, the value of the reported bills plus the leftover equals the request |
| CashChain.LeftoverIsResidue | python/behavioral/chain_of_responsiblity.py:98-105 | when the last denomination divides all others, the leftover is the request modulo the last denomination, for every integer request |
| CashChain.NotesDescend | python/behavioral/chain_of_responsiblity.py:59-91 | on a descending chain the reports come in strictly descending denominations, none above the head's |
| CashChain.StandardLeftover | python/behavioral/chain_of_responsiblity.py:109-120 | on the 100/50/20/10 chain the leftover is the request mod 10, and bills plus request mod 10 make up any non-negative request |
| CashChain.Dispense230 | python/behavioral/chain_of_responsiblity.py:120 | dispensing 230 reports 2×$100, 1×$20, 1×$10 (no $50) with nothing left |
| CashChain.Dispense235 | python/behavioral/chain_of_responsiblity.py:104-105 | dispensing 235 reports the same bills and the $10 handler silently keeps 5 |
| CashChain.NegativeRequest | python/behavioral/chain_of_responsiblity.py:60-65 | a request of -30 is not rejected and pays out 1×$50 and 1×$20, worth 70 |
| ObserverRegistry.Init | python/behavioral/observer.py:26-28 | a new subject has an empty observer list and no state |
| ObserverRegistry.Attach | python/behavioral/observer.py:30-35 | the observer is attached afterwards; if it was attached nothing changes, otherwise it is appended after the existing ones in order; no duplicates is preserved; the state is untouched |
| ObserverRegistry.RemoveFirst | python/behavioral/observer.py:42 | removing an absent element changes nothing; otherwise exactly the first occurrence is deleted and the rest keep their order |
| ObserverRegistry.Detach | python/behavioral/observer.py:37-44 | an absent observer is a silent no-op; a present one's first occurrence is deleted, the others keeping their order; without duplicates it is then absent and no duplicates is preserved |
| ObserverRegistry.Notify | python/behavioral/observer.py:46-51 | one update per observer, in list order, each seeing the stored state and reacting exactly as its kind dictates |
| ObserverRegistry.SetState | python/behavioral/observer.py:60-63 | the value is stored, the observers are unchanged, and every observer is notified once in order with the new value |
| ObserverRegistry.Reacts | python/behavioral/observer.py:16-19 | the base observer never reacts; ConcreteObserverA reacts exactly to states below 3 (lines 70-72); ConcreteObserverB reacts exactly to states of 3 or more (lines 79-81) |
| ObserverRegistry.ExactlyOneConcreteReacts | python/behavioral/observer.py:66-81 | for every integer state exactly one of ConcreteObserverA (below 3) and ConcreteObserverB (3 or above) reacts, and the base observer never does |
| ObserverRegistry.AttachIdempotent | python/behavioral/observer.py:34-35 | attaching twice equals attaching once |
| ObserverRegistry.DetachUndoesAttach | python/behavioral/observer.py:30-44 | detaching an observer just attached (and absent before) gives back the original subject |
| ObserverRegistry.DetachIdempotent | python/behavioral/observer.py:41-44 | without duplicates, detaching twice equals detaching once |
| ObserverRegistry.DetachKeepsOthers | python/behavioral/observer.py:42 | any other observer is attached after the detach exactly when it was before |
| ObserverRegistry.NotifiedOnce | python/behavioral/observer.py:50-51 | without duplicates, each attached observer receives exactly one update |
| ObserverRegistry.RunKeepsNoDuplicates | python/behavioral/observer.py:30-63 | no sequence of attach, detach and state changes makes the observer list hold an observer twice |
| ObserverRegistry.Demo | python/behavioral/observer.py:84-95 | attaching A then B gives [A, B]; state 2 makes only A react, then state 3 makes only B react |

## Left out

- Printing: the `print` calls of the light, the dispensers and the observers become abstract events (`Effect`, `Bills`, `Notice`), not text.
- Failures inside `execute`/`undo`: the Python code has no error path, and an exception thrown by `undo` after the pop would lose the command; neither is modelled.
- `Command` and `Observer` as abstract base classes: the commands are the closed variant `LightOn` and the observers a closed set of kinds; other subclasses are not part of this model.
- `Light`: it holds no state, so only its two effects are modelled.
- The linked handler objects and the `next_handler` field: a chain is a sequence of denominations; a chain built with a cycle is not modelled.
- `ObserverRegistry.Notify`: takes the state as an integer, so it does not model calling `notify` directly before any state was set, where the concrete observers' comparison of `None` with 3 raises a `TypeError` in Python.
- The `state` getter: reading `Subject.state` is just the record field.
- The module-level `subject` of `observer.py` and the `__main__` demos: only used as the concrete scenarios above.
- Non-integer amounts in the cash chain: Python's `//` and `%` also accept floats (a request of 230.5 leaves 0.5 with the $10 handler), but the model's amounts are integers only.
- States other than integers: `update` compares the state with 3, and only integer states are modelled.
- The other pattern demonstrations of the repository (adapter, bridge, builder, composite, decorator, facade, factory, mediator, prototype, proxy, singleton, strategy, template): stateless forwarding or object construction with nothing to prove, floating-point fees in the composite, and Python object identity in the singleton.
