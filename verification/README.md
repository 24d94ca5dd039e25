# Subtitle selection controller — a Dafny model

Aegisub's subtitle editor keeps track of which subtitle line is *active* and which lines are *selected*. It does this through `SubtitleSelectionController`, declared in `aegisub/src/selection_controller.h`. A controller holds:

- an active line, which may be NULL;
- a selected set (`SubtitleSelection`);
- a set of `SubtitleSelectionListener`s, which it notifies when the active line or the selected set changes.

This project models three layers of that header as pure functions. Each function returns the new state together with the trace of notifications it delivered. No callbacks are invoked.

1. **`BaseSubtitleSelectionController`** (module `ListenerRegistry`). This is the listener bookkeeping. A `Registry` is the content of the `std::set<SubtitleSelectionListener *>`: listeners in strictly increasing address order, so without duplicates. `Add` and `Remove` are `insert` and `erase`. `Announce` is the loop shared by `AnnounceActiveLineChanged` and `AnnounceSelectedSetChanged`.
2. **The interface contract** (module `SelectionContract`). `Honours` states the contract one operation is held to. It combines what the documentation comments of `SubtitleSelectionController` promise with the modelling choices listed below. `Announces` states the notification rule: every registered listener gets exactly one notification per part that changed, carrying the new value, and no listener gets anything for a part that did not change. `ReferenceController` is a full controller over an explicit document, meaning a sequence of distinct lines. The document supplies the "logical next line in sequence" that the interface leaves abstract. Every operation of this controller is proved to honour the contract.
3. **`DummySubtitleSelectionController`** (module `DummyController`). This is the do-nothing controller for an empty file. It is proved to honour the same contract, but only because that contract lets a controller refuse a line it does not hold, and the dummy holds none. No session on it ever notifies anyone.

Modelling choices:

- **Lines and listeners.** Both are opaque pointers, modelled by their address (`Line`, `Listener`). A NULL active line is `None`.
- **Selections.** `SubtitleSelection` is a `std::vector` (`selection_controller.h:45`), although the comments call it a set. It is modelled as `seq<Line>`, and two selections are "identical" when they are equal sequences. The same lines in another order therefore count as a change.
- **Notifications.** A notification is a `Delivery(listener, event)`. What listener `l` received from a trace is `DeliveredTo(trace, l)`. The contracts state "each registered listener once, carrying the new value". They do not state an order among listeners.
- **Next and previous line.** In `ReferenceController`, the next line after the line at position `i` of the document is the line at `i + 1`, and the previous line is the line at `i - 1`. When there is no active line, or the active line is not in the document, there is no next or previous line and nothing changes.
- **Moving to a line.** `NextLine` and `PrevLine` move by calling `SetActiveLine(y)` and then `SetSelectedSet([y])`. So the active-line notification comes before the selected-set notification. The selected-set notification is sent only if the selection was not already `[y]`.
- **Choices in `Honours` that the interface's comments do not make.**
  - `Honours` is given the set of lines the controller holds: the lines of its document for `ReferenceController`, none for the dummy. A controller may refuse a non-NULL line outside that set and keep its active line. A line it holds, and NULL, are never refused (`SelectionContract.HeldLineNotRefused`). Only the dummy uses this.
  - `SetActiveLine` leaves the selection alone, and `SetSelectedSet` leaves the active line alone.
  - A part that changed is always announced, and the active-line notification comes before the selected-set notification.
- **The dummy's state.** The dummy describes itself as working on an empty file. So its observable state (`DummyController.ViewOf`) is no active line and an empty selection. Its `GetSelectedSet` is modelled twice:
  - `GetSelectedSetAsWritten` hands back the caller's vector untouched, as the code does;
  - `GetSelectedSet` returns the empty selection, as the interface describes (see Findings).
- **Unchanged selections.** The header's comment says no notification may be sent for an unchanged selection. So the model never uses a relaxed "always notify" policy.

## Model

| member | source | states |
|---|---|---|
| ListenerRegistry.Add | aegisub/src/selection_controller.h:180-183 | after `insert` the registered set is the old one plus the listener; adding a registered listener leaves the registry identical; adding a new one grows it by exactly one |
| ListenerRegistry.Remove | aegisub/src/selection_controller.h:185-188 | after `erase` the registered set is the old one minus the listener, so every other listener is still registered; removing an unregistered listener leaves the registry identical |
| ListenerRegistry.SameMembersSameRegistry | aegisub/src/selection_controller.h:158 | a `std::set` of listeners is determined by its members: two registries with the same members are equal |
| ListenerRegistry.AddThenRemove | aegisub/src/selection_controller.h:180-188 | subscribing a new listener and then unsubscribing it restores the registry exactly |
| ListenerRegistry.RemoveThenAdd | aegisub/src/selection_controller.h:180-188 | unsubscribing a registered listener and subscribing it again restores the registry exactly |
| ListenerRegistry.AddCommutes | aegisub/src/selection_controller.h:180-183 | the order in which two listeners subscribe does not matter |
| ListenerRegistry.Announce | aegisub/src/selection_controller.h:162-177 | one announcement delivers the event exactly once to each registered listener and nothing to anyone else, so it delivers nothing when no listener is registered |
| ListenerRegistry.AnnounceActiveLineChanged | aegisub/src/selection_controller.h:161-168 | each registered listener gets `OnActiveLineChanged(new_line)` exactly once and no other listener is called |
| ListenerRegistry.AnnounceSelectedSetChanged | aegisub/src/selection_controller.h:170-177 | each registered listener gets `OnSelectedSetChanged(new_selection)` exactly once and no other listener is called |
| SelectionContract.QuietWhenUnchanged | aegisub/src/selection_controller.h:98-100 | if nothing observable changed, an operation that follows the notification rule calls no listener at all |
| SelectionContract.HeldLineNotRefused | aegisub/src/selection_controller.h:77-85 | a controller that holds a line cannot refuse to make it active: under the contract, `SetActiveLine` of a held line leaves that line active |
| ReferenceController.SetActiveLine | aegisub/src/selection_controller.h:77-89 | afterwards the active line is the given one, which may be NULL; the selection, document and listeners are unchanged; a notification carrying the new line reaches each listener exactly when the line actually changed |
| ReferenceController.SetSelectedSet | aegisub/src/selection_controller.h:91-105 | afterwards the selection is exactly the new one, all or nothing; the active line is unchanged; listeners are notified exactly when the selection differs from the old one |
| ReferenceController.NextOf | aegisub/src/selection_controller.h:107-112 | there is a next line exactly when the line is in the document and not last, and then it is the line at the following position |
| ReferenceController.PrevOf | aegisub/src/selection_controller.h:114-119 | there is a previous line exactly when the line is in the document and not first, and then it is the line at the preceding position |
| ReferenceController.NextPrevInverse | aegisub/src/selection_controller.h:107-119 | `y` is the next line of `x` exactly when `x` is the previous line of `y` |
| ReferenceController.MoveTo | aegisub/src/selection_controller.h:109-111 | moving to `y` leaves `y` active and exactly `[y]` selected, and each listener is notified of each part that changed |
| ReferenceController.NextLine | aegisub/src/selection_controller.h:107-112 | from position `i` the active line becomes the line at `i + 1` and the selection becomes exactly that line; with no next line nothing changes and no notification is sent; the interface contract holds |
| ReferenceController.PrevLine | aegisub/src/selection_controller.h:114-119 | from position `i` the active line becomes the line at `i - 1` and the selection becomes exactly that line; with no previous line nothing changes and no notification is sent; the interface contract holds |
| ReferenceController.NextLineAtLastLine | aegisub/src/selection_controller.h:109-112 | at the last line of the document `NextLine` changes nothing and notifies nobody |
| ReferenceController.PrevLineAtFirstLine | aegisub/src/selection_controller.h:116-119 | at the first line of the document `PrevLine` changes nothing and notifies nobody |
| ReferenceController.NextThenPrev | aegisub/src/selection_controller.h:107-119 | after a successful `NextLine`, `PrevLine` makes the original line active again, with exactly it selected |
| ReferenceController.AddSelectionListener | aegisub/src/selection_controller.h:121-123 | the listener is registered afterwards and a repeated subscription changes nothing; the active line and selection are unchanged and no one is notified |
| ReferenceController.RemoveSelectionListener | aegisub/src/selection_controller.h:125-127 | the listener is no longer registered, the others still are, and removing an absent listener changes nothing; no one is notified |
| ReferenceController.Apply | aegisub/src/selection_controller.h:72-128 | every interface operation honours the interface contract and changes the registered set only as its own subscription request says |
| ReferenceController.NeverSubscribedHearsNothing | aegisub/src/selection_controller.h:121-127 | a listener that is not registered and is never subscribed during a session receives no notification and is still unregistered at the end |
| ReferenceController.UnsubscribedHearsNothing | aegisub/src/selection_controller.h:125-127 | after unsubscribing, a listener receives nothing for the rest of the session unless it subscribes again |
| ReferenceController.SubscribedTwiceHearsOnce | aegisub/src/selection_controller.h:180-183 | a listener subscribed twice receives an active-line change once, not twice |
| ReferenceController.SetActiveLineTwice | aegisub/src/selection_controller.h:83-85 | setting the same new active line twice notifies each listener once; the second call changes nothing |
| DummyController.Apply | aegisub/src/selection_controller.h:196-203 | every mutator, and subscribing or unsubscribing, on the dummy keeps no active line and an empty selection, delivers nothing, and honours the contract by refusing every line |
| DummyController.Run | aegisub/src/selection_controller.h:193-203 | no sequence of operations on the dummy ever calls a listener; afterwards `GetActiveLine` is NULL, and `GetSelectedSet` as written hands back any vector it is given |
| DummyController.StaleSelectionSurvives | aegisub/src/selection_controller.h:199 | for every non-empty vector passed in, the dummy's `GetSelectedSet` as written returns lines the dummy never selected; the corrected member always returns the empty selection |
| DummyController.GetSelectedSet | aegisub/src/selection_controller.h:103-105 | corrected: the out-parameter is filled with the dummy's selected set, which is empty, whatever the caller passed |

## Left out

- The contents of `AssDialogue`. A line is only an identity to the controller.
- Real callback invocation. Notifications are returned as a trace, so the model says nothing about a listener that calls back into the controller, or adds or removes listeners, during a callback. The C++ loops iterate the live `std::set` while calling out, so such a listener could invalidate the iterator. No re-entrancy safety is claimed.
- ListenerRegistry.Announce: states which listeners are called and with what, not the ascending-pointer order in which `std::set` visits them, because that order carries no meaning.
- NULL pointers among the listeners or inside a selection vector. Listeners and selection entries are modelled as non-NULL.
- The GUI subtitle grid, and the test driver and non-interactive controller that the interface's comments name as potential implementations, are not part of this model. They lie outside `selection_controller.h`. `ReferenceController` stands in for a real implementation. Its choice of "next line" is a modelling decision.
- DummyController.Apply: the dummy ignores `SetActiveLine(x)` for every non-NULL `x`. It conforms to `Honours` only because that predicate allows a controller to refuse a line it does not hold, and the dummy holds none; the interface's comments do not provide for that refusal.
- `GetActiveLine` and the reference controller's `GetSelectedSet` have no contracts of their own. Reading back after a setter is stated in `SetActiveLine`, `SetSelectedSet` and `DummyController.Run`.
- Virtual destructors, and the ownership and lifetime of lines and listeners. The controller never owns either.

## Findings

| source | as written | input that shows it | evidently intended | confidence | as-written member | corrected member |
|---|---|---|---|---|---|---|
| aegisub/src/selection_controller.h:199 | the dummy's `GetSelectedSet` has an empty body, so the out-parameter keeps whatever the caller put in it | a caller passes a vector holding one line and gets that line back, although the dummy stands for an empty file with nothing selected | the out-parameter is "filled with the selected set on return" (line 104), which for the dummy is empty | low; not executed; harmless for callers that pass a fresh empty vector | DummyController.GetSelectedSetAsWritten | DummyController.GetSelectedSet |
