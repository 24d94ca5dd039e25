/** The contract of the abstract `SubtitleSelectionController` interface,
    as its documentation comments state it together with the modelling
    choices listed at `Honours`, written as predicates over one
    operation: the observable state before and after, the listeners that
    were registered, and the notifications that were delivered. Any
    controller, whatever it does internally, is judged by `Honours`. */
module SelectionContract {
  import opened Subtitles
  import opened Notifications
  import opened ListenerRegistry

  /** What a caller can observe of a controller: `GetActiveLine` and
      `GetSelectedSet`. */
  datatype View = View(active: Option<Line>, selection: Selection)

  /** The outcome of one operation: the controller afterwards and the
      notifications it delivered. */
  datatype Step<S> = Step(after: S, trace: Trace)

  /** The operations of the interface that may change something. */
  datatype Op =
    | SetActive(newLine: Option<Line>)
    | SetSelection(newSelection: Selection)
    | Next
    | Prev
    | Subscribe(listener: Listener)
    | Unsubscribe(listener: Listener)

  /** The notifications one listener is owed for a change from `before` to
      `after`: one per part that changed, carrying that part's new value,
      the active line first; nothing for a part that did not change. */
  function Changes(before: View, after: View): seq<Event> {
    (if before.active != after.active then [ActiveLineChanged(after.active)] else [])
    + (if before.selection != after.selection then [SelectedSetChanged(after.selection)] else [])
  }

  /** Every registered listener received exactly the notifications it is
      owed, and no other listener received anything. */
  ghost predicate Announces(before: View, after: View, listeners: Registry, t: Trace) {
    forall l :: DeliveredTo(t, l) == if l in Members(listeners) then Changes(before, after) else []
  }

  /** The contract each operation is held to. Part of it is what the
      interface's comments state:
      - `SetActiveLine(x)`: the active line becomes `x`, which may be NULL,
        and a notification is sent only if the active line changed;
      - `SetSelectedSet(s)`: the selection becomes exactly `s` or stays
        exactly as it was, never a mixture, and no notification is sent when
        it stays;
      - `NextLine` / `PrevLine`: with no next (previous) line nothing changes;
        otherwise the active line moves and the selection becomes exactly
        that line.
      The rest are choices of this model, which the comments do not make:
      - a controller may refuse a non-NULL line outside `held`, the lines
        it holds (the do-nothing controller holds none), leaving the active
        line as it was; a line it holds, and NULL, are never refused;
      - `SetActiveLine` leaves the selection alone and `SetSelectedSet`
        leaves the active line alone;
      - a part that changed is always announced, the active line before the
        selection (see `Changes`);
      - subscribing and unsubscribing change nothing observable. */
  ghost predicate Honours(op: Op, before: View, after: View, held: set<Line>, listeners: Registry, t: Trace) {
    && Announces(before, after, listeners, t)
    && match op
       case SetActive(x) =>
         && (after.active == x || (x.Some? && x.value !in held && after.active == before.active))
         && after.selection == before.selection
       case SetSelection(s) =>
         && (after.selection == s || after.selection == before.selection)
         && after.active == before.active
       case Next => MovedOrStayed(before, after)
       case Prev => MovedOrStayed(before, after)
       case Subscribe(_) => after == before
       case Unsubscribe(_) => after == before
  }

  /** A controller that holds `x` cannot refuse `SetActiveLine(x)`: after
      it, `x` is the active line. */
  lemma HeldLineNotRefused(x: Line, before: View, after: View, held: set<Line>, listeners: Registry, t: Trace)
    requires x in held
    requires Honours(SetActive(Some(x)), before, after, held, listeners, t)
    ensures after.active == Some(x)
  {
  }

  /** The outcome `NextLine` and `PrevLine` allow: no change, or a move to a
      different line that also becomes the whole selection. */
  ghost predicate MovedOrStayed(before: View, after: View) {
    || after == before
    || (after.active.Some? && after.active != before.active && after.selection == [after.active.value])
  }

  /** When nothing observable changed, no listener is called at all: the
      rule that an unchanged active line or an unchanged (refused or
      identical) selection sends no notification. */
  lemma {:induction false} QuietWhenUnchanged(v: View, listeners: Registry, t: Trace)
    requires Announces(v, v, listeners, t)
    ensures t == []
  {
    if |t| > 0 {
      FirstRecipientHears(t);
    }
  }

  /** A change of the active line followed by a change of the selection
      owes what one change of both would. */
  lemma ChangesSplit(v0: View, v1: View, v2: View)
    requires v1.selection == v0.selection && v2.active == v1.active
    ensures Changes(v0, v2) == Changes(v0, v1) + Changes(v1, v2)
  {
  }

  /** Two operations in a row, the first changing only the active line and
      the second only the selection, announce together what one operation
      changing both would. */
  lemma ActiveThenSelection(v0: View, v1: View, v2: View, listeners: Registry, t1: Trace, t2: Trace)
    requires v1.selection == v0.selection && v2.active == v1.active
    requires Announces(v0, v1, listeners, t1)
    requires Announces(v1, v2, listeners, t2)
    ensures Announces(v0, v2, listeners, t1 + t2)
  {
    ChangesSplit(v0, v1, v2);
    forall l
      ensures DeliveredTo(t1 + t2, l) == if l in Members(listeners) then Changes(v0, v2) else []
    {
      var d1 := DeliveredTo(t1, l);
      var d2 := DeliveredTo(t2, l);
      DeliveredToConcat(t1, t2, l);
      if l in Members(listeners) {
        assert d1 + d2 == Changes(v0, v1) + Changes(v1, v2);
      } else {
        assert d1 + d2 == [];
      }
    }
  }
}
