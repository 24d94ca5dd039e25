/** A reference implementation of `SubtitleSelectionController` built on
    the listener bookkeeping of `BaseSubtitleSelectionController`.

    The interface leaves "the logical next line in sequence" to each
    implementation. Here it is given by an explicit document: a sequence of
    distinct lines, as a subtitle file holds distinct dialogue objects. The
    line after the active line is the next one in the document; with no
    active line, or an active line the document does not hold, there is no
    next or previous line. */
module ReferenceController {
  import opened Subtitles
  import opened Notifications
  import opened ListenerRegistry
  import opened SelectionContract

  /** No line occurs twice. */
  predicate Distinct(lines: seq<Line>) {
    forall i, j :: 0 <= i < j < |lines| ==> lines[i] != lines[j]
  }

  /** The lines of the subtitle file, in file order. */
  type Document = s: seq<Line> | Distinct(s) witness []

  /** The controller's state: the document it walks, the active line (NULL
      is `None`), the selected set, and the registered listeners. */
  datatype Controller = Controller(
    lines: Document,
    active: Option<Line>,
    selection: Selection,
    listeners: Registry)

  /** What callers observe of the controller. */
  function ViewOf(c: Controller): View {
    View(c.active, c.selection)
  }

  /** The lines the controller holds: those of its document. */
  function Held(c: Controller): set<Line> {
    set l | l in c.lines
  }

  /** `GetActiveLine()`. */
  function GetActiveLine(c: Controller): Option<Line> {
    c.active
  }

  /** `GetSelectedSet(selection)`: the out-parameter is overwritten with the
      selected set, whatever it held. */
  function GetSelectedSet(c: Controller, selection: Selection): Selection {
    c.selection
  }

  /** The line immediately after `x` in the document, if `x` is in it and
      is not the last line. */
  function NextOf(lines: Document, x: Line): (n: Option<Line>)
    ensures n.Some? <==> exists i :: 0 <= i < |lines| - 1 && lines[i] == x
    ensures forall i :: 0 <= i < |lines| - 1 && lines[i] == x ==> n == Some(lines[i + 1])
    decreases |lines|
  {
    if |lines| < 2 then None
    else if lines[0] == x then Some(lines[1])
    else
      var tail: Document := lines[1..];
      var n := NextOf(tail, x);
      assert forall i :: 1 <= i < |lines| ==> lines[i] == tail[i - 1];
      n
  }

  /** The line immediately before `x` in the document, if `x` is in it and
      is not the first line. */
  function PrevOf(lines: Document, x: Line): (p: Option<Line>)
    ensures p.Some? <==> exists i :: 0 < i < |lines| && lines[i] == x
    ensures forall i :: 0 < i < |lines| && lines[i] == x ==> p == Some(lines[i - 1])
    decreases |lines|
  {
    if |lines| < 2 then None
    else if lines[1] == x then Some(lines[0])
    else
      var tail: Document := lines[1..];
      var p := PrevOf(tail, x);
      assert forall i :: 1 <= i < |lines| ==> lines[i] == tail[i - 1];
      p
  }

  /** `y` follows `x` exactly when `x` precedes `y`: moving forward and then
      back, or back and then forward, returns to the starting line. */
  lemma NextPrevInverse(lines: Document, x: Line, y: Line)
    ensures NextOf(lines, x) == Some(y) <==> PrevOf(lines, y) == Some(x)
  {
  }

  /** `SetActiveLine(new_line)`: the active line becomes `new_line`, which
      may be NULL, and listeners hear of it only if it differs from the line
      that was active. */
  function SetActiveLine(c: Controller, newLine: Option<Line>): (s: Step<Controller>)
    ensures s.after.active == newLine
    ensures s.after.lines == c.lines && s.after.listeners == c.listeners
    ensures Honours(SetActive(newLine), ViewOf(c), ViewOf(s.after), Held(c), c.listeners, s.trace)
  {
    Step(c.(active := newLine),
         if newLine == c.active then [] else AnnounceActiveLineChanged(c.listeners, newLine))
  }

  /** `SetSelectedSet(new_selection)`: this controller never refuses, so the
      selection becomes exactly `new_selection`; listeners hear of it only if
      it differs from the previous selection. */
  function SetSelectedSet(c: Controller, newSelection: Selection): (s: Step<Controller>)
    ensures s.after.selection == newSelection
    ensures s.after.lines == c.lines && s.after.listeners == c.listeners
    ensures Honours(SetSelection(newSelection), ViewOf(c), ViewOf(s.after), Held(c), c.listeners, s.trace)
  {
    Step(c.(selection := newSelection),
         if newSelection == c.selection then [] else AnnounceSelectedSetChanged(c.listeners, newSelection))
  }

  /** Make `y` the active line and the whole selection, as one operation
      whose notifications are those of the two setters in turn. */
  function MoveTo(c: Controller, y: Line): (s: Step<Controller>)
    ensures ViewOf(s.after) == View(Some(y), [y])
    ensures s.after.lines == c.lines && s.after.listeners == c.listeners
    ensures Announces(ViewOf(c), ViewOf(s.after), c.listeners, s.trace)
  {
    var s1 := SetActiveLine(c, Some(y));
    var s2 := SetSelectedSet(s1.after, [y]);
    ActiveThenSelection(ViewOf(c), ViewOf(s1.after), ViewOf(s2.after), c.listeners, s1.trace, s2.trace);
    Step(s2.after, s1.trace + s2.trace)
  }

  /** `NextLine()`: from the line at position `i` of the document, move to
      the line at `i + 1` and select exactly it; with no active line, an
      active line outside the document, or the last line active, nothing
      changes and nobody is notified. */
  function NextLine(c: Controller): (s: Step<Controller>)
    ensures forall i :: 0 <= i < |c.lines| - 1 && c.active == Some(c.lines[i]) ==>
              ViewOf(s.after) == View(Some(c.lines[i + 1]), [c.lines[i + 1]])
    ensures (forall i :: 0 <= i < |c.lines| - 1 ==> c.active != Some(c.lines[i])) ==> s == Step(c, [])
    ensures s.after.lines == c.lines && s.after.listeners == c.listeners
    ensures Honours(Next, ViewOf(c), ViewOf(s.after), Held(c), c.listeners, s.trace)
  {
    if c.active.None? then Step(c, [])
    else match NextOf(c.lines, c.active.value)
      case None => Step(c, [])
      case Some(y) =>
        var i :| 0 <= i < |c.lines| - 1 && c.lines[i] == c.active.value;
        assert y == c.lines[i + 1] != c.lines[i];
        MoveTo(c, y)
  }

  /** `PrevLine()`: the mirror image of `NextLine`, from position `i` to
      position `i - 1`; with no active line, an active line outside the
      document, or the first line active, nothing changes. */
  function PrevLine(c: Controller): (s: Step<Controller>)
    ensures forall i :: 0 < i < |c.lines| && c.active == Some(c.lines[i]) ==>
              ViewOf(s.after) == View(Some(c.lines[i - 1]), [c.lines[i - 1]])
    ensures (forall i :: 0 < i < |c.lines| ==> c.active != Some(c.lines[i])) ==> s == Step(c, [])
    ensures s.after.lines == c.lines && s.after.listeners == c.listeners
    ensures Honours(Prev, ViewOf(c), ViewOf(s.after), Held(c), c.listeners, s.trace)
  {
    if c.active.None? then Step(c, [])
    else match PrevOf(c.lines, c.active.value)
      case None => Step(c, [])
      case Some(y) =>
        var i :| 0 < i < |c.lines| && c.lines[i] == c.active.value;
        assert y == c.lines[i - 1] != c.lines[i];
        MoveTo(c, y)
  }

  /** `AddSelectionListener(listener)`: the listener joins the registry (a
      second subscription changes nothing); nothing observable changes and
      nobody is notified. */
  function AddSelectionListener(c: Controller, l: Listener): (s: Step<Controller>)
    ensures Members(s.after.listeners) == Members(c.listeners) + {l}
    ensures l in Members(c.listeners) ==> s.after == c
    ensures s.after.lines == c.lines
    ensures Honours(Subscribe(l), ViewOf(c), ViewOf(s.after), Held(c), c.listeners, s.trace)
  {
    Step(c.(listeners := Add(c.listeners, l)), [])
  }

  /** `RemoveSelectionListener(listener)`: the listener leaves the registry,
      every other listener stays, and removing one that is not registered
      changes nothing. */
  function RemoveSelectionListener(c: Controller, l: Listener): (s: Step<Controller>)
    ensures Members(s.after.listeners) == Members(c.listeners) - {l}
    ensures l !in Members(c.listeners) ==> s.after == c
    ensures s.after.lines == c.lines
    ensures Honours(Unsubscribe(l), ViewOf(c), ViewOf(s.after), Held(c), c.listeners, s.trace)
  {
    Step(c.(listeners := Remove(c.listeners, l)), [])
  }

  /** Any operation of the interface, each honouring the interface contract
      and changing the registry only by its own subscription request. */
  function Apply(c: Controller, op: Op): (s: Step<Controller>)
    ensures Honours(op, ViewOf(c), ViewOf(s.after), Held(c), c.listeners, s.trace)
    ensures s.after.lines == c.lines
    ensures Members(s.after.listeners) ==
              match op
              case Subscribe(l) => Members(c.listeners) + {l}
              case Unsubscribe(l) => Members(c.listeners) - {l}
              case _ => Members(c.listeners)
  {
    match op
    case SetActive(x) => SetActiveLine(c, x)
    case SetSelection(sel) => SetSelectedSet(c, sel)
    case Next => NextLine(c)
    case Prev => PrevLine(c)
    case Subscribe(l) => AddSelectionListener(c, l)
    case Unsubscribe(l) => RemoveSelectionListener(c, l)
  }

  /** A session: the operations applied in turn, their notifications
      concatenated in the order they were delivered. */
  function Run(c: Controller, ops: seq<Op>): (s: Step<Controller>)
    ensures s.after.lines == c.lines
    decreases |ops|
  {
    if |ops| == 0 then Step(c, [])
    else
      var s1 := Apply(c, ops[0]);
      var s2 := Run(s1.after, ops[1..]);
      Step(s2.after, s1.trace + s2.trace)
  }

  /** A listener that is not registered, and that no operation of a session
      subscribes, hears nothing during it and is still not registered at its
      end. In particular a listener that unsubscribes hears nothing more. */
  lemma {:induction false} NeverSubscribedHearsNothing(c: Controller, ops: seq<Op>, l: Listener)
    requires l !in Members(c.listeners)
    requires forall i :: 0 <= i < |ops| ==> ops[i] != Subscribe(l)
    ensures DeliveredTo(Run(c, ops).trace, l) == []
    ensures l !in Members(Run(c, ops).after.listeners)
    decreases |ops|
  {
    if |ops| > 0 {
      var s1 := Apply(c, ops[0]);
      assert forall i :: 0 <= i < |ops[1..]| ==> ops[1..][i] == ops[i + 1];
      NeverSubscribedHearsNothing(s1.after, ops[1..], l);
      DeliveredToConcat(s1.trace, Run(s1.after, ops[1..]).trace, l);
    }
  }

  /** After `RemoveSelectionListener(l)`, `l` hears nothing for the rest of
      the session unless it subscribes again. */
  lemma UnsubscribedHearsNothing(c: Controller, ops: seq<Op>, l: Listener)
    requires forall i :: 0 <= i < |ops| ==> ops[i] != Subscribe(l)
    ensures DeliveredTo(Run(c, [Unsubscribe(l)] + ops).trace, l) == []
  {
    var s1 := Apply(c, Unsubscribe(l));
    var all := [Unsubscribe(l)] + ops;
    assert all[1..] == ops;
    NeverSubscribedHearsNothing(s1.after, ops, l);
    DeliveredToConcat(s1.trace, Run(s1.after, ops).trace, l);
  }

  /** A listener subscribed twice is called once, not twice, when the
      active line changes. */
  lemma SubscribedTwiceHearsOnce(c: Controller, l: Listener, x: Option<Line>)
    requires x != c.active
    ensures var c2 := AddSelectionListener(AddSelectionListener(c, l).after, l).after;
            DeliveredTo(SetActiveLine(c2, x).trace, l) == [ActiveLineChanged(x)]
  {
  }

  /** Setting the same active line twice announces it once: the second
      call changes nothing and calls nobody. */
  lemma SetActiveLineTwice(c: Controller, x: Option<Line>, l: Listener)
    requires x != c.active && l in Members(c.listeners)
    ensures var s1 := SetActiveLine(c, x);
            var s2 := SetActiveLine(s1.after, x);
            s2 == Step(s1.after, []) && DeliveredTo(s1.trace + s2.trace, l) == [ActiveLineChanged(x)]
  {
    var s1 := SetActiveLine(c, x);
    var s2 := SetActiveLine(s1.after, x);
    DeliveredToConcat(s1.trace, s2.trace, l);
  }

  /** At the last line of the document `NextLine` is a no-op. */
  lemma NextLineAtLastLine(c: Controller)
    requires |c.lines| > 0 && c.active == Some(c.lines[|c.lines| - 1])
    ensures NextLine(c) == Step(c, [])
  {
  }

  /** At the first line of the document `PrevLine` is a no-op. */
  lemma PrevLineAtFirstLine(c: Controller)
    requires |c.lines| > 0 && c.active == Some(c.lines[0])
    ensures PrevLine(c) == Step(c, [])
  {
  }

  /** `PrevLine` undoes the move of a successful `NextLine`, and leaves
      exactly the original line selected. */
  lemma NextThenPrev(c: Controller)
    requires c.active.Some? && NextOf(c.lines, c.active.value).Some?
    ensures ViewOf(PrevLine(NextLine(c).after).after) == View(c.active, [c.active.value])
  {
    var x := c.active.value;
    var y := NextOf(c.lines, x).value;
    NextPrevInverse(c.lines, x, y);
    var i :| 0 < i < |c.lines| && c.lines[i] == y;
  }
}
