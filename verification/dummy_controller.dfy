/** `DummySubtitleSelectionController`: a controller that does nothing and
    can be considered to work on an empty subtitle file. Its observable state
    is therefore always no active line and an empty selection; it holds no
    listeners and never calls one. */
module DummyController {
  import opened Subtitles
  import opened Notifications
  import opened ListenerRegistry
  import opened SelectionContract

  /** The dummy has no state. */
  datatype Dummy = Dummy

  /** What the dummy stands for, by its own description: an empty subtitle
      file, with no active line and nothing selected. */
  function ViewOf(d: Dummy): View {
    View(None, [])
  }

  /** The dummy registers nobody. */
  const NoListeners: Registry := []

  /** `GetActiveLine()` returns NULL. */
  function GetActiveLine(d: Dummy): Option<Line> {
    None
  }

  /** `GetSelectedSet(selection)` as written: the out-parameter is returned
      as the caller passed it in. */
  function GetSelectedSetAsWritten(d: Dummy, selection: Selection): (r: Selection)
    ensures selection != [] ==> r != ViewOf(d).selection
  {
    selection
  }

  /** `GetSelectedSet(selection)` as the interface describes it: the
      out-parameter is filled with the selected set, which for an empty file
      is empty, whatever the caller passed in. */
  function GetSelectedSet(d: Dummy, selection: Selection): (r: Selection)
    ensures r == ViewOf(d).selection
  {
    []
  }

  /** A caller that passes in any non-empty vector gets back lines the
      dummy never selected; the corrected reading never does. */
  lemma StaleSelectionSurvives(d: Dummy)
    ensures forall sel :: sel != [] ==> GetSelectedSetAsWritten(d, sel) != ViewOf(d).selection
    ensures forall sel :: GetSelectedSet(d, sel) == ViewOf(d).selection
  {
  }

  /** Every mutator, and subscribing or unsubscribing, is an empty body: the
      state stays the same and nothing is delivered. The dummy holds no line,
      so it refuses every non-NULL active line and every non-empty selection;
      it honours the contract only because `Honours` lets a controller refuse
      a line it does not hold, which the interface's comments do not say. */
  function Apply(d: Dummy, op: Op): (s: Step<Dummy>)
    ensures Honours(op, ViewOf(d), ViewOf(s.after), {}, NoListeners, s.trace)
    ensures GetActiveLine(s.after) == None
  {
    Step(d, [])
  }

  /** A session on the dummy: whatever the operations, no listener is ever
      called; afterwards `GetActiveLine` still returns NULL, and
      `GetSelectedSet` as written still hands back whatever vector it is
      given. */
  function Run(d: Dummy, ops: seq<Op>): (s: Step<Dummy>)
    ensures s.trace == []
    ensures GetActiveLine(s.after) == None
    ensures forall sel :: GetSelectedSetAsWritten(s.after, sel) == sel
    decreases |ops|
  {
    if |ops| == 0 then Step(d, [])
    else
      var s1 := Apply(d, ops[0]);
      var s2 := Run(s1.after, ops[1..]);
      Step(s2.after, s1.trace + s2.trace)
  }
}
