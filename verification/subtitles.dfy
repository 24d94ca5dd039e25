/** Subtitle lines and selections as a selection controller sees them.

    A controller never looks inside a subtitle line: it only compares line
    pointers for identity. A line is therefore modelled by its address alone,
    and a pointer that may be NULL by an `Option`. */
module Subtitles {

  /** A non-NULL `AssDialogue *`: an opaque identity. */
  datatype Line = Line(addr: nat)

  /** A pointer that may be NULL (`None`). */
  datatype Option<+T> = None | Some(value: T)

  /** `SubtitleSelection` is a vector of line pointers, not a set: its order
      and any repetition are observable, so two selections are identical
      exactly when they are equal sequences. */
  type Selection = seq<Line>
}

/** Change notifications and the trace of their deliveries to listeners. */
module Notifications {
  import opened Subtitles

  /** A non-NULL `SubtitleSelectionListener *`, identified by its address. */
  datatype Listener = Listener(addr: nat)

  /** The two callbacks a listener offers, with the value they carry. */
  datatype Event =
    | ActiveLineChanged(newLine: Option<Line>)
    | SelectedSetChanged(newSelection: Selection)

  /** One callback invocation: `event` was delivered to listener `to`. */
  datatype Delivery = Delivery(to: Listener, event: Event)

  /** The callbacks an operation made, in the order it made them. */
  type Trace = seq<Delivery>

  /** The events listener `l` received from trace `t`, in order. */
  function DeliveredTo(t: Trace, l: Listener): seq<Event>
    decreases |t|
  {
    if |t| == 0 then []
    else (if t[0].to == l then [t[0].event] else []) + DeliveredTo(t[1..], l)
  }

  /** What a listener receives from two traces run one after the other. */
  lemma {:induction false} DeliveredToConcat(a: Trace, b: Trace, l: Listener)
    ensures DeliveredTo(a + b, l) == DeliveredTo(a, l) + DeliveredTo(b, l)
    decreases |a|
  {
    if |a| == 0 {
      assert a + b == b;
    } else {
      assert (a + b)[1..] == a[1..] + b;
      DeliveredToConcat(a[1..], b, l);
    }
  }

  /** A non-empty trace is heard by at least its first recipient. */
  lemma FirstRecipientHears(t: Trace)
    requires |t| > 0
    ensures DeliveredTo(t, t[0].to) != []
  {
  }
}
