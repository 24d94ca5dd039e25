/** The listener bookkeeping of `BaseSubtitleSelectionController`.

    The base controller keeps its listeners in a `std::set` of pointers: a
    collection without duplicates, held in increasing pointer order, that it
    walks from the smallest pointer up when it announces a change. `Registry`
    is that representation. Its contracts speak only of which listeners are
    registered (`Members`) and of what each listener receives (`DeliveredTo`);
    the order in which different listeners are called is not part of any
    promise, because pointer order carries no meaning. */
module ListenerRegistry {
  import opened Subtitles
  import opened Notifications

  /** Strictly increasing addresses: sorted, and so free of duplicates. */
  predicate Ordered(s: seq<Listener>) {
    forall i, j :: 0 <= i < j < |s| ==> s[i].addr < s[j].addr
  }

  /** The contents of a `std::set<SubtitleSelectionListener *>`. */
  type Registry = s: seq<Listener> | Ordered(s) witness []

  /** The listeners currently registered. */
  function Members(r: seq<Listener>): set<Listener> {
    set l | l in r
  }

  /** The members of a registry are its first listener and those after it. */
  lemma MembersCons(x: Listener, s: seq<Listener>)
    ensures Members([x] + s) == {x} + Members(s)
  {
  }

  /** Putting `x` in front of an ordered sequence whose addresses all exceed
      its own keeps it ordered. */
  lemma PrependOrdered(x: Listener, s: Registry)
    requires forall k :: 0 <= k < |s| ==> x.addr < s[k].addr
    ensures Ordered([x] + s)
  {
  }

  /** The first listener of a registry comes before every other member. */
  lemma FirstIsLeast(r: Registry)
    requires |r| > 0
    ensures forall m :: m in Members(r[1..]) ==> r[0].addr < m.addr
  {
  }

  /** Re-attaching the first listener of `r` in front of `rest`, a registry
      whose members all come after it, yields an ordered sequence holding it
      and the members of `rest`. */
  lemma ReattachFirst(r: Registry, rest: Registry)
    requires |r| > 0
    requires forall m :: m in Members(rest) ==> r[0].addr < m.addr
    ensures Ordered([r[0]] + rest)
    ensures Members([r[0]] + rest) == {r[0]} + Members(rest)
    ensures Members(r) == {r[0]} + Members(r[1..])
  {
  }

  /** The step of `Add` past a first listener that comes before `l`. */
  lemma AddPastFirst(r: Registry, l: Listener, rest: Registry)
    requires |r| > 0 && r[0].addr < l.addr
    requires Members(rest) == Members(r[1..]) + {l}
    requires l in Members(r[1..]) ==> rest == r[1..]
    requires l !in Members(r[1..]) ==> |rest| == |r|
    ensures Ordered([r[0]] + rest)
    ensures Members([r[0]] + rest) == Members(r) + {l}
    ensures l in Members(r) ==> [r[0]] + rest == r
    ensures l !in Members(r) ==> |[r[0]] + rest| == |r| + 1
  {
    FirstIsLeast(r);
    ReattachFirst(r, rest);
    assert r == [r[0]] + r[1..];
  }

  /** `listeners.insert(listener)`: set insertion, which keeps a listener
      that is already present exactly once. */
  function Add(r: Registry, l: Listener): (r': Registry)
    ensures Members(r') == Members(r) + {l}
    ensures l in Members(r) ==> r' == r
    ensures l !in Members(r) ==> |r'| == |r| + 1
    decreases |r|
  {
    if |r| == 0 then
      MembersCons(l, r);
      [l]
    else if l.addr < r[0].addr then
      PrependOrdered(l, r);
      MembersCons(l, r);
      [l] + r
    else if l.addr == r[0].addr then r
    else
      var rest := Add(r[1..], l);
      AddPastFirst(r, l, rest);
      [r[0]] + rest
  }

  /** `listeners.erase(listener)`: removes the listener if present and does
      nothing otherwise. */
  function Remove(r: Registry, l: Listener): (r': Registry)
    ensures Members(r') == Members(r) - {l}
    ensures l !in Members(r) ==> r' == r
    ensures l in Members(r) ==> |r'| == |r| - 1
    decreases |r|
  {
    if |r| == 0 then r
    else if r[0] == l then
      FirstIsLeast(r);
      MembersCons(r[0], r[1..]);
      assert r == [r[0]] + r[1..];
      r[1..]
    else
      var rest := Remove(r[1..], l);
      FirstIsLeast(r);
      ReattachFirst(r, rest);
      [r[0]] + rest
  }

  /** The loop shared by both announcements: one callback per registered
      listener, each carrying `e`. Nobody else is called, and with no
      listener registered nothing is called at all. */
  function Announce(r: Registry, e: Event): (t: Trace)
    ensures forall l :: DeliveredTo(t, l) == if l in Members(r) then [e] else []
    decreases |r|
  {
    if |r| == 0 then []
    else
      var tail: Registry := r[1..];
      var rest := Announce(tail, e);
      assert r[0] !in Members(tail);
      assert forall l :: DeliveredTo([Delivery(r[0], e)] + rest, l)
                       == (if l == r[0] then [e] else []) + DeliveredTo(rest, l);
      [Delivery(r[0], e)] + rest
  }

  /** `AnnounceActiveLineChanged(new_line)`: every registered listener's
      `OnActiveLineChanged` is called once with `new_line`. */
  function AnnounceActiveLineChanged(r: Registry, newLine: Option<Line>): (t: Trace)
    ensures forall l :: DeliveredTo(t, l) == if l in Members(r) then [ActiveLineChanged(newLine)] else []
  {
    Announce(r, ActiveLineChanged(newLine))
  }

  /** `AnnounceSelectedSetChanged(new_selection)`: every registered
      listener's `OnSelectedSetChanged` is called once with `new_selection`. */
  function AnnounceSelectedSetChanged(r: Registry, newSelection: Selection): (t: Trace)
    ensures forall l :: DeliveredTo(t, l) == if l in Members(r) then [SelectedSetChanged(newSelection)] else []
  {
    Announce(r, SelectedSetChanged(newSelection))
  }

  /** Only the empty sequence has no members. */
  lemma NoMembersIsEmpty(s: seq<Listener>)
    ensures Members(s) == {} ==> s == []
  {
    if |s| > 0 {
      assert s[0] in Members(s);
    }
  }

  /** A registry is determined by its members: two registries holding the
      same listeners are the same registry. This is what makes `Add` and
      `Remove` behave as operations on a set. */
  lemma {:induction false} SameMembersSameRegistry(a: Registry, b: Registry)
    requires Members(a) == Members(b)
    ensures a == b
    decreases |a|
  {
    if |a| == 0 {
      NoMembersIsEmpty(a);
      NoMembersIsEmpty(b);
    } else {
      assert a[0] in Members(b);
      assert |b| > 0;
      assert b[0] in Members(a);
      assert a[0] == b[0];
      var ta: Registry := a[1..];
      var tb: Registry := b[1..];
      assert a[0] !in ta;
      assert b[0] !in tb;
      assert Members(ta) == Members(a) - {a[0]};
      assert Members(tb) == Members(b) - {b[0]};
      SameMembersSameRegistry(ta, tb);
      assert a == [a[0]] + ta;
      assert b == [b[0]] + tb;
    }
  }

  /** Registering a new listener and then unregistering it restores the
      registry exactly. */
  lemma AddThenRemove(r: Registry, l: Listener)
    requires l !in Members(r)
    ensures Remove(Add(r, l), l) == r
  {
    SameMembersSameRegistry(Remove(Add(r, l), l), r);
  }

  /** Unregistering a registered listener and registering it again restores
      the registry exactly. */
  lemma RemoveThenAdd(r: Registry, l: Listener)
    requires l in Members(r)
    ensures Add(Remove(r, l), l) == r
  {
    SameMembersSameRegistry(Add(Remove(r, l), l), r);
  }

  /** The order in which listeners subscribe does not matter. */
  lemma AddCommutes(r: Registry, a: Listener, b: Listener)
    ensures Add(Add(r, a), b) == Add(Add(r, b), a)
  {
    SameMembersSameRegistry(Add(Add(r, a), b), Add(Add(r, b), a));
  }
}
