/** Runs of Protocol put together from pieces: what can be reached, with or without two bids of one builder in flight. */
module Schedules {
  import Words
  import opened BidTables
  import opened Protocol

  /** At most one submission per builder and slot is in flight. */
  ghost predicate Exclusive(s: State) {
    forall i, j :: i in s.handlers && j in s.handlers && i != j && Active(s.handlers[i]) && Active(s.handlers[j])
      ==> s.handlers[i].sub.builder != s.handlers[j].sub.builder || s.handlers[i].sub.slot != s.handlers[j].sub.slot
  }

  ghost predicate RunsExclusively(s: State, labels: seq<Label>)
    decreases |labels|
  {
    Exclusive(s) && (labels == [] || (Enabled(s, labels[0]) && RunsExclusively(Apply(s, labels[0]), labels[1..])))
  }

  lemma {:induction false} ExclusiveRunIsRun(s: State, labels: seq<Label>)
    requires RunsExclusively(s, labels)
    ensures Runs(s, labels)
    decreases |labels|
  {
    if labels != [] {
      ExclusiveRunIsRun(Apply(s, labels[0]), labels[1..]);
    }
  }

  ghost predicate Path(s: State, labels: seq<Label>, s': State, exclusive: bool) {
    Runs(s, labels) && Exec(s, labels) == s' && (exclusive ==> RunsExclusively(s, labels))
  }

  ghost predicate Reaches(s: State, s': State, exclusive: bool) {
    exists labels :: Path(s, labels, s', exclusive)
  }

  lemma {:induction false} PathsCompose(s: State, a: seq<Label>, m: State, b: seq<Label>, s': State, exclusive: bool)
    requires Path(s, a, m, exclusive) && Path(m, b, s', exclusive)
    ensures Path(s, a + b, s', exclusive)
    decreases |a|
  {
    if a == [] {
      assert a + b == b;
    } else {
      PathsCompose(Apply(s, a[0]), a[1..], m, b, s', exclusive);
      assert (a + b)[1..] == a[1..] + b;
    }
  }

  lemma ReachesCompose(s: State, m: State, s': State, exclusive: bool)
    requires Reaches(s, m, exclusive) && Reaches(m, s', exclusive)
    ensures Reaches(s, s', exclusive)
  {
    var a :| Path(s, a, m, exclusive);
    var b :| Path(m, b, s', exclusive);
    PathsCompose(s, a, m, b, s', exclusive);
  }

  lemma ReachesItself(s: State, exclusive: bool)
    requires exclusive ==> Exclusive(s)
    ensures Reaches(s, s, exclusive)
  {
    assert Path(s, [], s, exclusive);
  }

  lemma ReachesNext(origin: State, s: State, l: Label, exclusive: bool) returns (s': State)
    requires Reaches(origin, s, exclusive) && Enabled(s, l)
    requires exclusive ==> Exclusive(s) && Exclusive(Apply(s, l))
    ensures s' == Apply(s, l) && Reaches(origin, s', exclusive)
  {
    s' := Apply(s, l);
    var one := [l];
    assert one[0] == l && one[1..] == [];
    assert Runs(s', one[1..]) && Exec(s, one) == Exec(s', one[1..]);
    assert exclusive ==> RunsExclusively(s', one[1..]);
    assert Path(s, one, s', exclusive);
    ReachesCompose(origin, s, s', exclusive);
  }

  /** A step of a handler already in flight cannot make two bids of one builder meet. */
  lemma AdvanceKeepsExclusive(s: State, id: nat, top: string)
    requires Exclusive(s) && Enabled(s, Advance(id, top))
    ensures Exclusive(Apply(s, Advance(id, top)))
  {
    var s' := Apply(s, Advance(id, top));
    assert forall i :: i in s'.handlers ==> i in s.handlers && s'.handlers[i].sub == s.handlers[i].sub;
    assert forall i :: i in s'.handlers && Active(s'.handlers[i]) ==> Active(s.handlers[i]);
  }

  /** The state in which the gate of a slot is open and nothing has happened yet. */
  function OpenFor(slot: Words.Uint64): State {
    START.(current := slot)
  }

  lemma SlotOpens(slot: Words.Uint64)
    ensures Reaches(START, OpenFor(slot), true) && Reaches(START, OpenFor(slot), false)
  {
    ReachesItself(START, true);
    ReachesItself(START, false);
    if slot > 0 {
      var s := ReachesNext(START, START, Head(slot), true);
      s := ReachesNext(START, START, Head(slot), false);
    }
  }

  // ----- one handler left alone

  /** At most steps operations of one handler, with nobody in between. */
  ghost function Alone(s: State, id: nat, top: string, steps: nat): State
    decreases steps
  {
    if steps == 0 || !Enabled(s, Advance(id, top)) then s
    else Alone(Apply(s, Advance(id, top)), id, top, steps - 1)
  }

  lemma {:induction false} AloneReaches(s: State, id: nat, top: string, steps: nat, exclusive: bool)
    requires exclusive ==> Exclusive(s)
    ensures Reaches(s, Alone(s, id, top, steps), exclusive)
    ensures exclusive ==> Exclusive(Alone(s, id, top, steps))
    decreases steps
  {
    ReachesItself(s, exclusive);
    if steps > 0 && Enabled(s, Advance(id, top)) {
      if exclusive {
        AdvanceKeepsExclusive(s, id, top);
      }
      var s' := ReachesNext(s, s, Advance(id, top), exclusive);
      AloneReaches(s', id, top, steps - 1, exclusive);
      ReachesCompose(s, s', Alone(s, id, top, steps), exclusive);
    }
  }

  /** It leaves the head, the marks and every other handler alone. */
  lemma {:induction false} AloneFrame(s: State, id: nat, top: string, steps: nat)
    requires id in s.handlers
    ensures var end := Alone(s, id, top, steps);
      && end.current == s.current && end.tables.delivered == s.tables.delivered
      && id in end.handlers && end.handlers == s.handlers[id := end.handlers[id]]
      && end.handlers[id].sub == s.handlers[id].sub
    decreases steps
  {
    if steps > 0 && Enabled(s, Advance(id, top)) {
      AloneFrame(Apply(s, Advance(id, top)), id, top, steps - 1);
    }
  }

  lemma {:induction false} AloneComposes(s: State, id: nat, top: string, m: nat, n: nat)
    ensures Alone(s, id, top, m + n) == Alone(Alone(s, id, top, m), id, top, n)
    decreases m
  {
    if m > 0 && Enabled(s, Advance(id, top)) {
      AloneComposes(Apply(s, Advance(id, top)), id, top, m - 1, n);
    }
  }
}
