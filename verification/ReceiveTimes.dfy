/** Stored receive times under concurrency: they never go back as long as no builder has two bids of a slot in flight. */
module ReceiveTimes {
  import opened BidTables
  import opened Submission
  import opened Protocol
  import opened Schedules
  import opened SoloRun
  import opened Quiescence

  ghost predicate Readable(s: State, slot: nat) {
    forall b :: b in Row(s.tables.times, slot) ==> Row(s.tables.times, slot)[b] <= MAX_INT64
  }

  /** Past its checks and before it writes its time, a handler is not earlier than the time stored for its builder. */
  ghost predicate NotOvertaken(s: State, h: Handler) {
    var times := Row(s.tables.times, h.sub.slot);
    h.pc in {PassedChecks, WroteUtils, WroteBid} && h.sub.builder in times ==> times[h.sub.builder] <= h.sub.receivedAt
  }

  ghost predicate InOrder(s: State) {
    && (forall slot: nat :: Readable(s, slot))
    && (forall id :: id in s.handlers ==> NotOvertaken(s, s.handlers[id]))
  }

  lemma StepTimes(s: State, l: Label, slot: nat)
    requires Enabled(s, l)
    ensures Row(Apply(s, l).tables.times, slot) == if Moves(s, l, WroteBid, slot)
      then Row(s.tables.times, slot)[s.handlers[l.id].sub.builder := s.handlers[l.id].sub.receivedAt as nat]
      else Row(s.tables.times, slot)
  {
    if l.Advance? {
      OperationOnRows(s.tables, s.handlers[l.id], slot);
    }
  }

  lemma StepKeepsNotOvertaken(s: State, l: Label, id: nat)
    requires Enabled(s, l) && Exclusive(s) && InOrder(s) && id in Apply(s, l).handlers
    ensures NotOvertaken(Apply(s, l), Apply(s, l).handlers[id])
  {
    var h := Apply(s, l).handlers[id];
    StepTimes(s, l, h.sub.slot);
    if id in s.handlers {
      assert NotOvertaken(s, s.handlers[id]) && Readable(s, h.sub.slot);
      if Moves(s, l, WroteBid, h.sub.slot) && l.id != id && Active(s.handlers[id]) {
        assert s.handlers[l.id].sub.builder != h.sub.builder;
      }
    }
  }

  lemma StepKeepsInOrder(s: State, l: Label)
    requires Enabled(s, l) && Exclusive(s) && InOrder(s)
    ensures InOrder(Apply(s, l))
  {
    forall slot: nat ensures Readable(Apply(s, l), slot) {
      assert Readable(s, slot);
      StepTimes(s, l, slot);
    }
    forall id | id in Apply(s, l).handlers ensures NotOvertaken(Apply(s, l), Apply(s, l).handlers[id]) {
      StepKeepsNotOvertaken(s, l, id);
    }
  }

  lemma {:induction false} RunKeepsInOrder(s: State, labels: seq<Label>)
    requires RunsExclusively(s, labels) && Runs(s, labels) && InOrder(s)
    ensures InOrder(Exec(s, labels))
    decreases |labels|
  {
    if labels != [] {
      StepKeepsInOrder(s, labels[0]);
      RunKeepsInOrder(Apply(s, labels[0]), labels[1..]);
    }
  }

  lemma StepRaisesTimes(s: State, l: Label, slot: nat, b: string)
    requires Enabled(s, l) && InOrder(s) && b in Row(s.tables.times, slot)
    ensures b in Row(Apply(s, l).tables.times, slot)
    ensures Row(s.tables.times, slot)[b] <= Row(Apply(s, l).tables.times, slot)[b]
  {
    StepTimes(s, l, slot);
    if l.Advance? {
      assert NotOvertaken(s, s.handlers[l.id]);
    }
  }

  lemma {:induction false} RunRaisesTimes(s: State, labels: seq<Label>, slot: nat, b: string)
    requires RunsExclusively(s, labels) && Runs(s, labels) && InOrder(s) && b in Row(s.tables.times, slot)
    ensures b in Row(Exec(s, labels).tables.times, slot)
    ensures Row(s.tables.times, slot)[b] <= Row(Exec(s, labels).tables.times, slot)[b]
    decreases |labels|
  {
    if labels != [] {
      StepRaisesTimes(s, labels[0], slot, b);
      StepKeepsInOrder(s, labels[0]);
      RunRaisesTimes(Apply(s, labels[0]), labels[1..], slot, b);
    }
  }

  /** Between any two moments of an exclusive run, no stored time goes back. */
  lemma ExclusiveTimesNeverDecrease(s: State, s': State, slot: nat, b: string)
    requires Reaches(START, s, true) && Reaches(s, s', true) && b in Row(s.tables.times, slot)
    ensures b in Row(s'.tables.times, slot) && Row(s.tables.times, slot)[b] <= Row(s'.tables.times, slot)[b]
  {
    var before :| Path(START, before, s, true);
    RunKeepsInOrder(START, before);
    var after :| Path(s, after, s', true);
    RunRaisesTimes(s, after, slot, b);
  }

  /** With two bids of one builder in flight it can: the earlier one passes its check before the later one is stored,
      and writes after it. */
  lemma TimesDecreaseWithoutExclusion(early: Submission, late: Submission) returns (s: State, s': State)
    requires early.slot == late.slot && early.builder == late.builder && early.receivedAt < late.receivedAt
    requires Sane(early) && Sane(late)
    ensures Reaches(START, s, false) && Reaches(s, s', false)
    ensures var before, after := Row(s.tables.times, late.slot), Row(s'.tables.times, late.slot);
      late.builder in before && late.builder in after && after[late.builder] < before[late.builder]
  {
    var m := EarlyPassesChecks(early, late);
    s := Alone(m, 1, "", 7);
    AloneReaches(m, 1, "", 7, false);
    ReachesCompose(START, m, s, false);
    Submits(m, 1, "");
    AloneFrame(m, 1, "", 7);
    s' := Alone(s, 0, "", 4);
    AloneReaches(s, 0, "", 4, false);
    Writes(s, 0, "");
  }

  lemma EarlyPassesChecks(early: Submission, late: Submission) returns (m: State)
    requires early.slot == late.slot && Sane(early)
    ensures Reaches(START, m, false) && m.tables == EMPTY && m.current == early.slot
    ensures m.handlers == map[0 := Handler(early, PassedChecks), 1 := Handler(late, Arrived)]
  {
    SlotOpens(early.slot);
    var a := ReachesNext(START, OpenFor(early.slot), Arrive(0, early), false);
    a := ReachesNext(START, a, Arrive(1, late), false);
    Gates(a, 0, "");
    AloneFrame(a, 0, "", 3);
    AloneReaches(a, 0, "", 3, false);
    m := Alone(a, 0, "", 3);
    ReachesCompose(START, a, m, false);
  }
}
