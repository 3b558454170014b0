/** Which handlers can still write a slot once it is delivered or behind the head. */
module Closing {
  import Words
  import opened BidTables
  import opened Submission
  import opened Protocol
  import opened Schedules
  import opened SoloRun

  /** In flight, and past the check that the slot is not delivered. */
  predicate InsideDelivered(h: Handler) {
    !h.pc.Arrived? && !h.pc.Refused? && !h.pc.Done?
  }

  /** In flight, and past the check of the slot number as well. */
  predicate InsideSlot(h: Handler) {
    InsideDelivered(h) && !h.pc.PassedDelivered?
  }

  /** The handler id works on this slot and is inside the given gate. */
  ghost predicate Inside(s: State, id: nat, slot: nat, bySlot: bool) {
    id in s.handlers && s.handlers[id].sub.slot == slot
      && if bySlot then InsideSlot(s.handlers[id]) else InsideDelivered(s.handlers[id])
  }

  /** The gate that refuses newcomers: the slot number for a slot behind the head, otherwise the delivered mark. */
  ghost predicate ClosedBy(s: State, slot: nat, bySlot: bool) {
    if bySlot then slot < s.current && !(slot == 0 && s.current == Words.TWO_64 - 1) else slot in s.tables.delivered
  }

  /** Only the last head of the 64-bit range reopens a slot behind it, and only slot 0. */
  predicate KeepsClosed(labels: seq<Label>, slot: nat, bySlot: bool) {
    bySlot && slot == 0 ==> Head(Words.TWO_64 - 1) !in labels
  }

  lemma StepKeepsClosed(s: State, l: Label, slot: nat, bySlot: bool)
    requires Enabled(s, l) && ClosedBy(s, slot, bySlot) && KeepsClosed([l], slot, bySlot)
    ensures ClosedBy(Apply(s, l), slot, bySlot)
  {
    assert l in [l];
  }

  /** Nobody gets inside a gate that has closed. */
  lemma StepAdmitsNobody(s: State, l: Label, slot: nat, bySlot: bool, id: nat)
    requires Enabled(s, l) && ClosedBy(s, slot, bySlot) && Inside(Apply(s, l), id, slot, bySlot)
    ensures Inside(s, id, slot, bySlot)
  {
  }

  lemma {:induction false} RunAdmitsNobody(s: State, labels: seq<Label>, slot: nat, bySlot: bool, id: nat)
    requires Runs(s, labels) && ClosedBy(s, slot, bySlot) && KeepsClosed(labels, slot, bySlot)
    requires Inside(Exec(s, labels), id, slot, bySlot)
    ensures Inside(s, id, slot, bySlot)
    decreases |labels|
  {
    if labels != [] {
      StepKeepsClosed(s, labels[0], slot, bySlot);
      RunAdmitsNobody(Apply(s, labels[0]), labels[1..], slot, bySlot, id);
      StepAdmitsNobody(s, labels[0], slot, bySlot, id);
    }
  }

  lemma OperationTouchesOwnSlot(t: Tables, h: Handler, slot: nat)
    requires h.sub.slot != slot || !InsideSlot(h)
    ensures RowsOf(NextTables(t, h), slot) == RowsOf(t, slot)
  {
    var sub := h.sub;
    match h.pc
    case PassedChecks => UtilsTouchOneSlot(t, sub.slot, sub.blockHash, UtilsOf(sub), slot);
    case WroteUtils => BidTouchesOneSlot(t, sub.builder, RecordOf(sub), slot);
    case WroteBid => TimeTouchesOneSlot(t, sub.slot, sub.builder, sub.receivedAt, slot);
    case WroteTime => ValueTouchesOneSlot(t, sub.slot, sub.builder, sub.value, slot);
    case ReadBid(_, rec, _) => HighestTouchesOneSlot(t, sub.slot, rec, slot);
    case _ =>
  }

  /** The rows of a slot change only by a handler of that slot inside both gates. */
  lemma OnlyInsidersWrite(s: State, l: Label, slot: nat, bySlot: bool)
    requires Enabled(s, l) && RowsOf(Apply(s, l).tables, slot) != RowsOf(s.tables, slot)
    ensures l.Advance? && Inside(s, l.id, slot, bySlot)
  {
    if l.Advance? && (s.handlers[l.id].sub.slot != slot || !InsideSlot(s.handlers[l.id])) {
      OperationTouchesOwnSlot(s.tables, s.handlers[l.id], slot);
    }
  }

  /** Over every interleaving: whatever changes a closed slot's rows is a handler that was already inside the gate
      when the slot closed. */
  lemma LateWriterWasInside(s: State, labels: seq<Label>, l: Label, slot: nat, bySlot: bool)
    requires Runs(s, labels) && Enabled(Exec(s, labels), l)
    requires ClosedBy(s, slot, bySlot) && KeepsClosed(labels, slot, bySlot)
    requires RowsOf(Apply(Exec(s, labels), l).tables, slot) != RowsOf(Exec(s, labels).tables, slot)
    ensures l.Advance? && Inside(s, l.id, slot, bySlot)
  {
    OnlyInsidersWrite(Exec(s, labels), l, slot, bySlot);
    RunAdmitsNobody(s, labels, slot, bySlot, l.id);
  }

  /** So a slot that closes with nobody inside is final. */
  lemma {:induction false} ClosedEmptySlotIsFinal(s: State, labels: seq<Label>, slot: nat, bySlot: bool)
    requires Runs(s, labels) && ClosedBy(s, slot, bySlot) && KeepsClosed(labels, slot, bySlot)
    requires forall id :: !Inside(s, id, slot, bySlot)
    ensures RowsOf(Exec(s, labels).tables, slot) == RowsOf(s.tables, slot)
    decreases |labels|
  {
    if labels != [] {
      var s' := Apply(s, labels[0]);
      if RowsOf(s'.tables, slot) != RowsOf(s.tables, slot) {
        OnlyInsidersWrite(s, labels[0], slot, bySlot);
      }
      forall id ensures !Inside(s', id, slot, bySlot) {
        if Inside(s', id, slot, bySlot) {
          StepAdmitsNobody(s, labels[0], slot, bySlot, id);
        }
      }
      StepKeepsClosed(s, labels[0], slot, bySlot);
      ClosedEmptySlotIsFinal(s', labels[1..], slot, bySlot);
    }
  }

  /** The late handler has passed the first gate before the first submission does anything. */
  lemma LateIsBetweenGates(first: Submission, late: Submission) returns (s: State)
    requires first.slot == late.slot && first.builder != late.builder
    ensures Reaches(START, s, true) && Exclusive(s)
    ensures s == OpenFor(first.slot).(handlers := map[0 := Handler(first, Arrived), 1 := Handler(late, PassedDelivered)])
  {
    SlotOpens(first.slot);
    s := ReachesNext(START, OpenFor(first.slot), Arrive(0, first), true);
    s := ReachesNext(START, s, Arrive(1, late), true);
    AdvanceKeepsExclusive(s, 1, "");
    s := ReachesNext(START, s, Advance(1, ""), true);
  }

  /** Then the first stores its payload. */
  lemma FirstPays(first: Submission, late: Submission) returns (s: State)
    requires first.slot == late.slot && first.builder != late.builder && Sane(first)
    ensures Reaches(START, s, true) && Exclusive(s) && s.current == late.slot
    ensures 1 in s.handlers && s.handlers[1] == Handler(late, PassedDelivered)
    ensures s.tables == PutUtils(EMPTY, first.slot, first.blockHash, UtilsOf(first))
  {
    var a := LateIsBetweenGates(first, late);
    s := Alone(a, 0, "", 4);
    AloneReaches(a, 0, "", 4, true);
    ReachesCompose(START, a, s, true);
    AloneFrame(a, 0, "", 4);
    Gates(a, 0, "");
    AloneComposes(a, 0, "", 3, 1);
    NextIs(Alone(a, 0, "", 3), 0, "", 1);
  }

  /** And the slot is delivered for it. */
  lemma FirstIsDelivered(first: Submission, late: Submission) returns (s: State)
    requires first.slot == late.slot && first.builder != late.builder && Sane(first)
    ensures Reaches(START, s, true) && s.current == late.slot && late.slot as nat in s.tables.delivered
    ensures 1 in s.handlers && s.handlers[1] == Handler(late, PassedDelivered)
    ensures late.builder !in Row(s.tables.times, late.slot)
    ensures forall h :: h in Row(s.tables.utils, late.slot) ==> Row(s.tables.utils, late.slot)[h] == UtilsOf(first)
  {
    s := FirstPays(first, late);
    s := ReachesNext(START, s, Lookup(first.slot, first.blockHash), true);
    s := ReachesNext(START, s, Deliver(first.slot, first.builder), true);
  }

  lemma LateWrites(s: State, late: Submission)
    requires 1 in s.handlers && s.handlers[1] == Handler(late, PassedDelivered)
    requires s.current == late.slot && Sane(late) && late.builder !in Row(s.tables.times, late.slot)
    ensures Alone(s, 1, "", 3).tables == PutUtils(s.tables, late.slot, late.blockHash, UtilsOf(late))
  {
    NextIs(s, 1, "", 3);
    var s1 := Apply(s, Advance(1, ""));
    NextIs(s1, 1, "", 2);
    NextIs(Apply(s1, Advance(1, "")), 1, "", 1);
  }

  /** The mark does not stop a handler already past the first gate: for any two submissions of different builders the
      slot can be delivered for the first while the second has still to pass the gate of the slot number; left alone,
      the second then passes it and writes. */
  lemma DeliveredSlotIsStillWritten(first: Submission, late: Submission) returns (s: State)
    requires first.slot == late.slot && first.builder != late.builder && Sane(first) && Sane(late)
    ensures Reaches(START, s, true)
    ensures late.slot as nat in s.tables.delivered && 1 in s.handlers && s.handlers[1] == Handler(late, PassedDelivered)
    ensures RowsOf(Alone(s, 1, "", 3).tables, late.slot) != RowsOf(s.tables, late.slot)
  {
    s := FirstIsDelivered(first, late);
    LateWrites(s, late);
    var t, t' := s.tables, Alone(s, 1, "", 3).tables;
    assert Row(t'.utils, late.slot)[late.blockHash] == UtilsOf(late) != UtilsOf(first);
    assert RowsOf(t', late.slot).utils != RowsOf(t, late.slot).utils;
  }
}
