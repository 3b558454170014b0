/** Where the entries of the board come from: in every interleaving each one carries the fields of one submission for its
    slot that passed the gates. */
module Provenance {
  import opened BidTables
  import opened Submission
  import opened Protocol
  import opened Quiescence

  /** Handler id works for the slot and has passed every gate. */
  ghost predicate Admitted(s: State, id: nat, slot: nat) {
    id in s.handlers && PastChecks(s.handlers[id]) && s.handlers[id].sub.slot == slot
  }

  ghost predicate PayloadFrom(s: State, slot: nat, h: string, u: PayloadUtils) {
    exists id :: Admitted(s, id, slot) && var sub := s.handlers[id].sub;
      sub.blockHash == h && u.builder == sub.builder && u.api == sub.api && u.header == sub.header
  }

  ghost predicate BidFrom(s: State, slot: nat, b: string, rec: BidRecord) {
    exists id :: Admitted(s, id, slot) && var sub := s.handlers[id].sub;
      sub.builder == b && rec.slot == slot && rec.proposer == sub.proposer && rec.value == sub.value && rec.header == sub.header
  }

  ghost predicate TimeFrom(s: State, slot: nat, b: string, at: nat) {
    exists id :: Admitted(s, id, slot) && s.handlers[id].sub.builder == b && s.handlers[id].sub.receivedAt == at
  }

  ghost predicate ValueFrom(s: State, slot: nat, b: string, value: int) {
    exists id :: Admitted(s, id, slot) && s.handlers[id].sub.builder == b && s.handlers[id].sub.value == value
  }

  ghost predicate BuilderFrom(s: State, slot: nat, b: string) {
    exists id :: Admitted(s, id, slot) && s.handlers[id].sub.builder == b
  }

  ghost predicate SomeBidFrom(s: State, slot: nat, rec: BidRecord) {
    exists b :: BidFrom(s, slot, b, rec)
  }

  ghost predicate RowsSourced(s: State, slot: nat) {
    && (forall h :: h in Row(s.tables.utils, slot) ==> PayloadFrom(s, slot, h, Row(s.tables.utils, slot)[h]))
    && (forall b :: b in Row(s.tables.bids, slot) ==> BidFrom(s, slot, b, Row(s.tables.bids, slot)[b]))
    && (forall b :: b in Row(s.tables.times, slot) ==> TimeFrom(s, slot, b, Row(s.tables.times, slot)[b]))
    && (forall b :: b in Row(s.tables.values, slot) ==> ValueFrom(s, slot, b, Row(s.tables.values, slot)[b]))
  }

  ghost predicate AnswersSourced(s: State, slot: nat) {
    && (slot in s.tables.highest ==> SomeBidFrom(s, slot, s.tables.highest[slot]))
    && (slot in s.tables.delivered ==> BuilderFrom(s, slot, s.tables.delivered[slot]))
    && (forall d :: d in s.deliveries && d.0 == slot ==> BuilderFrom(s, slot, d.1))
  }

  ghost predicate ReadSourced(s: State, h: Handler) {
    h.pc.ReadBid? ==> SomeBidFrom(s, h.sub.slot, h.pc.rec)
  }

  ghost predicate Sourced(s: State) {
    && (forall slot: nat :: RowsSourced(s, slot))
    && (forall slot: nat :: AnswersSourced(s, slot))
    && (forall id :: id in s.handlers ==> ReadSourced(s, s.handlers[id]))
  }

  // ----- sources stay

  ghost predicate SourcesStay(s: State, s': State) {
    forall id, slot: nat :: Admitted(s, id, slot) ==> Admitted(s', id, slot) && s'.handlers[id].sub == s.handlers[id].sub
  }

  lemma StepKeepsSources(s: State, l: Label)
    requires Enabled(s, l)
    ensures SourcesStay(s, Apply(s, l))
  {
  }

  lemma PayloadStays(s: State, s': State, slot: nat, h: string, u: PayloadUtils)
    requires SourcesStay(s, s') && PayloadFrom(s, slot, h, u)
    ensures PayloadFrom(s', slot, h, u)
  {
    var id :| Admitted(s, id, slot) && var sub := s.handlers[id].sub;
      sub.blockHash == h && u.builder == sub.builder && u.api == sub.api && u.header == sub.header;
    assert Admitted(s', id, slot);
  }

  lemma BidStays(s: State, s': State, slot: nat, b: string, rec: BidRecord)
    requires SourcesStay(s, s') && BidFrom(s, slot, b, rec)
    ensures BidFrom(s', slot, b, rec)
  {
    var id :| Admitted(s, id, slot) && var sub := s.handlers[id].sub;
      sub.builder == b && rec.slot == slot && rec.proposer == sub.proposer && rec.value == sub.value && rec.header == sub.header;
    assert Admitted(s', id, slot);
  }

  lemma SomeBidStays(s: State, s': State, slot: nat, rec: BidRecord)
    requires SourcesStay(s, s') && SomeBidFrom(s, slot, rec)
    ensures SomeBidFrom(s', slot, rec)
  {
    var b :| BidFrom(s, slot, b, rec);
    BidStays(s, s', slot, b, rec);
  }

  lemma BuilderStays(s: State, s': State, slot: nat, b: string)
    requires SourcesStay(s, s') && BuilderFrom(s, slot, b)
    ensures BuilderFrom(s', slot, b)
  {
    var id :| Admitted(s, id, slot) && s.handlers[id].sub.builder == b;
    assert Admitted(s', id, slot);
  }

  lemma TimeStays(s: State, s': State, slot: nat, b: string, at: nat)
    requires SourcesStay(s, s') && TimeFrom(s, slot, b, at)
    ensures TimeFrom(s', slot, b, at)
  {
    var id :| Admitted(s, id, slot) && s.handlers[id].sub.builder == b && s.handlers[id].sub.receivedAt == at;
    assert Admitted(s', id, slot);
  }

  lemma ValueStays(s: State, s': State, slot: nat, b: string, value: int)
    requires SourcesStay(s, s') && ValueFrom(s, slot, b, value)
    ensures ValueFrom(s', slot, b, value)
  {
    var id :| Admitted(s, id, slot) && s.handlers[id].sub.builder == b && s.handlers[id].sub.value == value;
    assert Admitted(s', id, slot);
  }

  // ----- one step

  /** A row entry after a step is either that of before, or the mover's own. */
  lemma MoverIsAdmitted(s: State, l: Label, slot: nat)
    requires Enabled(s, l) && l.Advance? && s.handlers[l.id].sub.slot == slot && PastChecks(s.handlers[l.id])
    ensures Admitted(Apply(s, l), l.id, slot) && Apply(s, l).handlers[l.id].sub == s.handlers[l.id].sub
  {
  }

  lemma StepRowsOf(s: State, l: Label, slot: nat)
    requires Enabled(s, l)
    ensures var t, t' := s.tables, Apply(s, l).tables;
      if l.Advance? && s.handlers[l.id].sub.slot == slot then
        t' == NextTables(t, s.handlers[l.id])
      else
        && Row(t'.utils, slot) == Row(t.utils, slot) && Row(t'.bids, slot) == Row(t.bids, slot)
        && Row(t'.times, slot) == Row(t.times, slot) && Row(t'.values, slot) == Row(t.values, slot)
  {
    if l.Advance? {
      OperationOnRows(s.tables, s.handlers[l.id], slot);
    }
  }

  lemma StepKeepsPayloadsSourced(s: State, l: Label, slot: nat)
    requires Enabled(s, l) && RowsSourced(s, slot)
    ensures var s' := Apply(s, l);
      && (forall h :: h in Row(s'.tables.utils, slot) ==> PayloadFrom(s', slot, h, Row(s'.tables.utils, slot)[h]))
      && (forall b :: b in Row(s'.tables.bids, slot) ==> BidFrom(s', slot, b, Row(s'.tables.bids, slot)[b]))
  {
    var s' := Apply(s, l);
    StepKeepsSources(s, l);
    StepRowsOf(s, l, slot);
    if l.Advance? && s.handlers[l.id].sub.slot == slot {
      OperationOnRows(s.tables, s.handlers[l.id], slot);
      if PastChecks(s.handlers[l.id]) {
        MoverIsAdmitted(s, l, slot);
      }
    }
    forall h | h in Row(s'.tables.utils, slot) ensures PayloadFrom(s', slot, h, Row(s'.tables.utils, slot)[h]) {
      if h in Row(s.tables.utils, slot) && Row(s'.tables.utils, slot)[h] == Row(s.tables.utils, slot)[h] {
        PayloadStays(s, s', slot, h, Row(s.tables.utils, slot)[h]);
      }
    }
    forall b | b in Row(s'.tables.bids, slot) ensures BidFrom(s', slot, b, Row(s'.tables.bids, slot)[b]) {
      if b in Row(s.tables.bids, slot) && Row(s'.tables.bids, slot)[b] == Row(s.tables.bids, slot)[b] {
        BidStays(s, s', slot, b, Row(s.tables.bids, slot)[b]);
      }
    }
  }

  lemma StepKeepsNumbersSourced(s: State, l: Label, slot: nat)
    requires Enabled(s, l) && RowsSourced(s, slot)
    ensures var s' := Apply(s, l);
      && (forall b :: b in Row(s'.tables.times, slot) ==> TimeFrom(s', slot, b, Row(s'.tables.times, slot)[b]))
      && (forall b :: b in Row(s'.tables.values, slot) ==> ValueFrom(s', slot, b, Row(s'.tables.values, slot)[b]))
  {
    var s' := Apply(s, l);
    StepKeepsSources(s, l);
    StepRowsOf(s, l, slot);
    if l.Advance? && s.handlers[l.id].sub.slot == slot {
      OperationOnRows(s.tables, s.handlers[l.id], slot);
      if PastChecks(s.handlers[l.id]) {
        MoverIsAdmitted(s, l, slot);
      }
    }
    forall b | b in Row(s'.tables.times, slot) ensures TimeFrom(s', slot, b, Row(s'.tables.times, slot)[b]) {
      if b in Row(s.tables.times, slot) && Row(s'.tables.times, slot)[b] == Row(s.tables.times, slot)[b] {
        TimeStays(s, s', slot, b, Row(s.tables.times, slot)[b]);
      }
    }
    forall b | b in Row(s'.tables.values, slot) ensures ValueFrom(s', slot, b, Row(s'.tables.values, slot)[b]) {
      if b in Row(s.tables.values, slot) && Row(s'.tables.values, slot)[b] == Row(s.tables.values, slot)[b] {
        ValueStays(s, s', slot, b, Row(s.tables.values, slot)[b]);
      }
    }
  }

  lemma OperationLeavesMarks(t: Tables, h: Handler)
    ensures NextTables(t, h).delivered == t.delivered
  {
    match h.pc
    case PassedChecks =>
    case WroteUtils =>
    case WroteBid =>
    case WroteTime =>
    case ReadBid(_, rec, _) => assert NextTables(t, h) == PutHighest(t, h.sub.slot, rec);
    case _ => assert NextTables(t, h) == t;
  }

  lemma DeliveredChanges(s: State, l: Label, slot: nat)
    requires Enabled(s, l) && slot in Apply(s, l).tables.delivered
    ensures var b := Apply(s, l).tables.delivered[slot];
      (slot in s.tables.delivered && s.tables.delivered[slot] == b) || exists d :: d in s.deliveries && d.0 == slot && d.1 == b
  {
    match l
    case Advance(id, _) => OperationLeavesMarks(s.tables, s.handlers[id]);
    case Deliver(other, builder) => assert (other, builder) in s.deliveries;
    case _ =>
  }

  /** The mark comes from a lookup, the lookup from a payload, and the highest record from a read bid. */
  lemma StepKeepsAnswersSourced(s: State, l: Label, slot: nat)
    requires Enabled(s, l) && AnswersSourced(s, slot) && RowsSourced(s, slot)
    requires l.Advance? ==> ReadSourced(s, s.handlers[l.id])
    ensures AnswersSourced(Apply(s, l), slot)
  {
    var s' := Apply(s, l);
    StepKeepsSources(s, l);
    HighestChanges(s, l, slot);
    if slot in s'.tables.highest {
      SomeBidStays(s, s', slot, s'.tables.highest[slot]);
    }
    forall d | d in s'.deliveries && d.0 == slot ensures BuilderFrom(s', slot, d.1) {
      if d !in s.deliveries {
        assert PayloadFrom(s, slot, l.blockHash, Row(s.tables.utils, slot)[l.blockHash]);
        assert BuilderFrom(s, slot, d.1);
      }
      BuilderStays(s, s', slot, d.1);
    }
    if slot in s'.tables.delivered {
      DeliveredChanges(s, l, slot);
      BuilderStays(s, s', slot, s'.tables.delivered[slot]);
    }
  }

  lemma StepKeepsReadSourced(s: State, l: Label, id: nat)
    requires Enabled(s, l) && Sourced(s) && id in Apply(s, l).handlers
    ensures ReadSourced(Apply(s, l), Apply(s, l).handlers[id])
  {
    var s' := Apply(s, l);
    var h := s'.handlers[id];
    StepKeepsSources(s, l);
    if h.pc.ReadBid? {
      var slot: nat := h.sub.slot;
      assert RowsSourced(s, slot) && ReadSourced(s, s.handlers[id]);
      if s.handlers[id].pc.ChoseTop? {
        assert BidFrom(s, slot, s.handlers[id].pc.top, h.pc.rec);
      }
      SomeBidStays(s, s', slot, h.pc.rec);
    }
  }

  lemma StepKeepsSourced(s: State, l: Label)
    requires Enabled(s, l) && Sourced(s)
    ensures Sourced(Apply(s, l))
  {
    var s' := Apply(s, l);
    forall slot: nat ensures RowsSourced(s', slot) && AnswersSourced(s', slot) {
      assert RowsSourced(s, slot) && AnswersSourced(s, slot);
      StepKeepsPayloadsSourced(s, l, slot);
      StepKeepsNumbersSourced(s, l, slot);
      StepKeepsAnswersSourced(s, l, slot);
    }
    forall id | id in s'.handlers ensures ReadSourced(s', s'.handlers[id]) {
      StepKeepsReadSourced(s, l, id);
    }
  }

  lemma {:induction false} RunKeepsSourced(s: State, labels: seq<Label>)
    requires Runs(s, labels) && Sourced(s)
    ensures Sourced(Exec(s, labels))
    decreases |labels|
  {
    if labels != [] {
      StepKeepsSourced(s, labels[0]);
      RunKeepsSourced(Apply(s, labels[0]), labels[1..]);
    }
  }

  // ----- every interleaving

  /** The payload under a block hash carries the builder, endpoint and header of one admitted submission with that hash. */
  lemma PayloadsHaveASource(labels: seq<Label>, slot: nat, h: string)
    requires Runs(START, labels) && h in Row(Exec(START, labels).tables.utils, slot)
    ensures var s := Exec(START, labels);
      var u := Row(s.tables.utils, slot)[h];
      exists id :: id in s.handlers && PastChecks(s.handlers[id]) && var sub := s.handlers[id].sub;
        sub.slot == slot && sub.blockHash == h && u.builder == sub.builder && u.api == sub.api && u.header == sub.header
  {
    var s := Exec(START, labels);
    RunKeepsSourced(START, labels);
    assert RowsSourced(s, slot);
    var id :| Admitted(s, id, slot) && var sub := s.handlers[id].sub;
      sub.blockHash == h && Row(s.tables.utils, slot)[h].builder == sub.builder
      && Row(s.tables.utils, slot)[h].api == sub.api && Row(s.tables.utils, slot)[h].header == sub.header;
    assert s.handlers[id].sub.slot == slot;
  }

  /** The record a proposer is shown carries the slot, proposer, value and header of one admitted submission. */
  lemma HighestHasASource(labels: seq<Label>, slot: nat)
    requires Runs(START, labels) && slot in Exec(START, labels).tables.highest
    ensures var s := Exec(START, labels);
      var rec := s.tables.highest[slot];
      exists id :: id in s.handlers && PastChecks(s.handlers[id]) && var sub := s.handlers[id].sub;
        sub.slot == slot == rec.slot && rec.proposer == sub.proposer && rec.value == sub.value && rec.header == sub.header
  {
    var s := Exec(START, labels);
    RunKeepsSourced(START, labels);
    assert AnswersSourced(s, slot);
    var rec := s.tables.highest[slot];
    var b :| BidFrom(s, slot, b, rec);
    var id :| Admitted(s, id, slot) && var sub := s.handlers[id].sub;
      sub.builder == b && rec.slot == slot && rec.proposer == sub.proposer && rec.value == sub.value && rec.header == sub.header;
    assert s.handlers[id].sub.slot == slot;
  }

  /** A delivered slot is marked with the builder of one admitted submission for it. */
  lemma DeliveriesHaveASource(labels: seq<Label>, slot: nat)
    requires Runs(START, labels) && slot in Exec(START, labels).tables.delivered
    ensures var s := Exec(START, labels);
      exists id :: id in s.handlers && PastChecks(s.handlers[id]) && s.handlers[id].sub.slot == slot
        && s.handlers[id].sub.builder == s.tables.delivered[slot]
  {
    var s := Exec(START, labels);
    RunKeepsSourced(START, labels);
    assert AnswersSourced(s, slot);
    var id :| Admitted(s, id, slot) && s.handlers[id].sub.builder == s.tables.delivered[slot];
    assert s.handlers[id].sub.slot == slot;
  }

  /** So do the stored bid, time and value of a builder, each with the field it stands for. */
  lemma RowsHaveASource(labels: seq<Label>, slot: nat, b: string)
    requires Runs(START, labels)
    ensures var s := Exec(START, labels);
      b in Row(s.tables.bids, slot) ==>
        var rec := Row(s.tables.bids, slot)[b];
        exists id :: id in s.handlers && PastChecks(s.handlers[id]) && var sub := s.handlers[id].sub;
          && sub.slot == slot == rec.slot && sub.builder == b
          && rec.proposer == sub.proposer && rec.value == sub.value && rec.header == sub.header
    ensures var s := Exec(START, labels);
      b in Row(s.tables.times, slot) ==>
        exists id :: id in s.handlers && PastChecks(s.handlers[id]) && s.handlers[id].sub.slot == slot
          && s.handlers[id].sub.builder == b && s.handlers[id].sub.receivedAt == Row(s.tables.times, slot)[b]
    ensures var s := Exec(START, labels);
      b in Row(s.tables.values, slot) ==>
        exists id :: id in s.handlers && PastChecks(s.handlers[id]) && s.handlers[id].sub.slot == slot
          && s.handlers[id].sub.builder == b && s.handlers[id].sub.value == Row(s.tables.values, slot)[b]
  {
    var s := Exec(START, labels);
    RunKeepsSourced(START, labels);
    assert RowsSourced(s, slot);
    if b in Row(s.tables.bids, slot) {
      var rec := Row(s.tables.bids, slot)[b];
      var id :| Admitted(s, id, slot) && var sub := s.handlers[id].sub;
        sub.builder == b && rec.slot == slot && rec.proposer == sub.proposer && rec.value == sub.value && rec.header == sub.header;
      assert s.handlers[id].sub.slot == slot;
    }
    if b in Row(s.tables.times, slot) {
      var id :| Admitted(s, id, slot) && s.handlers[id].sub.builder == b
        && s.handlers[id].sub.receivedAt == Row(s.tables.times, slot)[b];
      assert s.handlers[id].sub.slot == slot;
    }
    if b in Row(s.tables.values, slot) {
      var id :| Admitted(s, id, slot) && s.handlers[id].sub.builder == b && s.handlers[id].sub.value == Row(s.tables.values, slot)[b];
      assert s.handlers[id].sub.slot == slot;
    }
  }

  // ----- which submissions are admitted

  /** Past the gate of the slot number the slot is not beyond the next one; past the checks the hashes match. */
  ghost predicate GatesHeld(s: State, h: Handler) {
    && (!h.pc.Arrived? && !h.pc.PassedDelivered? && !h.pc.Refused? ==> h.sub.slot <= s.current + 1)
    && (PastChecks(h) ==> h.sub.header.blockHash == h.sub.blockHash && h.sub.header.parentHash == h.sub.parentHash)
  }

  lemma StepKeepsGatesHeld(s: State, l: Label, id: nat)
    requires Enabled(s, l) && id in Apply(s, l).handlers
    requires id in s.handlers ==> GatesHeld(s, s.handlers[id])
    ensures GatesHeld(Apply(s, l), Apply(s, l).handlers[id])
  {
  }

  lemma {:induction false} RunKeepsGatesHeld(s: State, labels: seq<Label>)
    requires Runs(s, labels) && forall id :: id in s.handlers ==> GatesHeld(s, s.handlers[id])
    ensures forall id :: id in Exec(s, labels).handlers ==> GatesHeld(Exec(s, labels), Exec(s, labels).handlers[id])
    decreases |labels|
  {
    if labels != [] {
      var s' := Apply(s, labels[0]);
      forall id | id in s'.handlers ensures GatesHeld(s', s'.handlers[id]) {
        StepKeepsGatesHeld(s, labels[0], id);
      }
      RunKeepsGatesHeld(s', labels[1..]);
    }
  }

  /** In every interleaving an admitted submission is for a slot the head has reached, or the next one, and its header
      carries the hashes it was submitted under. */
  lemma AdmittedIsInTimeAndSane(labels: seq<Label>, id: nat)
    requires Runs(START, labels) && id in Exec(START, labels).handlers && PastChecks(Exec(START, labels).handlers[id])
    ensures var s := Exec(START, labels);
      var sub := s.handlers[id].sub;
      sub.slot <= s.current + 1 && sub.header.blockHash == sub.blockHash && sub.header.parentHash == sub.parentHash
  {
    RunKeepsGatesHeld(START, labels);
  }
}
