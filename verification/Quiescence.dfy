/** When the highest key can be trusted after concurrent auctions. */
module Quiescence {
  import opened BidTables
  import opened Submission
  import opened Protocol
  import opened Schedules

  /** A handler has stored its bid but not yet its value. */
  predicate BetweenWrites(h: Handler, slot: nat, b: string) {
    h.sub.slot == slot && h.sub.builder == b && (h.pc == WroteBid || h.pc == WroteTime)
  }

  ghost predicate Unsettled(s: State, slot: nat, b: string) {
    exists id :: id in s.handlers && BetweenWrites(s.handlers[id], slot, b)
  }

  ghost predicate Settled(s: State, slot: nat, b: string) {
    var bids, values := Row(s.tables.bids, slot), Row(s.tables.values, slot);
    b in bids ==> Unsettled(s, slot, b) || (b in values && values[b] == bids[b].value)
  }

  /** Exactly the builders with a value have a stamp, and no stamp is ahead of the count. */
  ghost predicate Stamped(s: State, slot: nat) {
    var stamps := Row(s.stamps, slot);
    stamps.Keys == Row(s.tables.values, slot).Keys && forall b :: b in stamps ==> stamps[b] <= Count(s.writes, slot)
  }

  /** The builder's standing value was there when the read saw its first seen value writes. */
  predicate SeenBy(s: State, slot: nat, b: string, seen: nat) {
    b in Row(s.tables.values, slot) && b in Row(s.stamps, slot) && Row(s.stamps, slot)[b] <= seen
  }

  /** If the chosen builder has not written since the read, it is still a positive maximum of what the read saw. */
  ghost predicate TopOfSeen(s: State, slot: nat, top: string, seen: nat) {
    var values := Row(s.tables.values, slot);
    && top in values
    && (SeenBy(s, slot, top, seen) ==> values[top] > 0 && forall b :: SeenBy(s, slot, b, seen) ==> values[b] <= values[top])
  }

  /** And rec is its standing bid, unless it is between its two writes. */
  ghost predicate BidOfSeen(s: State, slot: nat, top: string, rec: BidRecord, seen: nat) {
    var bids := Row(s.tables.bids, slot);
    SeenBy(s, slot, top, seen) ==> Unsettled(s, slot, top) || (top in bids && rec == bids[top])
  }

  ghost predicate OwnBidStands(s: State, h: Handler) {
    h.pc == WroteBid || h.pc == WroteTime ==>
      h.sub.builder in Row(s.tables.bids, h.sub.slot) && Row(s.tables.bids, h.sub.slot)[h.sub.builder] == RecordOf(h.sub)
  }

  ghost predicate ReadIsFresh(s: State, h: Handler) {
    var slot := h.sub.slot;
    match h.pc
    case ChoseTop(top, seen) =>
      seen <= Count(s.writes, slot) && TopOfSeen(s, slot, top, seen)
    case ReadBid(top, rec, seen) =>
      seen <= Count(s.writes, slot) && TopOfSeen(s, slot, top, seen) && BidOfSeen(s, slot, top, rec, seen)
    case _ => true
  }

  ghost predicate HighestIsFresh(s: State, slot: nat) {
    slot in s.tables.highest ==>
      && slot in s.lastRead && s.lastRead[slot].seen <= Count(s.writes, slot)
      && TopOfSeen(s, slot, s.lastRead[slot].top, s.lastRead[slot].seen)
      && BidOfSeen(s, slot, s.lastRead[slot].top, s.tables.highest[slot], s.lastRead[slot].seen)
  }

  ghost predicate Tracked(s: State) {
    && (forall slot: nat, b: string :: Settled(s, slot, b))
    && (forall slot: nat :: Stamped(s, slot))
    && (forall id :: id in s.handlers ==> OwnBidStands(s, s.handlers[id]))
    && (forall id :: id in s.handlers ==> ReadIsFresh(s, s.handlers[id]))
    && (forall slot: nat :: HighestIsFresh(s, slot))
  }

  // ----- one step

  /** The step is the next operation of a handler of this slot that is at pc. */
  ghost predicate Moves(s: State, l: Label, pc: Pc, slot: nat) {
    l.Advance? && l.id in s.handlers && s.handlers[l.id].pc == pc && s.handlers[l.id].sub.slot == slot
  }

  /** What a step does to the bids and the values of one slot. */
  ghost predicate RowsEffect(s: State, l: Label, s': State, slot: nat) {
    && Row(s'.tables.bids, slot) == (if Moves(s, l, WroteUtils, slot)
         then Row(s.tables.bids, slot)[s.handlers[l.id].sub.builder := RecordOf(s.handlers[l.id].sub)]
         else Row(s.tables.bids, slot))
    && Row(s'.tables.values, slot) == (if Moves(s, l, WroteTime, slot)
         then Row(s.tables.values, slot)[s.handlers[l.id].sub.builder := s.handlers[l.id].sub.value]
         else Row(s.tables.values, slot))
  }

  /** And to the count and the stamps of its value writes. */
  ghost predicate StampsEffect(s: State, l: Label, s': State, slot: nat) {
    && Row(s'.stamps, slot) == (if Moves(s, l, WroteTime, slot)
         then Row(s.stamps, slot)[s.handlers[l.id].sub.builder := Count(s.writes, slot) + 1] else Row(s.stamps, slot))
    && Count(s'.writes, slot) == Count(s.writes, slot) + (if Moves(s, l, WroteTime, slot) then 1 else 0)
  }

  /** What a step does to the handlers around their two writes. */
  ghost predicate HandlersEffect(s: State, l: Label, s': State) {
    && (forall id :: id in s.handlers ==> id in s'.handlers && s'.handlers[id].sub == s.handlers[id].sub)
    && (forall id :: id in s.handlers && !(l.Advance? && l.id == id) && !(l.Fail? && l.id == id) ==> s'.handlers[id] == s.handlers[id])
    && (forall id :: id in s'.handlers && id !in s.handlers ==> s'.handlers[id].pc == Arrived)
    && (l.Fail? ==> l.id in s.handlers && s.handlers[l.id].pc == PassedSlot && s'.handlers[l.id].pc == Refused)
    && (l.Advance? ==> l.id in s.handlers)
    && (l.Advance? ==> (s.handlers[l.id].pc == WroteUtils <==> s'.handlers[l.id].pc == WroteBid))
    && (l.Advance? ==> (s.handlers[l.id].pc == WroteBid <==> s'.handlers[l.id].pc == WroteTime))
  }

  ghost predicate Effect(s: State, l: Label, s': State, slot: nat) {
    RowsEffect(s, l, s', slot) && StampsEffect(s, l, s', slot) && HandlersEffect(s, l, s')
  }

  lemma StepRows(s: State, l: Label, slot: nat)
    requires Enabled(s, l)
    ensures RowsEffect(s, l, Apply(s, l), slot)
  {
    if l.Advance? {
      OperationOnRows(s.tables, s.handlers[l.id], slot);
    }
  }

  lemma StepStamps(s: State, l: Label, slot: nat)
    requires Enabled(s, l)
    ensures StampsEffect(s, l, Apply(s, l), slot)
  {
  }

  lemma StepHandlers(s: State, l: Label)
    requires Enabled(s, l)
    ensures HandlersEffect(s, l, Apply(s, l))
  {
  }

  lemma StepEffect(s: State, l: Label, slot: nat)
    requires Enabled(s, l)
    ensures Effect(s, l, Apply(s, l), slot)
  {
    StepRows(s, l, slot);
    StepStamps(s, l, slot);
    StepHandlers(s, l);
  }

  /** Only the value write of the slot ends an unsettled phase. */
  lemma UnsettledSurvives(s: State, l: Label, s': State, slot: nat, b: string)
    requires Effect(s, l, s', slot) && Unsettled(s, slot, b)
    ensures Unsettled(s', slot, b) || (Moves(s, l, WroteTime, slot) && s.handlers[l.id].sub.builder == b)
  {
    var id :| id in s.handlers && BetweenWrites(s.handlers[id], slot, b);
    if !Moves(s, l, WroteTime, slot) || l.id != id {
      assert id in s'.handlers && BetweenWrites(s'.handlers[id], slot, b);
    }
  }

  /** Writing a bid starts one. */
  lemma BidWriteUnsettles(s: State, l: Label, s': State, slot: nat)
    requires Effect(s, l, s', slot) && Moves(s, l, WroteUtils, slot)
    ensures Unsettled(s', slot, s.handlers[l.id].sub.builder)
  {
    assert l.id in s'.handlers && BetweenWrites(s'.handlers[l.id], slot, s.handlers[l.id].sub.builder);
  }

  /** A value write takes its builder out of what earlier reads saw, and changes nothing about the others. */
  lemma TopOfSeenStands(s: State, l: Label, s': State, slot: nat, top: string, seen: nat)
    requires Effect(s, l, s', slot) && TopOfSeen(s, slot, top, seen) && seen <= Count(s.writes, slot)
    ensures TopOfSeen(s', slot, top, seen)
  {
    forall b: string ensures SeenBy(s', slot, b, seen) ==>
      SeenBy(s, slot, b, seen) && Row(s'.tables.values, slot)[b] == Row(s.tables.values, slot)[b] {
    }
  }

  lemma BidOfSeenStands(s: State, l: Label, s': State, slot: nat, top: string, rec: BidRecord, seen: nat)
    requires Effect(s, l, s', slot) && BidOfSeen(s, slot, top, rec, seen) && seen <= Count(s.writes, slot)
    ensures BidOfSeen(s', slot, top, rec, seen)
  {
    if SeenBy(s', slot, top, seen) {
      assert SeenBy(s, slot, top, seen) && !(Moves(s, l, WroteTime, slot) && s.handlers[l.id].sub.builder == top);
      if Unsettled(s, slot, top) {
        UnsettledSurvives(s, l, s', slot, top);
      } else if Moves(s, l, WroteUtils, slot) && s.handlers[l.id].sub.builder == top {
        BidWriteUnsettles(s, l, s', slot);
      }
    }
  }

  lemma StepKeepsSettled(s: State, l: Label, s': State, slot: nat, b: string)
    requires Effect(s, l, s', slot) && Settled(s, slot, b)
    requires l.Advance? && l.id in s.handlers ==> OwnBidStands(s, s.handlers[l.id])
    ensures Settled(s', slot, b)
  {
    if Moves(s, l, WroteUtils, slot) && s.handlers[l.id].sub.builder == b {
      BidWriteUnsettles(s, l, s', slot);
    } else if Unsettled(s, slot, b) {
      UnsettledSurvives(s, l, s', slot, b);
    }
  }

  lemma StepKeepsOwnBid(s: State, l: Label, s': State, id: nat)
    requires Exclusive(s) && id in s'.handlers && Effect(s, l, s', s'.handlers[id].sub.slot)
    requires id in s.handlers ==> OwnBidStands(s, s.handlers[id])
    ensures OwnBidStands(s', s'.handlers[id])
  {
    var h := s'.handlers[id];
    if id in s.handlers && (h.pc == WroteBid || h.pc == WroteTime) {
      if Moves(s, l, WroteUtils, h.sub.slot) && l.id != id {
        assert Active(s.handlers[id]) && Active(s.handlers[l.id]);
        assert s.handlers[l.id].sub.builder != h.sub.builder;
      }
    }
  }

  lemma StepKeepsReadFresh(s: State, l: Label, id: nat)
    requires Enabled(s, l) && id in Apply(s, l).handlers
    requires id in s.handlers ==> ReadIsFresh(s, s.handlers[id]) && Stamped(s, s.handlers[id].sub.slot)
    ensures ReadIsFresh(Apply(s, l), Apply(s, l).handlers[id])
  {
    var s' := Apply(s, l);
    var h := s'.handlers[id];
    StepEffect(s, l, h.sub.slot);
    if id in s.handlers {
      if l.Advance? && l.id == id {
        MoverReadsFresh(s, id, l.top);
      } else if h.pc.ChoseTop? {
        TopOfSeenStands(s, l, s', h.sub.slot, h.pc.top, h.pc.seen);
      } else if h.pc.ReadBid? {
        TopOfSeenStands(s, l, s', h.sub.slot, h.pc.top, h.pc.seen);
        BidOfSeenStands(s, l, s', h.sub.slot, h.pc.top, h.pc.rec, h.pc.seen);
      }
    }
  }

  /** The two reads of an auction record what they saw. */
  lemma MoverReadsFresh(s: State, id: nat, top: string)
    requires Enabled(s, Advance(id, top)) && ReadIsFresh(s, s.handlers[id]) && Stamped(s, s.handlers[id].sub.slot)
    ensures ReadIsFresh(Apply(s, Advance(id, top)), Apply(s, Advance(id, top)).handlers[id])
  {
    var s' := Apply(s, Advance(id, top));
    var h, slot := s.handlers[id], s.handlers[id].sub.slot;
    if h.pc == WroteValue && AnyPositive(Row(s.tables.values, slot)) {
      assert TopOfSeen(s', slot, top, Count(s.writes, slot));
    } else if h.pc.ChoseTop? && h.pc.top in Row(s.tables.bids, slot) {
      TopOfSeenStands(s, Advance(id, top), s', slot, h.pc.top, h.pc.seen) by { StepEffect(s, Advance(id, top), slot); }
      assert BidOfSeen(s', slot, h.pc.top, Row(s.tables.bids, slot)[h.pc.top], h.pc.seen);
    }
  }

  /** Only the last operation of an auction changes the highest key, to the bid it had read. */
  lemma HighestChanges(s: State, l: Label, slot: nat)
    requires Enabled(s, l)
    ensures var s' := Apply(s, l);
      if l.Advance? && s.handlers[l.id].pc.ReadBid? && s.handlers[l.id].sub.slot == slot then
        slot in s'.tables.highest && s'.tables.highest[slot] == s.handlers[l.id].pc.rec
        && slot in s'.lastRead && s'.lastRead[slot] == Read(s.handlers[l.id].pc.top, s.handlers[l.id].pc.seen)
      else
        (slot in s'.tables.highest <==> slot in s.tables.highest) && (slot in s.lastRead <==> slot in s'.lastRead)
        && (slot in s.tables.highest ==> s'.tables.highest[slot] == s.tables.highest[slot])
        && (slot in s.lastRead ==> s'.lastRead[slot] == s.lastRead[slot])
  {
  }

  lemma StepKeepsHighestFresh(s: State, l: Label, slot: nat)
    requires Enabled(s, l) && HighestIsFresh(s, slot)
    requires l.Advance? ==> ReadIsFresh(s, s.handlers[l.id])
    ensures HighestIsFresh(Apply(s, l), slot)
  {
    var s' := Apply(s, l);
    StepEffect(s, l, slot);
    HighestChanges(s, l, slot);
    if slot in s'.tables.highest {
      var rec, read := s'.tables.highest[slot], s'.lastRead[slot];
      TopOfSeenStands(s, l, s', slot, read.top, read.seen);
      BidOfSeenStands(s, l, s', slot, read.top, rec, read.seen);
    }
  }

  lemma StepKeepsStamped(s: State, l: Label, slot: nat)
    requires Enabled(s, l) && Stamped(s, slot)
    ensures Stamped(Apply(s, l), slot)
  {
    StepRows(s, l, slot);
    StepStamps(s, l, slot);
  }

  lemma StepKeepsTracked(s: State, l: Label)
    requires Enabled(s, l) && Tracked(s) && Exclusive(s)
    ensures Tracked(Apply(s, l))
  {
    var s' := Apply(s, l);
    forall slot: nat, b: string ensures Settled(s', slot, b) {
      StepEffect(s, l, slot);
      assert Settled(s, slot, b);
      StepKeepsSettled(s, l, s', slot, b);
    }
    forall slot: nat ensures Stamped(s', slot) {
      assert Stamped(s, slot);
      StepKeepsStamped(s, l, slot);
    }
    forall id | id in s'.handlers ensures OwnBidStands(s', s'.handlers[id]) && ReadIsFresh(s', s'.handlers[id]) {
      StepEffect(s, l, s'.handlers[id].sub.slot);
      StepKeepsOwnBid(s, l, s', id);
      StepKeepsReadFresh(s, l, id);
    }
    forall slot: nat ensures HighestIsFresh(s', slot) {
      assert HighestIsFresh(s, slot);
      StepKeepsHighestFresh(s, l, slot);
    }
  }

  lemma {:induction false} RunKeepsTracked(s: State, labels: seq<Label>)
    requires RunsExclusively(s, labels) && Tracked(s) && Runs(s, labels)
    ensures Tracked(Exec(s, labels))
    decreases |labels|
  {
    if labels != [] {
      StepKeepsTracked(s, labels[0]);
      ExclusiveRunIsRun(Apply(s, labels[0]), labels[1..]);
      RunKeepsTracked(Apply(s, labels[0]), labels[1..]);
    }
  }

  // ----- quiescence

  /** No submission for the slot is in flight. */
  ghost predicate Quiet(s: State, slot: nat) {
    forall id :: id in s.handlers && s.handlers[id].sub.slot == slot ==> !Active(s.handlers[id])
  }

  ghost predicate Unbeaten(values: map<string, int>, rec: BidRecord) {
    forall b :: b in values ==> values[b] <= rec.value
  }

  /** No value written after the read of the last auction exceeds what that auction stored. */
  ghost predicate NothingBetterSince(s: State, slot: nat, rec: BidRecord, seen: nat) {
    forall b :: b in Row(s.tables.values, slot) && !SeenBy(s, slot, b, seen) ==> Row(s.tables.values, slot)[b] <= rec.value
  }

  lemma UnbeatenSinceIsUnbeaten(s: State, slot: nat, rec: BidRecord, top: string, seen: nat)
    requires TopOfSeen(s, slot, top, seen) && SeenBy(s, slot, top, seen) && rec.value == Row(s.tables.values, slot)[top]
    ensures NothingBetterSince(s, slot, rec, seen) <==> Unbeaten(Row(s.tables.values, slot), rec)
  {
    var values := Row(s.tables.values, slot);
    if NothingBetterSince(s, slot, rec, seen) {
      forall b | b in values ensures values[b] <= rec.value {
        if SeenBy(s, slot, b, seen) {
          assert values[b] <= values[top];
        }
      }
    }
  }

  lemma QuietIsSettled(s: State, slot: nat, b: string)
    requires Quiet(s, slot)
    ensures !Unsettled(s, slot, b)
  {
  }

  ghost predicate TablesAgree(t: Tables, slot: nat) {
    var bids, values := Row(t.bids, slot), Row(t.values, slot);
    bids.Keys == values.Keys && forall b :: b in bids ==> values[b] == bids[b].value
  }

  /** The builder chosen by the last auction to write has stored no value since that auction's read. */
  ghost predicate ChosenStands(s: State, slot: nat) {
    slot in s.lastRead && SeenBy(s, slot, s.lastRead[slot].top, s.lastRead[slot].seen)
  }

  lemma QuietTablesAgree(s: State, slot: nat)
    requires Tracked(s) && SlotNested(s.tables, slot) && Quiet(s, slot)
    ensures TablesAgree(s.tables, slot)
  {
    var bids, values := Row(s.tables.bids, slot), Row(s.tables.values, slot);
    forall b | b in bids ensures b in values && values[b] == bids[b].value {
      assert Settled(s, slot, b);
      QuietIsSettled(s, slot, b);
    }
  }

  /** At quiescence the bid and value tables agree for every builder. And if the builder chosen by the last auction to
      write has stored no value since its read, the highest key holds that builder's standing bid, which is maximal
      exactly when no standing value written after the read exceeds it. */
  lemma QuietSlotIsDecided(labels: seq<Label>, slot: nat)
    requires RunsExclusively(START, labels) && Runs(START, labels) && Quiet(Exec(START, labels), slot)
    ensures var bids, values := Row(Exec(START, labels).tables.bids, slot), Row(Exec(START, labels).tables.values, slot);
            bids.Keys == values.Keys && forall b :: b in bids ==> values[b] == bids[b].value
    ensures var s := Exec(START, labels);
            slot in s.tables.highest ==> slot in s.lastRead
    ensures var s := Exec(START, labels);
            var bids, values := Row(s.tables.bids, slot), Row(s.tables.values, slot);
            slot in s.tables.highest && ChosenStands(s, slot) ==>
              var rec, read := s.tables.highest[slot], s.lastRead[slot];
              && read.top in bids && rec == bids[read.top] && rec.value == values[read.top] > 0
              && ((forall b :: b in values ==> values[b] <= rec.value) <==>
                  (forall b :: b in values && !SeenBy(s, slot, b, read.seen) ==> values[b] <= rec.value))
  {
    var s := Exec(START, labels);
    RunKeepsTracked(START, labels);
    RunKeepsNested(START, labels);
    assert SlotNested(s.tables, slot);
    QuietTablesAgree(s, slot);
    assert HighestIsFresh(s, slot);
    if slot in s.tables.highest && ChosenStands(s, slot) {
      var rec, read := s.tables.highest[slot], s.lastRead[slot];
      QuietIsSettled(s, slot, read.top);
      UnbeatenSinceIsUnbeaten(s, slot, rec, read.top, read.seen);
    }
  }

  /** In particular when the last auction had read after every value write. */
  lemma LastReadDecides(labels: seq<Label>, slot: nat)
    requires RunsExclusively(START, labels) && Runs(START, labels) && Quiet(Exec(START, labels), slot)
    requires var s := Exec(START, labels);
      slot in s.tables.highest && slot in s.lastRead && s.lastRead[slot].seen == Count(s.writes, slot)
    ensures var s := Exec(START, labels);
            var bids, values := Row(s.tables.bids, slot), Row(s.tables.values, slot);
            exists b :: IsTop(values, b) && b in bids && s.tables.highest[slot] == bids[b] && bids[b].value == values[b]
  {
    var s := Exec(START, labels);
    RunKeepsTracked(START, labels);
    assert Stamped(s, slot) && HighestIsFresh(s, slot);
    QuietSlotIsDecided(labels, slot);
    forall b | b in Row(s.tables.values, slot) ensures SeenBy(s, slot, b, s.lastRead[slot].seen) {
    }
    assert IsTop(Row(s.tables.values, slot), s.lastRead[slot].top);
  }
}
