/** relay/relay.go: the handlers, run one at a time, and what every serial run keeps. */
module Relay {
  import opened Text
  import opened Words
  import opened BidTables
  import opened BidBoard
  import opened Submission
  import HeadTracker

  /** Verdicts on a submission that do not depend on the board: builder status, block time, and the signatures. */
  datatype Verdicts = Verdicts(active: bool, timely: bool, signed: bool)

  datatype Outcome =
    | InactiveBuilder | WrongTimestamp | AlreadyDelivered | WrongSlot | Insane | BadSignature | UsingNewerBid
    | StoreFailed | AuctionFailed | Accepted(builder: string, value: int)

  /** The answer of the gates, or None when all pass. */
  function Refusal(t: Tables, current: Uint64, sub: Submission, v: Verdicts): Option<Outcome> {
    if !v.active then Some(InactiveBuilder)
    else if !v.timely then Some(WrongTimestamp)
    else if sub.slot in t.delivered then Some(AlreadyDelivered)
    else if !SlotOpen(current, sub.slot) then Some(WrongSlot)
    else if !Sane(sub) then Some(Insane)
    else if !v.signed then Some(BadSignature)
    else if Overtaken(t, sub) then Some(UsingNewerBid)
    else None
  }

  function Respond(out: AuctionOutcome): Outcome {
    match out
    case Won(b, value) => Accepted(b, value)
    case _ => AuctionFailed
  }

  /** One whole submission, as a relation: a refusal changes nothing, otherwise the writes and one auction happen. */
  ghost predicate Handled(t: Tables, current: Uint64, sub: Submission, v: Verdicts, t': Tables, out: Outcome) {
    match Refusal(t, current, sub, v)
    case Some(refusal) => out == refusal && t' == t
    case None => exists a: AuctionOutcome :: out == Respond(a) && Auctioned(Submitted(t, sub), sub.slot, t', a)
  }

  class Relay {
    const board: BidBoard
    var currentSlot: Uint64
    ghost var heads: seq<HeadTracker.HeadEvent>

    ghost predicate Valid()
      reads this, board
    {
      board.Valid() && SerialInv(board.tables) && currentSlot == HeadTracker.Track(heads).slot
    }

    constructor ()
      ensures Valid() && board.tables == EMPTY && heads == [] && fresh(board)
    {
      board := new BidBoard();
      currentSlot := 0;
      heads := [];
    }

    method HandleSubmitBlock(sub: Submission, v: Verdicts) returns (out: Outcome)
      requires Valid()
      modifies board
      ensures Valid()
      ensures Handled(old(board.tables), currentSlot, sub, v, board.tables, out)
    {
      HandledKeepsInv(board.tables, currentSlot, sub, v);
      if !v.active {
        return InactiveBuilder;
      }
      if !v.timely {
        return WrongTimestamp;
      }
      var delivered := board.GetPayloadDelivered(sub.slot);
      if delivered.Some? {
        return AlreadyDelivered;
      }
      var relaySlot: int := currentSlot;
      if sub.slot != relaySlot && sub.slot != WrapUint64(relaySlot + 1) {
        return WrongSlot;
      }
      if sub.blockHash != sub.header.blockHash || sub.parentHash != sub.header.parentHash {
        return Insane;
      }
      if !v.signed {
        return BadSignature;
      }
      var last := board.BuilderBlockLast(sub.slot, sub.builder);
      // An unreadable time is answered with an error, but the handler goes on.
      if last.Last? && sub.receivedAt < last.at {
        return UsingNewerBid;
      }
      var ok := board.SavePayloadUtils(sub.slot, sub.blockHash, UtilsOf(sub));
      if !ok {
        return StoreFailed;
      }
      ok := board.SaveBuilderBid(sub.slot, sub.builder, sub.proposer, sub.receivedAt, sub.value, sub.header);
      if !ok {
        return StoreFailed;
      }
      assert board.tables == Submitted(old(board.tables), sub);
      var auction := board.AuctionBid(sub.slot);
      out := Respond(auction);
      assert Auctioned(Submitted(old(board.tables), sub), sub.slot, board.tables, auction);
      assert Handled(old(board.tables), currentSlot, sub, v, board.tables, out);
    }

    /** The header a proposer is given is one whose payload the board can later find. A record for another slot or
        proposer is complained about, and still served; the invariant rules out the other slot. */
    method HandleProposerHeader(slot: Uint64, proposer: string) returns (r: Option<BidRecord>, complaint: bool)
      requires Valid()
      ensures r == if slot in board.tables.highest then Some(board.tables.highest[slot]) else None
      ensures r.Some? ==> Servable(board.tables, slot, r.value)
      ensures complaint <==> r.Some? && r.value.proposer != proposer
    {
      r := board.WinningBid(slot);
      complaint := r.Some? && (r.value.slot != slot || r.value.proposer != proposer);
      assert SlotInv(board.tables, slot);
    }

    /** The builder answers or not; only an answer marks the slot delivered, for the builder of the stored payload. */
    method HandleProposerPayload(slot: Uint64, blockHash: string, builderAnswers: bool) returns (builder: Option<string>)
      requires Valid()
      modifies board
      ensures Valid()
      ensures var row := Row(old(board.tables).utils, slot);
              if blockHash in row && builderAnswers
              then builder == Some(row[blockHash].builder)
                && board.tables == old(board.tables).(delivered := old(board.tables).delivered[slot := row[blockHash].builder])
              else builder == None && board.tables == old(board.tables)
    {
      var found := board.GetPayloadUtils(slot, blockHash);
      if found.None? || !builderAnswers {
        return None;
      }
      var ok := board.PutPayloadDelivered(slot, found.value.builder);
      DeliveryKeepsInv(old(board.tables), slot, found.value.builder);
      return Some(found.value.builder);
    }

    /** Whatever the order of the events, the gates compare with the largest slot received so far. */
    method NewHead(ev: HeadTracker.HeadEvent)
      requires Valid()
      modifies this
      ensures Valid() && heads == old(heads) + [ev]
      ensures forall e :: e in heads ==> e.slot <= currentSlot
      ensures currentSlot == 0 || exists e :: e in heads && e.slot == currentSlot
    {
      heads := heads + [ev];
      assert heads[..|heads| - 1] == old(heads);
      if ev.slot > currentSlot {
        currentSlot := ev.slot;
      }
      HeadTracker.TrackIsFirstMaximum(heads);
    }
  }

  // ----- what every serial run keeps

  /** The rows of one slot are about the same builders, and every bid's payload can be found. */
  ghost predicate SlotConsistent(t: Tables, slot: nat) {
    var bids, times, values, utils := Row(t.bids, slot), Row(t.times, slot), Row(t.values, slot), Row(t.utils, slot);
    && bids.Keys == times.Keys == values.Keys
    && (forall b :: b in bids ==> bids[b].slot == slot && values[b] == bids[b].value && bids[b].header.blockHash in utils)
    && (forall h :: h in utils ==> utils[h].header.blockHash == h)
    && (forall b :: b in times ==> times[b] <= MAX_INT64)
  }

  /** A record a proposer may be shown: it is for the slot, and its payload can be looked up under its block hash. */
  ghost predicate Servable(t: Tables, slot: nat, rec: BidRecord) {
    var hash, utils := rec.header.blockHash, Row(t.utils, slot);
    rec.slot == slot && hash in utils && utils[hash].header.blockHash == hash
  }

  ghost predicate IsBest(t: Tables, slot: nat, b: string, rec: BidRecord) {
    var values, bids := Row(t.values, slot), Row(t.bids, slot);
    && b in values && b in bids && rec == bids[b] && rec.value == values[b]
    && forall c :: c in values ==> values[c] <= values[b]
  }

  /** The highest key holds the bid of a builder none of the latest bids exceeds. */
  ghost predicate HighestIsBest(t: Tables, slot: nat) {
    slot in t.highest && exists b :: IsBest(t, slot, b, t.highest[slot])
  }

  ghost predicate HighestServable(t: Tables, slot: nat) {
    slot in t.highest ==> t.highest[slot].value > 0 && Servable(t, slot, t.highest[slot])
  }

  ghost predicate HighestSound(t: Tables, slot: nat) {
    HighestServable(t, slot) && (AnyPositive(Row(t.values, slot)) ==> HighestIsBest(t, slot))
  }

  ghost predicate SlotInv(t: Tables, slot: nat) {
    SlotConsistent(t, slot) && HighestSound(t, slot)
  }

  ghost predicate SerialInv(t: Tables) {
    forall slot: nat :: SlotInv(t, slot)
  }

  lemma OtherSlotsSame(t: Tables, sub: Submission, slot: nat)
    requires slot != sub.slot
    ensures RowsOf(Submitted(t, sub), slot) == RowsOf(t, slot)
  {
  }

  lemma SameRowsSameInv(t: Tables, t': Tables, slot: nat)
    requires RowsOf(t', slot) == RowsOf(t, slot) && SlotInv(t, slot)
    ensures SlotInv(t', slot)
  {
    assert RowsOf(t', slot).highest == RowsOf(t, slot).highest;
    if AnyPositive(Row(t.values, slot)) {
      var b :| IsBest(t, slot, b, t.highest[slot]);
      assert IsBest(t', slot, b, t'.highest[slot]);
    }
  }

  lemma DeliveryKeepsInv(t: Tables, slot: nat, builder: string)
    requires SerialInv(t)
    ensures SerialInv(PutDelivered(t, slot, builder))
  {
    forall s: nat ensures SlotInv(PutDelivered(t, slot, builder), s) {
      assert SlotInv(t, s);
      SameRowsSameInv(t, PutDelivered(t, slot, builder), s);
    }
  }

  lemma SubmittedConsistent(t: Tables, sub: Submission)
    requires SlotInv(t, sub.slot) && Sane(sub)
    ensures SlotConsistent(Submitted(t, sub), sub.slot) && HighestServable(Submitted(t, sub), sub.slot)
  {
  }

  lemma AuctionKeepsInv(t: Tables, slot: nat, t': Tables, out: AuctionOutcome)
    requires SlotConsistent(t, slot) && HighestServable(t, slot) && Auctioned(t, slot, t', out)
    ensures SlotInv(t', slot) && t'.values == t.values
    ensures forall s: nat :: s != slot ==> RowsOf(t', s) == RowsOf(t, s)
    ensures out.Won? <==> AnyPositive(Row(t.values, slot))
    ensures out.Won? ==> slot in t'.highest && IsBest(t', slot, out.builder, t'.highest[slot]) && out.value == t'.highest[slot].value
  {
    var values, bids := Row(t.values, slot), Row(t.bids, slot);
    if AnyPositive(values) {
      var top :| IsTop(values, top)
              && if top in bids then out == Won(top, values[top]) && t' == PutHighest(t, slot, bids[top])
                 else out == MissingBid && t' == t;
      assert top in bids;
      assert IsBest(t', slot, top, t'.highest[slot]);
    }
  }

  lemma HandledKeepsInv(t: Tables, current: Uint64, sub: Submission, v: Verdicts)
    requires SerialInv(t)
    ensures forall t', out :: Handled(t, current, sub, v, t', out) ==> SerialInv(t')
  {
    if Refusal(t, current, sub, v).None? {
      forall t', out | Handled(t, current, sub, v, t', out) ensures SerialInv(t') {
        var a: AuctionOutcome :| out == Respond(a) && Auctioned(Submitted(t, sub), sub.slot, t', a);
        assert SlotInv(t, sub.slot);
        SubmittedConsistent(t, sub);
        AuctionKeepsInv(Submitted(t, sub), sub.slot, t', a);
        forall slot: nat ensures SlotInv(t', slot) {
          if slot != sub.slot {
            assert SlotInv(t, slot);
            OtherSlotsSame(t, sub, slot);
            SameRowsSameInv(t, t', slot);
          }
        }
      }
    }
  }

  lemma AuctionFrame(t: Tables, slot: nat, t': Tables, a: AuctionOutcome)
    requires Auctioned(t, slot, t', a)
    ensures t' == t.(highest := t'.highest)
    ensures forall s: nat :: s != slot ==> RowsOf(t', s) == RowsOf(t, s)
  {
  }

  /** What passing the gates changes: the submission's own rows by its writes, and the highest key of its slot. */
  lemma HandledFrame(t: Tables, current: Uint64, sub: Submission, v: Verdicts, t': Tables, out: Outcome)
    requires Handled(t, current, sub, v, t', out) && Refusal(t, current, sub, v).None?
    ensures t'.times == Put(t.times, sub.slot, sub.builder, sub.receivedAt as nat) && t'.delivered == t.delivered
    ensures t'.values == Put(t.values, sub.slot, sub.builder, sub.value)
    ensures forall s: nat :: s != sub.slot ==> RowsOf(t', s) == RowsOf(t, s)
  {
    var a: AuctionOutcome :| out == Respond(a) && Auctioned(Submitted(t, sub), sub.slot, t', a);
    AuctionFrame(Submitted(t, sub), sub.slot, t', a);
    forall s: nat | s != sub.slot ensures RowsOf(t', s) == RowsOf(t, s) {
      OtherSlotsSame(t, sub, s);
    }
  }

  lemma AuctionAnswersTheBest(t: Tables, slot: nat, t': Tables, a: AuctionOutcome)
    requires SlotConsistent(t, slot) && HighestServable(t, slot) && Auctioned(t, slot, t', a)
    ensures Respond(a).Accepted? <==> AnyPositive(Row(t'.values, slot))
    ensures Respond(a).Accepted? ==> slot in t'.highest && IsBest(t', slot, Respond(a).builder, t'.highest[slot])
    ensures Respond(a).Accepted? ==> Respond(a).value == t'.highest[slot].value
  {
    AuctionKeepsInv(t, slot, t', a);
  }

  /** An accepted submission is answered with the best latest bid of the slot, the one the highest key now holds. */
  lemma AcceptedAnswersTheBest(t: Tables, current: Uint64, sub: Submission, v: Verdicts, t': Tables, out: Outcome)
    requires SerialInv(t) && Handled(t, current, sub, v, t', out) && Refusal(t, current, sub, v).None?
    ensures out.Accepted? <==> AnyPositive(Row(t'.values, sub.slot))
    ensures out.Accepted? ==> sub.slot in t'.highest && IsBest(t', sub.slot, out.builder, t'.highest[sub.slot])
    ensures out.Accepted? ==> out.value == t'.highest[sub.slot].value
    ensures Row(t'.values, sub.slot) == Row(t.values, sub.slot)[sub.builder := sub.value]
  {
    var a: AuctionOutcome :| out == Respond(a) && Auctioned(Submitted(t, sub), sub.slot, t', a);
    assert SlotInv(t, sub.slot);
    SubmittedConsistent(t, sub);
    AuctionAnswersTheBest(Submitted(t, sub), sub.slot, t', a);
    HandledFrame(t, current, sub, v, t', out);
  }

  /** Exactly when the highest key can be trusted: some builder's latest bid is positive. Otherwise the auction
      refuses and the key keeps whatever an earlier auction stored. */
  lemma HighestIsBestExactlyWhenSomeBidIsPositive(t: Tables, slot: nat)
    requires SerialInv(t)
    ensures HighestIsBest(t, slot) <==> AnyPositive(Row(t.values, slot))
  {
    assert SlotInv(t, slot);
    if HighestIsBest(t, slot) {
      var b :| IsBest(t, slot, b, t.highest[slot]);
      assert Row(t.values, slot)[b] > 0;
    }
  }

  lemma TimesNeverDecrease(t: Tables, current: Uint64, sub: Submission, v: Verdicts, t': Tables, out: Outcome, slot: nat, b: string)
    requires SerialInv(t) && Handled(t, current, sub, v, t', out) && b in Row(t.times, slot)
    ensures b in Row(t'.times, slot) && Row(t.times, slot)[b] <= Row(t'.times, slot)[b]
  {
    assert SlotInv(t, slot);
    if Refusal(t, current, sub, v).None? {
      HandledFrame(t, current, sub, v, t', out);
    }
  }

  // ----- serial runs and closed slots

  datatype Op = Submit(sub: Submission, verdicts: Verdicts) | Head(slot: Uint64) | Deliver(slot: Uint64, builder: string)

  datatype SerialState = SerialState(tables: Tables, current: Uint64)

  ghost predicate SerialStep(s: SerialState, op: Op, s': SerialState) {
    match op
    case Submit(sub, v) => s'.current == s.current && exists out :: Handled(s.tables, s.current, sub, v, s'.tables, out)
    case Head(slot) => s' == s.(current := if slot > s.current then slot else s.current)
    case Deliver(slot, builder) => s' == s.(tables := PutDelivered(s.tables, slot, builder))
  }

  ghost predicate SerialRun(states: seq<SerialState>, ops: seq<Op>) {
    |states| == |ops| + 1 && forall i :: 0 <= i < |ops| ==> SerialStep(states[i], ops[i], states[i + 1])
  }

  /** Delivered, or refused by the gate of the slot number: see PastSlotIsClosed. */
  ghost predicate Closed(s: SerialState, slot: nat) {
    slot in s.tables.delivered || (slot < s.current && !(slot == 0 && s.current == TWO_64 - 1))
  }

  /** Only the last head of the 64-bit range reopens a slot behind it, and only slot 0. */
  predicate KeepsClosed(ops: seq<Op>, slot: nat) {
    slot == 0 ==> Head(TWO_64 - 1) !in ops
  }

  lemma {:induction false} SerialRunKeepsInv(states: seq<SerialState>, ops: seq<Op>)
    requires SerialRun(states, ops) && SerialInv(states[0].tables)
    ensures SerialInv(states[|ops|].tables)
  {
    if ops != [] {
      var n := |ops| - 1;
      SerialRunKeepsInv(states[..|ops|], ops[..n]);
      assert SerialStep(states[n], ops[n], states[n + 1]);
      match ops[n]
      case Submit(sub, v) => HandledKeepsInv(states[n].tables, states[n].current, sub, v);
      case Head(_) =>
      case Deliver(slot, builder) => DeliveryKeepsInv(states[n].tables, slot, builder);
    }
  }

  lemma ClosedSlotRefuses(t: Tables, current: Uint64, sub: Submission, v: Verdicts, slot: nat)
    requires Closed(SerialState(t, current), slot) && sub.slot == slot
    ensures Refusal(t, current, sub, v).Some?
  {
  }

  lemma ClosedStep(s: SerialState, op: Op, s': SerialState, slot: nat)
    requires SerialStep(s, op, s') && Closed(s, slot)
    requires slot in s.tables.delivered || KeepsClosed([op], slot)
    ensures Closed(s', slot) && RowsOf(s'.tables, slot) == RowsOf(s.tables, slot)
    ensures slot in s.tables.delivered ==> slot in s'.tables.delivered
  {
    assert op in [op];
    if op.Submit? {
      var out :| Handled(s.tables, s.current, op.sub, op.verdicts, s'.tables, out);
      if Refusal(s.tables, s.current, op.sub, op.verdicts).None? {
        if op.sub.slot == slot {
          ClosedSlotRefuses(s.tables, s.current, op.sub, op.verdicts, slot);
        }
        HandledFrame(s.tables, s.current, op.sub, op.verdicts, s'.tables, out);
      }
    }
  }

  /** Once closed, a slot's rows are final for the rest of every serial run. */
  lemma {:induction false} ClosedSlotsAreFinal(states: seq<SerialState>, ops: seq<Op>, slot: nat)
    requires SerialRun(states, ops) && Closed(states[0], slot)
    requires slot in states[0].tables.delivered || KeepsClosed(ops, slot)
    ensures Closed(states[|ops|], slot) && RowsOf(states[|ops|].tables, slot) == RowsOf(states[0].tables, slot)
    ensures slot in states[0].tables.delivered ==> slot in states[|ops|].tables.delivered
  {
    if ops != [] {
      var n := |ops| - 1;
      ClosedSlotsAreFinal(states[..|ops|], ops[..n], slot);
      ClosedStep(states[n], ops[n], states[n + 1], slot);
    }
  }

  /** Stored receive times never decrease over a serial run. */
  lemma {:induction false} TimesNeverDecreaseInRuns(states: seq<SerialState>, ops: seq<Op>, slot: nat, b: string)
    requires SerialRun(states, ops) && SerialInv(states[0].tables) && b in Row(states[0].tables.times, slot)
    ensures b in Row(states[|ops|].tables.times, slot)
    ensures Row(states[0].tables.times, slot)[b] <= Row(states[|ops|].tables.times, slot)[b]
  {
    if ops != [] {
      var n := |ops| - 1;
      var s, s' := states[n], states[n + 1];
      TimesNeverDecreaseInRuns(states[..|ops|], ops[..n], slot, b);
      SerialRunKeepsInv(states[..|ops|], ops[..n]);
      assert SerialStep(s, ops[n], s');
      if ops[n].Submit? {
        var out :| Handled(s.tables, s.current, ops[n].sub, ops[n].verdicts, s'.tables, out);
        TimesNeverDecrease(s.tables, s.current, ops[n].sub, ops[n].verdicts, s'.tables, out, slot, b);
      }
    }
  }
}
