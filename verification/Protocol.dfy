/** The board under concurrent handlers: every Redis operation is one step, and any number of submissions,
    deliveries and head updates interleave. bidMutex is never locked, so nothing else orders the steps.
    Keys do not expire and Redis does not fail. */
module Protocol {
  import opened Words
  import opened BidTables
  import opened Submission

  /** Where a submission handler is; a chosen top and a read bid carry the number of value writes seen by the read. */
  datatype Pc =
    | Arrived | PassedDelivered | PassedSlot | PassedChecks
    | WroteUtils | WroteBid | WroteTime | WroteValue
    | ChoseTop(top: string, seen: nat)
    | ReadBid(top: string, rec: BidRecord, seen: nat)
    | Done | Refused

  datatype Handler = Handler(sub: Submission, pc: Pc)

  predicate Active(h: Handler) {
    !h.pc.Done? && !h.pc.Refused?
  }

  /** The read behind an auction: the builder it settled on, and how many value writes it had seen. */
  datatype Read = Read(top: string, seen: nat)

  /** writes counts the value writes of a slot, stamps says at which of them a builder's standing value was written,
      and lastRead is the read behind the last highest write. All three are bookkeeping and steer nothing. */
  datatype State = State(
    tables: Tables, current: Uint64, handlers: map<nat, Handler>, deliveries: set<(Uint64, string)>,
    writes: map<nat, nat>, stamps: Table<nat>, lastRead: map<nat, Read>)

  datatype Label =
    | Arrive(id: nat, sub: Submission)
    | Fail(id: nat)                          // a signature or sanity check refuses
    | Advance(id: nat, top: string)          // next operation; top is the maximum the auction's loop settled on
    | Head(slot: Uint64)
    | Lookup(slot: Uint64, blockHash: string)  // a proposer's payload request finds its builder
    | Deliver(slot: Uint64, builder: string)   // and, once the builder answered, marks the slot

  /** Past the last check that can refuse. */
  predicate PastChecks(h: Handler) {
    !h.pc.Arrived? && !h.pc.PassedDelivered? && !h.pc.PassedSlot? && !h.pc.Refused?
  }

  function Count(m: map<nat, nat>, slot: nat): nat {
    if slot in m then m[slot] else 0
  }

  ghost predicate Enabled(s: State, l: Label) {
    match l
    case Arrive(id, _) => id !in s.handlers
    case Fail(id) => id in s.handlers && s.handlers[id].pc == PassedSlot
    case Advance(id, top) =>
      && id in s.handlers && Active(s.handlers[id])
      && (s.handlers[id].pc == WroteValue ==>
            var row := Row(s.tables.values, s.handlers[id].sub.slot);
            IsTop(row, top) || !AnyPositive(row))
    case Head(slot) => slot > s.current
    case Lookup(slot, hash) => hash in Row(s.tables.utils, slot)
    case Deliver(slot, builder) => (slot, builder) in s.deliveries
  }

  /** Where the next operation leads: the gates refuse, the auction's reads record what they saw. */
  ghost function NextPc(s: State, h: Handler, top: string): Pc {
    var sub, t := h.sub, s.tables;
    match h.pc
    case Arrived => if sub.slot in t.delivered then Refused else PassedDelivered
    case PassedDelivered => if SlotOpen(s.current, sub.slot) then PassedSlot else Refused
    case PassedSlot => if Sane(sub) && !Overtaken(t, sub) then PassedChecks else Refused
    case PassedChecks => WroteUtils
    case WroteUtils => WroteBid
    case WroteBid => WroteTime
    case WroteTime => WroteValue
    case WroteValue => if AnyPositive(Row(t.values, sub.slot)) then ChoseTop(top, Count(s.writes, sub.slot)) else Done
    case ChoseTop(b, seen) => if b in Row(t.bids, sub.slot) then ReadBid(b, Row(t.bids, sub.slot)[b], seen) else Done
    case _ => Done
  }

  /** What the next operation writes. */
  function NextTables(t: Tables, h: Handler): Tables {
    var sub := h.sub;
    match h.pc
    case PassedChecks => PutUtils(t, sub.slot, sub.blockHash, UtilsOf(sub))
    case WroteUtils => PutBid(t, sub.builder, RecordOf(sub))
    case WroteBid => PutTime(t, sub.slot, sub.builder, sub.receivedAt)
    case WroteTime => PutValue(t, sub.slot, sub.builder, sub.value)
    case ReadBid(_, rec, _) => PutHighest(t, sub.slot, rec)
    case _ => t
  }

  ghost function Apply(s: State, l: Label): State
    requires Enabled(s, l)
  {
    match l
    case Arrive(id, sub) => s.(handlers := s.handlers[id := Handler(sub, Arrived)])
    case Fail(id) => s.(handlers := s.handlers[id := s.handlers[id].(pc := Refused)])
    case Advance(id, top) =>
      var h := s.handlers[id];
      var slot: nat := h.sub.slot;
      State(NextTables(s.tables, h), s.current, s.handlers[id := h.(pc := NextPc(s, h, top))], s.deliveries,
            if h.pc == WroteTime then s.writes[slot := Count(s.writes, slot) + 1] else s.writes,
            if h.pc == WroteTime then Put(s.stamps, slot, h.sub.builder, Count(s.writes, slot) + 1) else s.stamps,
            if h.pc.ReadBid? then s.lastRead[slot := Read(h.pc.top, h.pc.seen)] else s.lastRead)
    case Head(slot) => s.(current := slot)
    case Lookup(slot, hash) => s.(deliveries := s.deliveries + {(slot, Row(s.tables.utils, slot)[hash].builder)})
    case Deliver(slot, builder) => s.(tables := PutDelivered(s.tables, slot, builder))
  }

  /** Operations a handler has left at most. */
  function Remaining(pc: Pc): nat {
    match pc
    case Arrived => 10
    case PassedDelivered => 9
    case PassedSlot => 8
    case PassedChecks => 7
    case WroteUtils => 6
    case WroteBid => 5
    case WroteTime => 4
    case WroteValue => 3
    case ChoseTop(_, _) => 2
    case ReadBid(_, _, _) => 1
    case _ => 0
  }

  /** Nobody can be blocked by the others: a handler in flight can always move, and whichever maximum it settles on
      brings it nearer to its end. */
  lemma ActiveHandlerMoves(s: State, id: nat)
    requires id in s.handlers && Active(s.handlers[id])
    ensures exists top :: Enabled(s, Advance(id, top))
    ensures forall top :: Enabled(s, Advance(id, top)) ==>
      Remaining(Apply(s, Advance(id, top)).handlers[id].pc) < Remaining(s.handlers[id].pc)
  {
    var row := Row(s.tables.values, s.handlers[id].sub.slot);
    if AnyPositive(row) {
      TopExists(row);
      var top :| IsTop(row, top);
      assert Enabled(s, Advance(id, top));
    } else {
      assert Enabled(s, Advance(id, ""));
    }
  }

  /** The operations after the gates are the writes of a whole submission. */
  lemma SubmittedIsFourOperations(t: Tables, sub: Submission)
    ensures var t1 := NextTables(t, Handler(sub, PassedChecks));
      var t2 := NextTables(t1, Handler(sub, WroteUtils));
      var t3 := NextTables(t2, Handler(sub, WroteBid));
      NextTables(t3, Handler(sub, WroteTime)) == Submitted(t, sub)
  {
  }

  const START := State(EMPTY, 0, map[], {}, map[], map[], map[])

  ghost predicate Runs(s: State, labels: seq<Label>)
    decreases |labels|
  {
    labels == [] || (Enabled(s, labels[0]) && Runs(Apply(s, labels[0]), labels[1..]))
  }

  ghost function Exec(s: State, labels: seq<Label>): State
    requires Runs(s, labels)
    decreases |labels|
  {
    if labels == [] then s else Exec(Apply(s, labels[0]), labels[1..])
  }

  /** A handler past its checks is never refused. */
  lemma {:induction false} PastChecksStays(s: State, labels: seq<Label>, id: nat)
    requires Runs(s, labels) && id in s.handlers && PastChecks(s.handlers[id])
    ensures var h := s.handlers[id];
      id in Exec(s, labels).handlers && Exec(s, labels).handlers[id].sub == h.sub && PastChecks(Exec(s, labels).handlers[id])
    decreases |labels|
  {
    if labels != [] {
      PastChecksStays(Apply(s, labels[0]), labels[1..], id);
    }
  }

  // ----- every interleaving keeps the tables nested and the served headers deliverable

  ghost predicate HasPayload(t: Tables, slot: nat, rec: BidRecord) {
    rec.slot == slot && rec.header.blockHash in Row(t.utils, slot)
  }

  ghost predicate SlotNested(t: Tables, slot: nat) {
    && Row(t.values, slot).Keys <= Row(t.times, slot).Keys <= Row(t.bids, slot).Keys
    && (forall b :: b in Row(t.bids, slot) ==> HasPayload(t, slot, Row(t.bids, slot)[b]))
    && (forall h :: h in Row(t.utils, slot) ==> Row(t.utils, slot)[h].header.blockHash == h)
    && (slot in t.highest ==> HasPayload(t, slot, t.highest[slot]))
  }

  ghost predicate HandlerBacked(t: Tables, h: Handler) {
    var slot := h.sub.slot;
    match h.pc
    case PassedChecks => Sane(h.sub)
    case WroteUtils => Sane(h.sub) && h.sub.blockHash in Row(t.utils, slot)
    case WroteBid => h.sub.builder in Row(t.bids, slot)
    case WroteTime => h.sub.builder in Row(t.times, slot)
    case ChoseTop(top, _) => top in Row(t.bids, slot)
    case ReadBid(_, rec, _) => HasPayload(t, slot, rec)
    case _ => true
  }

  ghost predicate Nested(s: State) {
    && (forall slot: nat :: SlotNested(s.tables, slot))
    && (forall id :: id in s.handlers ==> HandlerBacked(s.tables, s.handlers[id]))
  }

  /** Rows lose no builder and no payload. */
  ghost predicate RowsGrow(t: Tables, t': Tables, slot: nat) {
    && (forall b :: b in Row(t.bids, slot) ==> b in Row(t'.bids, slot))
    && (forall b :: b in Row(t.times, slot) ==> b in Row(t'.times, slot))
    && (forall h :: h in Row(t.utils, slot) ==> h in Row(t'.utils, slot))
  }

  /** What an operation does to the rows of one slot. */
  lemma OperationOnRows(t: Tables, h: Handler, slot: nat)
    ensures Row(NextTables(t, h).bids, slot) == if h.pc == WroteUtils && h.sub.slot == slot
      then Row(t.bids, slot)[h.sub.builder := RecordOf(h.sub)] else Row(t.bids, slot)
    ensures Row(NextTables(t, h).times, slot) == if h.pc == WroteBid && h.sub.slot == slot
      then Row(t.times, slot)[h.sub.builder := h.sub.receivedAt as nat] else Row(t.times, slot)
    ensures Row(NextTables(t, h).utils, slot) == if h.pc == PassedChecks && h.sub.slot == slot
      then Row(t.utils, slot)[h.sub.blockHash := UtilsOf(h.sub)] else Row(t.utils, slot)
    ensures Row(NextTables(t, h).values, slot) == if h.pc == WroteTime && h.sub.slot == slot
      then Row(t.values, slot)[h.sub.builder := h.sub.value] else Row(t.values, slot)
  {
  }

  lemma StepGrows(s: State, l: Label, slot: nat)
    requires Enabled(s, l)
    ensures RowsGrow(s.tables, Apply(s, l).tables, slot)
  {
    if l.Advance? {
      OperationOnRows(s.tables, s.handlers[l.id], slot);
    }
  }

  lemma BackingSurvives(t: Tables, t': Tables, h: Handler)
    requires HandlerBacked(t, h) && RowsGrow(t, t', h.sub.slot)
    ensures HandlerBacked(t', h)
  {
  }

  lemma StepKeepsSlotNested(s: State, l: Label, slot: nat)
    requires Enabled(s, l) && Nested(s)
    ensures SlotNested(Apply(s, l).tables, slot)
  {
    assert SlotNested(s.tables, slot);
    if l.Advance? {
      assert HandlerBacked(s.tables, s.handlers[l.id]);
    }
  }

  lemma StepBacksItsHandler(s: State, l: Label)
    requires Enabled(s, l) && l.Advance? && Nested(s)
    ensures HandlerBacked(Apply(s, l).tables, Apply(s, l).handlers[l.id])
  {
    assert SlotNested(s.tables, s.handlers[l.id].sub.slot);
    assert HandlerBacked(s.tables, s.handlers[l.id]);
  }

  lemma StepKeepsNested(s: State, l: Label)
    requires Enabled(s, l) && Nested(s)
    ensures Nested(Apply(s, l))
  {
    var s' := Apply(s, l);
    forall slot: nat ensures SlotNested(s'.tables, slot) {
      StepKeepsSlotNested(s, l, slot);
    }
    forall id | id in s'.handlers ensures HandlerBacked(s'.tables, s'.handlers[id]) {
      if l.Advance? && l.id == id {
        StepBacksItsHandler(s, l);
      } else if id in s.handlers && s'.handlers[id] == s.handlers[id] {
        StepGrows(s, l, s.handlers[id].sub.slot);
        BackingSurvives(s.tables, s'.tables, s.handlers[id]);
      }
    }
  }

  lemma {:induction false} RunKeepsNested(s: State, labels: seq<Label>)
    requires Runs(s, labels) && Nested(s)
    ensures Nested(Exec(s, labels))
    decreases |labels|
  {
    if labels != [] {
      StepKeepsNested(s, labels[0]);
      RunKeepsNested(Apply(s, labels[0]), labels[1..]);
    }
  }

  lemma {:induction false} RunGrows(s: State, labels: seq<Label>, slot: nat)
    requires Runs(s, labels)
    ensures RowsGrow(s.tables, Exec(s, labels).tables, slot)
    decreases |labels|
  {
    if labels != [] {
      StepGrows(s, labels[0], slot);
      RunGrows(Apply(s, labels[0]), labels[1..], slot);
    }
  }

  /** In every interleaving the auction's second read finds the bid of the builder it chose. */
  lemma TopBidIsNeverMissing(labels: seq<Label>, id: nat)
    requires Runs(START, labels)
    requires id in Exec(START, labels).handlers && Exec(START, labels).handlers[id].pc.ChoseTop?
    ensures var s := Exec(START, labels);
            s.handlers[id].pc.top in Row(s.tables.bids, s.handlers[id].sub.slot)
  {
    RunKeepsNested(START, labels);
  }

  /** In every interleaving the tables of a slot are nested and hold records of that slot only. */
  lemma TablesStayNested(labels: seq<Label>, slot: nat)
    requires Runs(START, labels)
    ensures SlotNested(Exec(START, labels).tables, slot)
  {
    RunKeepsNested(START, labels);
  }

  /** A header served at any moment of any interleaving has a payload entry then, and at every later moment. */
  lemma ServedHeaderIsDeliverable(before: seq<Label>, after: seq<Label>, slot: nat)
    requires Runs(START, before) && Runs(Exec(START, before), after)
    requires slot in Exec(START, before).tables.highest
    ensures var rec := Exec(START, before).tables.highest[slot];
            var later := Row(Exec(Exec(START, before), after).tables.utils, slot);
            rec.slot == slot && rec.header.blockHash in later
              && later[rec.header.blockHash].header.blockHash == rec.header.blockHash
  {
    var s := Exec(START, before);
    RunKeepsNested(START, before);
    assert SlotNested(s.tables, slot);
    RunGrows(s, after, slot);
    RunKeepsNested(s, after);
    assert SlotNested(Exec(s, after).tables, slot);
  }
}
