/** The interleavings of Protocol, run on the flat keyspace of BidBoard instead of on its tables. */
module FlatStore {
  import opened Text
  import opened BidTables
  import opened BidBoard
  import opened Submission
  import opened Protocol

  /** The one Redis command behind each writing operation; None if Redis would refuse it. */
  function Command(store: Store, h: Handler): Option<Store> {
    var sub := h.sub;
    match h.pc
    case PassedChecks => HSet(store, Key(UtilsKind, sub.slot), sub.blockHash, UtilsJson(UtilsOf(sub)))
    case WroteUtils => HSet(store, Key(BidKind, sub.slot), sub.builder, BidJson(RecordOf(sub)))
    case WroteBid => HSet(store, Key(TimeKind, sub.slot), sub.builder, Plain(Decimal(sub.receivedAt)))
    case WroteTime => HSet(store, Key(ValueKind, sub.slot), sub.builder, Plain(DecimalInt(sub.value)))
    case ReadBid(_, rec, _) => Some(Set(store, Key(HighestKind, sub.slot), BidJson(rec)))
    case _ => Some(store)
  }

  function Step(store: Store, s: State, l: Label): Option<Store> {
    match l
    case Advance(id, _) => if id in s.handlers then Command(store, s.handlers[id]) else None
    case Deliver(slot, builder) => HSet(store, DELIVERED_KEY, Decimal(slot), Plain(builder))
    case _ => Some(store)
  }

  /** The store after a run, or None as soon as a command is refused. */
  ghost function Flat(store: Store, s: State, labels: seq<Label>): Option<Store>
    requires Runs(s, labels)
    decreases |labels|
  {
    if labels == [] then Some(store)
    else
      match Step(store, s, labels[0])
      case None => None
      case Some(store') => Flat(store', Apply(s, labels[0]), labels[1..])
  }

  lemma CommandRefines(store: Store, t: Tables, h: Handler)
    requires Represents(store, t)
    ensures Command(store, h).Some? && Represents(Command(store, h).value, NextTables(t, h))
  {
    var sub := h.sub;
    match h.pc
    case PassedChecks => UtilsWrite(store, t, sub.slot, sub.blockHash, UtilsOf(sub));
    case WroteUtils => BidWrite(store, t, sub.builder, RecordOf(sub));
    case WroteBid => TimeWrite(store, t, sub.slot, sub.builder, sub.receivedAt);
    case WroteTime => ValueWrite(store, t, sub.slot, sub.builder, sub.value);
    case ReadBid(_, rec, _) => HighestWrite(store, t, sub.slot, rec);
    case _ =>
  }

  lemma StepRefines(store: Store, s: State, l: Label)
    requires Represents(store, s.tables) && Enabled(s, l)
    ensures Step(store, s, l).Some? && Represents(Step(store, s, l).value, Apply(s, l).tables)
  {
    match l
    case Advance(id, _) => CommandRefines(store, s.tables, s.handlers[id]);
    case Deliver(slot, builder) => DeliveredWrite(store, s.tables, slot, builder);
    case _ =>
  }

  lemma {:induction false} RunRefines(store: Store, s: State, labels: seq<Label>)
    requires Represents(store, s.tables) && Runs(s, labels)
    ensures Flat(store, s, labels).Some? && Represents(Flat(store, s, labels).value, Exec(s, labels).tables)
    decreases |labels|
  {
    if labels != [] {
      StepRefines(store, s, labels[0]);
      RunRefines(Step(store, s, labels[0]).value, Apply(s, labels[0]), labels[1..]);
    }
  }

  /** From the flushed store, no interleaving makes Redis refuse a command for the type of its key, and the keyspace
      always stands for the protocol's tables: what the protocol keeps, the real store keeps. */
  lemma KeyspaceFollowsTheTables(labels: seq<Label>)
    requires Runs(START, labels)
    ensures Flat(map[], START, labels).Some?
    ensures Represents(Flat(map[], START, labels).value, Exec(START, labels).tables)
  {
    EmptyRepresents();
    RunRefines(map[], START, labels);
  }
}
