/** bids/bids.go over one flat Redis keyspace. */
module BidBoard {
  import opened Text
  import opened BidTables

  // ----- keys

  datatype Kind = BidKind | TimeKind | ValueKind | HighestKind | UtilsKind

  function Prefix(k: Kind): string {
    match k
    case BidKind => "builder-bid"
    case TimeKind => "builder-bid-time"
    case ValueKind => "builder-bid-value"
    case HighestKind => "builder-highest-bid"
    case UtilsKind => "builder-bid-utils"
  }

  const DELIVERED_KEY := "slot-proposer-payload-delivered"

  function Key(k: Kind, slot: nat): string {
    Prefix(k) + "-" + Decimal(slot)
  }

  lemma PrefixInjective(k: Kind, l: Kind)
    requires Prefix(k) == Prefix(l)
    ensures k == l
  {
    assert "builder-bid-value"[12] == 'v';
    assert "builder-bid-utils"[12] == 'u';
  }

  /** Any two prefixes, even one that begins the other, give different keys. */
  lemma KeyInjective(k: Kind, slot: nat, l: Kind, slot': nat)
    requires Key(k, slot) == Key(l, slot')
    ensures k == l && slot == slot'
  {
    DecimalRoundTrip(slot);
    DecimalRoundTrip(slot');
    SplitAtLast(Prefix(k), '-', Decimal(slot), Prefix(l), Decimal(slot'));
    PrefixInjective(k, l);
  }

  lemma KeysDiffer(k: Kind, slot: nat, l: Kind, slot': nat)
    ensures Key(k, slot) == Key(l, slot') ==> k == l && slot == slot'
  {
    if Key(k, slot) == Key(l, slot') {
      KeyInjective(k, slot, l, slot');
    }
  }

  lemma KeyIsNotDelivered(k: Kind, slot: nat)
    ensures Key(k, slot) != DELIVERED_KEY
  {
    DecimalRoundTrip(slot);
    var key := Key(k, slot);
    assert key[|key| - 1] == Decimal(slot)[|Decimal(slot)| - 1];
    assert DELIVERED_KEY[|DELIVERED_KEY| - 1] == 'd';
  }

  // ----- the store

  datatype Value = BidJson(bid: BidRecord) | UtilsJson(utils: PayloadUtils) | Plain(text: string)

  datatype Entry = HashEntry(fields: map<string, Value>) | StringEntry(value: Value)

  type Store = map<string, Entry>

  function Fields(store: Store, key: string): map<string, Value> {
    if key in store && store[key].HashEntry? then store[key].fields else map[]
  }

  /** HSET fails on a key that holds a string. */
  function HSet(store: Store, key: string, field: string, v: Value): Option<Store> {
    if key in store && store[key].StringEntry? then None
    else Some(store[key := HashEntry(Fields(store, key)[field := v])])
  }

  function HGet(store: Store, key: string, field: string): Option<Value> {
    if field in Fields(store, key) then Some(Fields(store, key)[field]) else None
  }

  /** SET replaces whatever the key held. */
  function Set(store: Store, key: string, v: Value): Store {
    store[key := StringEntry(v)]
  }

  function Get(store: Store, key: string): Option<Value> {
    if key in store && store[key].StringEntry? then Some(store[key].value) else None
  }

  // ----- what the store stands for

  function BidFields(row: map<string, BidRecord>): map<string, Value> {
    map b | b in row :: BidJson(row[b])
  }

  function TimeFields(row: map<string, nat>): map<string, Value> {
    map b | b in row :: Plain(Decimal(row[b]))
  }

  function ValueFields(row: map<string, int>): map<string, Value> {
    map b | b in row :: Plain(DecimalInt(row[b]))
  }

  function UtilsFields(row: map<string, PayloadUtils>): map<string, Value> {
    map h | h in row :: UtilsJson(row[h])
  }

  ghost predicate HoldsHash(store: Store, key: string, fields: map<string, Value>) {
    (key in store ==> store[key].HashEntry?) && Fields(store, key) == fields
  }

  ghost predicate HoldsHighest(store: Store, highest: map<nat, BidRecord>, slot: nat) {
    var key := Key(HighestKind, slot);
    if slot in highest then key in store && store[key] == StringEntry(BidJson(highest[slot])) else key !in store
  }

  ghost predicate HoldsDelivered(store: Store, delivered: map<nat, string>, slot: nat) {
    var f := Decimal(slot);
    HGet(store, DELIVERED_KEY, f) == if slot in delivered then Some(Plain(delivered[slot])) else None
  }

  /** The rows of one slot are where their keys say, except possibly the one of kind k. */
  ghost predicate SlotHoldsBut(store: Store, t: Tables, slot: nat, k: Option<Kind>) {
    && (k != Some(BidKind) ==> HoldsHash(store, Key(BidKind, slot), BidFields(Row(t.bids, slot))))
    && (k != Some(TimeKind) ==> HoldsHash(store, Key(TimeKind, slot), TimeFields(Row(t.times, slot))))
    && (k != Some(ValueKind) ==> HoldsHash(store, Key(ValueKind, slot), ValueFields(Row(t.values, slot))))
    && (k != Some(UtilsKind) ==> HoldsHash(store, Key(UtilsKind, slot), UtilsFields(Row(t.utils, slot))))
    && (k != Some(HighestKind) ==> HoldsHighest(store, t.highest, slot))
  }

  ghost predicate SlotHolds(store: Store, t: Tables, slot: nat) {
    SlotHoldsBut(store, t, slot, None) && HoldsDelivered(store, t.delivered, slot)
  }

  /** The flat store holds exactly the five independent per-slot tables and the table of delivered slots. */
  ghost predicate Represents(store: Store, t: Tables) {
    && (DELIVERED_KEY in store ==> store[DELIVERED_KEY].HashEntry?)
    && (forall slot: nat :: SlotHolds(store, t, slot))
  }

  lemma BidKeysSpelledOut(slot: nat)
    ensures Key(BidKind, slot) == "builder-bid-" + Decimal(slot)
    ensures Key(HighestKind, slot) == "builder-highest-bid-" + Decimal(slot)
  {
  }

  lemma OtherKeysSpelledOut(slot: nat)
    ensures Key(TimeKind, slot) == "builder-bid-time-" + Decimal(slot)
    ensures Key(ValueKind, slot) == "builder-bid-value-" + Decimal(slot)
    ensures Key(UtilsKind, slot) == "builder-bid-utils-" + Decimal(slot)
  {
  }

  /** Where the entries of a slot are to be found in Redis, and how they are written there. */
  lemma KeyspaceSpelledOut(store: Store, t: Tables, slot: nat, b: string)
    requires Represents(store, t)
    ensures HGet(store, "builder-bid-" + Decimal(slot), b)
      == if b in Row(t.bids, slot) then Some(BidJson(Row(t.bids, slot)[b])) else None
    ensures HGet(store, "builder-bid-time-" + Decimal(slot), b)
      == if b in Row(t.times, slot) then Some(Plain(Decimal(Row(t.times, slot)[b]))) else None
    ensures HGet(store, "builder-bid-value-" + Decimal(slot), b)
      == if b in Row(t.values, slot) then Some(Plain(DecimalInt(Row(t.values, slot)[b]))) else None
    ensures HGet(store, "builder-bid-utils-" + Decimal(slot), b)
      == if b in Row(t.utils, slot) then Some(UtilsJson(Row(t.utils, slot)[b])) else None
    ensures Get(store, "builder-highest-bid-" + Decimal(slot))
      == if slot in t.highest then Some(BidJson(t.highest[slot])) else None
    ensures HGet(store, "slot-proposer-payload-delivered", Decimal(slot))
      == if slot in t.delivered then Some(Plain(t.delivered[slot])) else None
  {
    BidKeysSpelledOut(slot);
    OtherKeysSpelledOut(slot);
    assert SlotHolds(store, t, slot);
  }

  lemma EmptyRepresents()
    ensures Represents(map[], EMPTY)
  {
  }

  /** A write at one key leaves every other kind and slot as it was. */
  lemma OtherKeysStand(store: Store, k: Kind, slot: nat, e: Entry, t: Tables, s: nat)
    requires Represents(store, t)
    ensures var store' := store[Key(k, slot) := e];
            SlotHoldsBut(store', t, s, if s == slot then Some(k) else None) && HoldsDelivered(store', t.delivered, s)
  {
    BidAndTimeStand(store, k, slot, e, t, s);
    ValueAndUtilsStand(store, k, slot, e, t, s);
    HighestAndDeliveredStand(store, k, slot, e, t, s);
  }

  lemma BidAndTimeStand(store: Store, k: Kind, slot: nat, e: Entry, t: Tables, s: nat)
    requires Represents(store, t)
    ensures var store' := store[Key(k, slot) := e];
      && (k != BidKind || s != slot ==> HoldsHash(store', Key(BidKind, s), BidFields(Row(t.bids, s))))
      && (k != TimeKind || s != slot ==> HoldsHash(store', Key(TimeKind, s), TimeFields(Row(t.times, s))))
  {
    assert SlotHolds(store, t, s);
    KeysDiffer(BidKind, s, k, slot);
    KeysDiffer(TimeKind, s, k, slot);
  }

  lemma ValueAndUtilsStand(store: Store, k: Kind, slot: nat, e: Entry, t: Tables, s: nat)
    requires Represents(store, t)
    ensures var store' := store[Key(k, slot) := e];
      && (k != ValueKind || s != slot ==> HoldsHash(store', Key(ValueKind, s), ValueFields(Row(t.values, s))))
      && (k != UtilsKind || s != slot ==> HoldsHash(store', Key(UtilsKind, s), UtilsFields(Row(t.utils, s))))
  {
    assert SlotHolds(store, t, s);
    KeysDiffer(ValueKind, s, k, slot);
    KeysDiffer(UtilsKind, s, k, slot);
  }

  lemma HighestAndDeliveredStand(store: Store, k: Kind, slot: nat, e: Entry, t: Tables, s: nat)
    requires Represents(store, t)
    ensures var store' := store[Key(k, slot) := e];
      (k != HighestKind || s != slot ==> HoldsHighest(store', t.highest, s)) && HoldsDelivered(store', t.delivered, s)
  {
    assert SlotHolds(store, t, s);
    KeysDiffer(HighestKind, s, k, slot);
    KeyIsNotDelivered(k, slot);
  }

  /** Writing the row of one kind and slot, in the store and in the tables, keeps the correspondence. */
  lemma RowWrite(store: Store, k: Kind, slot: nat, e: Entry, t: Tables, t': Tables)
    requires Represents(store, t)
    requires t'.delivered == t.delivered
    requires forall s: nat :: s != slot ==> RowsOf(t', s) == RowsOf(t, s)
    requires SlotHoldsBut(store[Key(k, slot) := e], t, slot, Some(k)) ==> SlotHolds(store[Key(k, slot) := e], t', slot)
    ensures Represents(store[Key(k, slot) := e], t')
  {
    var store' := store[Key(k, slot) := e];
    KeyIsNotDelivered(k, slot);
    forall s: nat ensures SlotHolds(store', t', s) {
      OtherKeysStand(store, k, slot, e, t, s);
      if s != slot {
        assert RowsOf(t', s) == RowsOf(t, s);
        SameRowsSameEntries(store', t, t', s);
      }
    }
  }

  lemma SameRowsSameEntries(store: Store, t: Tables, t': Tables, slot: nat)
    requires RowsOf(t', slot) == RowsOf(t, slot) && SlotHoldsBut(store, t, slot, None)
    ensures SlotHoldsBut(store, t', slot, None)
  {
  }

  /** HSET on a key that holds the hash of a row. */
  lemma HashWrite(store: Store, key: string, fields: map<string, Value>, field: string, v: Value)
    requires HoldsHash(store, key, fields)
    ensures HSet(store, key, field, v) == Some(store[key := HashEntry(fields[field := v])])
    ensures HoldsHash(store[key := HashEntry(fields[field := v])], key, fields[field := v])
  {
  }

  lemma BidFieldsWrite(row: map<string, BidRecord>, b: string, rec: BidRecord)
    ensures BidFields(row[b := rec]) == BidFields(row)[b := BidJson(rec)]
  {
  }

  lemma TimeFieldsWrite(row: map<string, nat>, b: string, at: nat)
    ensures TimeFields(row[b := at]) == TimeFields(row)[b := Plain(Decimal(at))]
  {
  }

  lemma ValueFieldsWrite(row: map<string, int>, b: string, v: int)
    ensures ValueFields(row[b := v]) == ValueFields(row)[b := Plain(DecimalInt(v))]
  {
  }

  lemma UtilsFieldsWrite(row: map<string, PayloadUtils>, h: string, u: PayloadUtils)
    ensures UtilsFields(row[h := u]) == UtilsFields(row)[h := UtilsJson(u)]
  {
  }

  lemma BidWrite(store: Store, t: Tables, builder: string, rec: BidRecord)
    requires Represents(store, t)
    ensures var w := HSet(store, Key(BidKind, rec.slot), builder, BidJson(rec));
            w.Some? && Represents(w.value, PutBid(t, builder, rec))
  {
    var key, row, t' := Key(BidKind, rec.slot), Row(t.bids, rec.slot), PutBid(t, builder, rec);
    var e := HashEntry(BidFields(row)[builder := BidJson(rec)]);
    assert SlotHolds(store, t, rec.slot);
    HashWrite(store, key, BidFields(row), builder, BidJson(rec));
    BidFieldsWrite(row, builder, rec);
    OtherKeysStand(store, BidKind, rec.slot, e, t, rec.slot);
    forall s: nat | s != rec.slot ensures RowsOf(t', s) == RowsOf(t, s) {
      BidTouchesOneSlot(t, builder, rec, s);
    }
    RowWrite(store, BidKind, rec.slot, e, t, t');
  }

  lemma TimeWrite(store: Store, t: Tables, slot: nat, builder: string, at: nat)
    requires Represents(store, t)
    ensures var w := HSet(store, Key(TimeKind, slot), builder, Plain(Decimal(at)));
            w.Some? && Represents(w.value, PutTime(t, slot, builder, at))
  {
    var key, row, t' := Key(TimeKind, slot), Row(t.times, slot), PutTime(t, slot, builder, at);
    var e := HashEntry(TimeFields(row)[builder := Plain(Decimal(at))]);
    assert SlotHolds(store, t, slot);
    HashWrite(store, key, TimeFields(row), builder, Plain(Decimal(at)));
    TimeFieldsWrite(row, builder, at);
    OtherKeysStand(store, TimeKind, slot, e, t, slot);
    forall s: nat | s != slot ensures RowsOf(t', s) == RowsOf(t, s) {
      TimeTouchesOneSlot(t, slot, builder, at, s);
    }
    RowWrite(store, TimeKind, slot, e, t, t');
  }

  lemma ValueWrite(store: Store, t: Tables, slot: nat, builder: string, v: int)
    requires Represents(store, t)
    ensures var w := HSet(store, Key(ValueKind, slot), builder, Plain(DecimalInt(v)));
            w.Some? && Represents(w.value, PutValue(t, slot, builder, v))
  {
    var key, row, t' := Key(ValueKind, slot), Row(t.values, slot), PutValue(t, slot, builder, v);
    var e := HashEntry(ValueFields(row)[builder := Plain(DecimalInt(v))]);
    assert SlotHolds(store, t, slot);
    HashWrite(store, key, ValueFields(row), builder, Plain(DecimalInt(v)));
    ValueFieldsWrite(row, builder, v);
    OtherKeysStand(store, ValueKind, slot, e, t, slot);
    forall s: nat | s != slot ensures RowsOf(t', s) == RowsOf(t, s) {
      ValueTouchesOneSlot(t, slot, builder, v, s);
    }
    RowWrite(store, ValueKind, slot, e, t, t');
  }

  lemma UtilsWrite(store: Store, t: Tables, slot: nat, hash: string, u: PayloadUtils)
    requires Represents(store, t)
    ensures var w := HSet(store, Key(UtilsKind, slot), hash, UtilsJson(u));
            w.Some? && Represents(w.value, PutUtils(t, slot, hash, u))
  {
    var key, row, t' := Key(UtilsKind, slot), Row(t.utils, slot), PutUtils(t, slot, hash, u);
    var e := HashEntry(UtilsFields(row)[hash := UtilsJson(u)]);
    assert SlotHolds(store, t, slot);
    HashWrite(store, key, UtilsFields(row), hash, UtilsJson(u));
    UtilsFieldsWrite(row, hash, u);
    OtherKeysStand(store, UtilsKind, slot, e, t, slot);
    forall s: nat | s != slot ensures RowsOf(t', s) == RowsOf(t, s) {
      UtilsTouchOneSlot(t, slot, hash, u, s);
    }
    RowWrite(store, UtilsKind, slot, e, t, t');
  }

  lemma HighestWrite(store: Store, t: Tables, slot: nat, rec: BidRecord)
    requires Represents(store, t)
    ensures Represents(Set(store, Key(HighestKind, slot), BidJson(rec)), PutHighest(t, slot, rec))
  {
    OtherKeysStand(store, HighestKind, slot, StringEntry(BidJson(rec)), t, slot);
    forall s: nat | s != slot ensures RowsOf(PutHighest(t, slot, rec), s) == RowsOf(t, s) {
      HighestTouchesOneSlot(t, slot, rec, s);
    }
    RowWrite(store, HighestKind, slot, StringEntry(BidJson(rec)), t, PutHighest(t, slot, rec));
  }

  lemma DeliveredKeyStandsApart(store: Store, t: Tables, e: Entry, s: nat)
    requires SlotHoldsBut(store, t, s, None)
    ensures SlotHoldsBut(store[DELIVERED_KEY := e], t, s, None)
  {
    KeyIsNotDelivered(BidKind, s);
    KeyIsNotDelivered(TimeKind, s);
    KeyIsNotDelivered(ValueKind, s);
    KeyIsNotDelivered(UtilsKind, s);
    KeyIsNotDelivered(HighestKind, s);
  }

  lemma DecimalInjective(m: nat, n: nat)
    ensures Decimal(m) == Decimal(n) ==> m == n
  {
    DecimalRoundTrip(m);
    DecimalRoundTrip(n);
  }

  lemma DeliveredWrite(store: Store, t: Tables, slot: nat, builder: string)
    requires Represents(store, t)
    ensures var w := HSet(store, DELIVERED_KEY, Decimal(slot), Plain(builder));
            w.Some? && Represents(w.value, PutDelivered(t, slot, builder))
  {
    var store' := HSet(store, DELIVERED_KEY, Decimal(slot), Plain(builder)).value;
    var t' := PutDelivered(t, slot, builder);
    forall s: nat ensures SlotHolds(store', t', s) {
      assert SlotHolds(store, t, s);
      DeliveredKeyStandsApart(store, t, HashEntry(Fields(store, DELIVERED_KEY)[Decimal(slot) := Plain(builder)]), s);
      DecimalInjective(s, slot);
    }
  }

  // ----- the board

  datatype AuctionOutcome = NoBids | BadAmount | MissingBid | Won(builder: string, value: int)

  /** What an auction may answer, and what it leaves behind. */
  ghost predicate Auctioned(t: Tables, slot: nat, t': Tables, out: AuctionOutcome) {
    var values, bids := Row(t.values, slot), Row(t.bids, slot);
    if AnyPositive(values) then
      exists top :: IsTop(values, top)
                 && if top in bids then out == Won(top, values[top]) && t' == PutHighest(t, slot, bids[top])
                    else out == MissingBid && t' == t
    else out == NoBids && t' == t
  }

  class BidBoard {
    var store: Store
    ghost var tables: Tables

    ghost predicate Valid()
      reads this
    {
      Represents(store, tables)
    }

    /** The store is flushed on start-up. */
    constructor ()
      ensures Valid() && tables == EMPTY
    {
      store := map[];
      tables := EMPTY;
      new;
      EmptyRepresents();
    }

    method SaveBuilderBid(slot: nat, builder: string, proposer: string, receivedAt: nat, value: int, header: Header)
      returns (ok: bool)
      requires Valid()
      modifies this
      ensures Valid() && ok
      ensures var rec := BidRecord(slot, proposer, value, header);
              tables == PutValue(PutTime(PutBid(old(tables), builder, rec), slot, builder, receivedAt), slot, builder, value)
    {
      var rec := BidRecord(slot, proposer, value, header);
      BidWrite(store, tables, builder, rec);
      var w := HSet(store, Key(BidKind, slot), builder, BidJson(rec));
      if w.None? {
        return false;
      }
      store, tables := w.value, PutBid(tables, builder, rec);

      TimeWrite(store, tables, slot, builder, receivedAt);
      w := HSet(store, Key(TimeKind, slot), builder, Plain(Decimal(receivedAt)));
      if w.None? {
        return false;
      }
      store, tables := w.value, PutTime(tables, slot, builder, receivedAt);

      ValueWrite(store, tables, slot, builder, value);
      w := HSet(store, Key(ValueKind, slot), builder, Plain(DecimalInt(value)));
      if w.None? {
        return false;
      }
      store, tables := w.value, PutValue(tables, slot, builder, value);
      return true;
    }

    method SavePayloadUtils(slot: nat, blockHash: string, u: PayloadUtils) returns (ok: bool)
      requires Valid()
      modifies this
      ensures Valid() && ok && tables == PutUtils(old(tables), slot, blockHash, u)
    {
      UtilsWrite(store, tables, slot, blockHash, u);
      var w := HSet(store, Key(UtilsKind, slot), blockHash, UtilsJson(u));
      if w.None? {
        return false;
      }
      store, tables := w.value, PutUtils(tables, slot, blockHash, u);
      return true;
    }

    method GetPayloadUtils(slot: nat, blockHash: string) returns (r: Option<PayloadUtils>)
      requires Valid()
      ensures r == if blockHash in Row(tables.utils, slot) then Some(Row(tables.utils, slot)[blockHash]) else None
    {
      assert SlotHolds(store, tables, slot);
      match HGet(store, Key(UtilsKind, slot), blockHash)
      case Some(UtilsJson(u)) => r := Some(u);
      case _ => r := None;
    }

    /** Visits the value table in whatever order the map yields, keeping the first strict maximum above zero. */
    method AuctionBid(slot: nat) returns (out: AuctionOutcome)
      requires Valid()
      modifies this
      ensures Valid() && Auctioned(old(tables), slot, tables, out)
    {
      var bidValues := Fields(store, Key(ValueKind, slot));
      ghost var row := Row(tables.values, slot);
      assert SlotHolds(store, tables, slot);
      var topBidValue, topBuilder: Option<string> := 0, None;
      var rest := bidValues.Keys;
      while rest != {}
        invariant unchanged(this)
        invariant rest <= bidValues.Keys == row.Keys
        invariant topBuilder.None? ==> topBidValue == 0
        invariant topBuilder.Some? ==> topBuilder.value in row && topBidValue == row[topBuilder.value] > 0
        invariant forall b :: b in row && b !in rest ==> row[b] <= topBidValue
        decreases rest
      {
        var builder :| builder in rest;
        rest := rest - {builder};
        DecimalIntRoundTrip(row[builder]);
        var bidValue := if bidValues[builder].Plain? then ParseInt(bidValues[builder].text) else None;
        if bidValue.None? {
          return BadAmount;
        }
        if bidValue.value > topBidValue {
          topBidValue, topBuilder := bidValue.value, Some(builder);
        }
      }
      if topBuilder.None? {
        return NoBids;
      }
      assert IsTop(row, topBuilder.value);

      match HGet(store, Key(BidKind, slot), topBuilder.value) {
        case Some(BidJson(rec)) =>
          HighestWrite(store, tables, slot, rec);
          store, tables := Set(store, Key(HighestKind, slot), BidJson(rec)), PutHighest(tables, slot, rec);
          return Won(topBuilder.value, topBidValue);
        case _ =>
          return MissingBid;
      }
    }

    method WinningBid(slot: nat) returns (r: Option<BidRecord>)
      requires Valid()
      ensures r == if slot in tables.highest then Some(tables.highest[slot]) else None
    {
      assert SlotHolds(store, tables, slot);
      match Get(store, Key(HighestKind, slot))
      case Some(BidJson(rec)) => r := Some(rec);
      case _ => r := None;
    }

    method GetPayloadDelivered(slot: nat) returns (r: Option<string>)
      requires Valid()
      ensures r == if slot in tables.delivered then Some(tables.delivered[slot]) else None
    {
      assert SlotHolds(store, tables, slot);
      match HGet(store, DELIVERED_KEY, Decimal(slot))
      case Some(Plain(builder)) => r := Some(builder);
      case _ => r := None;
    }

    method PutPayloadDelivered(slot: nat, builder: string) returns (ok: bool)
      requires Valid()
      modifies this
      ensures Valid() && ok && tables == PutDelivered(old(tables), slot, builder)
    {
      DeliveredWrite(store, tables, slot, builder);
      var w := HSet(store, DELIVERED_KEY, Decimal(slot), Plain(builder));
      if w.None? {
        return false;
      }
      store, tables := w.value, PutDelivered(tables, slot, builder);
      return true;
    }

    method BuilderBlockLast(slot: nat, builder: string) returns (r: LastBid)
      requires Valid()
      ensures r == LastOf(tables, slot, builder)
      ensures r == NoBid <==> builder !in Row(tables.times, slot)
      ensures builder in Row(tables.times, slot) ==>
        r == if Row(tables.times, slot)[builder] <= 0x7fff_ffff_ffff_ffff then Last(Row(tables.times, slot)[builder]) else Unreadable
    {
      var row := Row(tables.times, slot);
      assert SlotHolds(store, tables, slot);
      match HGet(store, Key(TimeKind, slot), builder) {
        case Some(Plain(text)) =>
          DecimalRoundTrip(row[builder]);
          ParseSigned(text, row[builder]);
          var at := ParseInt(text);
          r := if at.None? || at.value > MAX_INT64 then Unreadable else Last(at.value);
        case _ =>
          r := NoBid;
      }
    }
  }
}
