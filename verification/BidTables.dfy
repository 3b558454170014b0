/** The bid board as the relay means it: independent tables, one row per slot. */
module BidTables {
  import Text

  datatype Header = Header(version: string, blockHash: string, parentHash: string)

  datatype BidRecord = BidRecord(slot: nat, proposer: string, value: int, header: Header)

  datatype PayloadUtils = PayloadUtils(header: Header, api: string, builder: string)

  type Table<V> = map<nat, map<string, V>>

  datatype Tables = Tables(
    bids: Table<BidRecord>,
    times: Table<nat>,
    values: Table<int>,
    utils: Table<PayloadUtils>,
    highest: map<nat, BidRecord>,
    delivered: map<nat, string>)

  const EMPTY := Tables(map[], map[], map[], map[], map[], map[])

  /** The row of a slot; a slot without one reads as empty. */
  function Row<V>(t: Table<V>, slot: nat): map<string, V> {
    if slot in t then t[slot] else map[]
  }

  function Put<V>(t: Table<V>, slot: nat, field: string, v: V): (t': Table<V>)
    ensures forall s: nat :: Row(t', s) == if s == slot then Row(t, s)[field := v] else Row(t, s)
  {
    t[slot := Row(t, slot)[field := v]]
  }

  function PutBid(t: Tables, builder: string, rec: BidRecord): Tables {
    t.(bids := Put(t.bids, rec.slot, builder, rec))
  }

  function PutTime(t: Tables, slot: nat, builder: string, at: nat): Tables {
    t.(times := Put(t.times, slot, builder, at))
  }

  function PutValue(t: Tables, slot: nat, builder: string, value: int): Tables {
    t.(values := Put(t.values, slot, builder, value))
  }

  function PutUtils(t: Tables, slot: nat, hash: string, u: PayloadUtils): Tables {
    t.(utils := Put(t.utils, slot, hash, u))
  }

  function PutHighest(t: Tables, slot: nat, rec: BidRecord): Tables {
    t.(highest := t.highest[slot := rec])
  }

  function PutDelivered(t: Tables, slot: nat, builder: string): Tables {
    t.(delivered := t.delivered[slot := builder])
  }

  /** A builder the auction may choose: none bids more, and its value is positive. */
  ghost predicate IsTop(row: map<string, int>, builder: string) {
    builder in row && row[builder] > 0 && forall b :: b in row ==> row[b] <= row[builder]
  }

  ghost predicate AnyPositive(row: map<string, int>) {
    exists b :: b in row && row[b] > 0
  }

  /** Once some value is positive there is a builder to choose. */
  lemma {:induction false} TopExists(row: map<string, int>)
    requires AnyPositive(row)
    ensures exists top :: IsTop(row, top)
    decreases |row|
  {
    var b :| b in row && row[b] > 0;
    var rest := row - {b};
    assert row.Keys == rest.Keys + {b};
    if AnyPositive(rest) {
      TopExists(rest);
      var top :| IsTop(rest, top);
      assert IsTop(row, if row[top] < row[b] then b else top);
    } else {
      assert forall c :: c in rest ==> rest[c] <= 0;
      assert IsTop(row, b);
    }
  }

  /** Everything the board stores about one slot. */
  datatype SlotRows = SlotRows(bids: map<string, BidRecord>, times: map<string, nat>, values: map<string, int>,
                               utils: map<string, PayloadUtils>, highest: Text.Option<BidRecord>)

  function RowsOf(t: Tables, slot: nat): SlotRows {
    SlotRows(Row(t.bids, slot), Row(t.times, slot), Row(t.values, slot), Row(t.utils, slot),
             if slot in t.highest then Text.Some(t.highest[slot]) else Text.None)
  }

  /** A write to one slot leaves the rows of every other. */
  lemma BidTouchesOneSlot(t: Tables, b: string, rec: BidRecord, slot: nat)
    requires slot != rec.slot
    ensures RowsOf(PutBid(t, b, rec), slot) == RowsOf(t, slot)
  {
  }

  lemma TimeTouchesOneSlot(t: Tables, other: nat, b: string, at: nat, slot: nat)
    requires slot != other
    ensures RowsOf(PutTime(t, other, b, at), slot) == RowsOf(t, slot)
  {
  }

  lemma ValueTouchesOneSlot(t: Tables, other: nat, b: string, value: int, slot: nat)
    requires slot != other
    ensures RowsOf(PutValue(t, other, b, value), slot) == RowsOf(t, slot)
  {
  }

  lemma UtilsTouchOneSlot(t: Tables, other: nat, hash: string, u: PayloadUtils, slot: nat)
    requires slot != other
    ensures RowsOf(PutUtils(t, other, hash, u), slot) == RowsOf(t, slot)
  {
  }

  lemma HighestTouchesOneSlot(t: Tables, other: nat, rec: BidRecord, slot: nat)
    requires slot != other
    ensures RowsOf(PutHighest(t, other, rec), slot) == RowsOf(t, slot)
  {
  }

  /** The stored time of a builder's last bid, as the 64-bit parser reads it back. */
  datatype LastBid = NoBid | Unreadable | Last(at: int)

  const MAX_INT64 := 0x7fff_ffff_ffff_ffff

  function LastOf(t: Tables, slot: nat, builder: string): LastBid {
    var row := Row(t.times, slot);
    if builder !in row then NoBid
    else if row[builder] > MAX_INT64 then Unreadable
    else Last(row[builder])
  }
}
