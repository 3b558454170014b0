/** One builder submission: its gates in the order relay/relay.go checks them, and the records it writes. */
module Submission {
  import opened Words
  import opened BidTables

  /** Seconds since 1970 on a clock that is not before it. */
  type UnixTime = n: nat | n <= MAX_INT64

  datatype Submission = Submission(
    slot: Uint64, builder: string, proposer: string, value: int,
    blockHash: string, parentHash: string, header: Header, api: string, receivedAt: UnixTime)

  /** The block and parent hashes of the message are those of its header. */
  predicate Sane(sub: Submission) {
    sub.blockHash == sub.header.blockHash && sub.parentHash == sub.header.parentHash
  }

  /** The slot gate: the current slot or the next one, in 64-bit arithmetic. */
  predicate SlotOpen(current: Uint64, slot: Uint64) {
    slot == current || slot == WrapUint64(current + 1)
  }

  /** A slot behind the head is closed, with one exception at the end of the 64-bit range. */
  lemma PastSlotIsClosed(current: Uint64, slot: Uint64)
    requires slot < current
    ensures SlotOpen(current, slot) <==> slot == 0 && current == TWO_64 - 1
  {
  }

  /** A later bid of the same builder was stored before this one arrived. */
  predicate Overtaken(t: Tables, sub: Submission) {
    var last := LastOf(t, sub.slot, sub.builder);
    last.Last? && sub.receivedAt < last.at
  }

  function RecordOf(sub: Submission): BidRecord {
    BidRecord(sub.slot, sub.proposer, sub.value, sub.header)
  }

  function UtilsOf(sub: Submission): PayloadUtils {
    PayloadUtils(sub.header, sub.api, sub.builder)
  }

  /** The four writes, in the order of the code. */
  function Submitted(t: Tables, sub: Submission): Tables {
    var t1 := PutUtils(t, sub.slot, sub.blockHash, UtilsOf(sub));
    var t2 := PutBid(t1, sub.builder, RecordOf(sub));
    var t3 := PutTime(t2, sub.slot, sub.builder, sub.receivedAt);
    PutValue(t3, sub.slot, sub.builder, sub.value)
  }
}
