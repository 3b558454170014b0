/** What one submission does, written without the functions the handler is specified by: which gate answers, and what is
    stored where once all have passed. */
module Admission {
  import opened Words
  import opened BidTables
  import opened BidBoard
  import opened Submission
  import opened Relay

  lemma GatesSpelledOut(t: Tables, current: Uint64, sub: Submission)
    ensures SlotOpen(current, sub.slot) <==>
      sub.slot == current || sub.slot == if current == 0xffff_ffff_ffff_ffff then 0 else current + 1
    ensures Overtaken(t, sub) <==>
      sub.builder in Row(t.times, sub.slot) && sub.receivedAt < Row(t.times, sub.slot)[sub.builder] <= 0x7fff_ffff_ffff_ffff
  {
  }

  lemma AnsweredPastTheGates(t: Tables, current: Uint64, sub: Submission, v: Verdicts, t': Tables, out: Outcome)
    requires Handled(t, current, sub, v, t', out) && Refusal(t, current, sub, v).None?
    ensures out.Accepted? || out == AuctionFailed
  {
  }

  /** The first failing gate answers, and nothing changes; a submission that passes them all is answered by the auction. */
  lemma GatesInOrder(t: Tables, current: Uint64, sub: Submission, v: Verdicts, t': Tables, out: Outcome)
    requires Handled(t, current, sub, v, t', out)
    ensures var undelivered := sub.slot !in t.delivered;
      var inTime := sub.slot == current || sub.slot == if current == 0xffff_ffff_ffff_ffff then 0 else current + 1;
      var sane := sub.header.blockHash == sub.blockHash && sub.header.parentHash == sub.parentHash;
      var times := Row(t.times, sub.slot);
      var newest := !(sub.builder in times && sub.receivedAt < times[sub.builder] <= 0x7fff_ffff_ffff_ffff);
      && (out == InactiveBuilder <==> !v.active)
      && (out == WrongTimestamp <==> v.active && !v.timely)
      && (out == AlreadyDelivered <==> v.active && v.timely && !undelivered)
      && (out == WrongSlot <==> v.active && v.timely && undelivered && !inTime)
      && (out == Insane <==> v.active && v.timely && undelivered && inTime && !sane)
      && (out == BadSignature <==> v.active && v.timely && undelivered && inTime && sane && !v.signed)
      && (out == UsingNewerBid <==> v.active && v.timely && undelivered && inTime && sane && v.signed && !newest)
      && (out.Accepted? || out == AuctionFailed <==>
            v.active && v.timely && undelivered && inTime && sane && v.signed && newest)
      && (out.Accepted? || out == AuctionFailed || t' == t)
  {
    GatesSpelledOut(t, current, sub);
    if Refusal(t, current, sub, v).None? {
      AnsweredPastTheGates(t, current, sub, v, t', out);
    }
  }

  /** Under the serial invariant a stored time always reads back, so the last gate is plain: the handler goes on exactly
      when no bid of the builder was received later. */
  lemma NewestIsPlain(t: Tables, sub: Submission)
    requires SerialInv(t)
    ensures var times := Row(t.times, sub.slot);
      Overtaken(t, sub) <==> sub.builder in times && sub.receivedAt < times[sub.builder]
  {
    assert SlotInv(t, sub.slot);
  }

  /** Past the gates, every table holds the fields of the submission under its own slot, builder and block hash, and is
      otherwise as before. */
  lemma AdmittedStores(t: Tables, current: Uint64, sub: Submission, v: Verdicts, t': Tables, out: Outcome)
    requires Handled(t, current, sub, v, t', out) && (out.Accepted? || out == AuctionFailed)
    ensures t'.utils == t.utils[sub.slot := Row(t.utils, sub.slot)[
      sub.blockHash := PayloadUtils(header := sub.header, api := sub.api, builder := sub.builder)]]
    ensures t'.bids == t.bids[sub.slot := Row(t.bids, sub.slot)[
      sub.builder := BidRecord(slot := sub.slot, proposer := sub.proposer, value := sub.value, header := sub.header)]]
    ensures t'.times == t.times[sub.slot := Row(t.times, sub.slot)[sub.builder := sub.receivedAt as nat]]
    ensures t'.values == t.values[sub.slot := Row(t.values, sub.slot)[sub.builder := sub.value]]
    ensures t'.delivered == t.delivered
  {
    assert Refusal(t, current, sub, v).None?;
    var a: AuctionOutcome :| out == Respond(a) && Auctioned(Submitted(t, sub), sub.slot, t', a);
  }

  /** The auction's part: an accepted answer names a builder with a positive value that no other exceeds, and that
      builder's stored bid becomes the highest record of the slot; otherwise the highest records stay. */
  lemma AdmittedAuction(t: Tables, current: Uint64, sub: Submission, v: Verdicts, t': Tables, out: Outcome)
    requires Handled(t, current, sub, v, t', out) && (out.Accepted? || out == AuctionFailed)
    ensures var bids, values := Row(t'.bids, sub.slot), Row(t'.values, sub.slot);
      if out.Accepted? then
        && out.builder in values && values[out.builder] == out.value > 0
        && (forall b :: b in values ==> values[b] <= out.value)
        && out.builder in bids && t'.highest == t.highest[sub.slot := bids[out.builder]]
      else
        t'.highest == t.highest && forall b :: b in values && b in bids && values[b] > 0 ==>
          exists c :: c in values && c !in bids && values[c] >= values[b]
  {
    var t1 := Submitted(t, sub);
    var a: AuctionOutcome :| out == Respond(a) && Auctioned(t1, sub.slot, t', a);
    AuctionSpelledOut(t1, sub.slot, t', a);
  }

  lemma AuctionSpelledOut(t: Tables, slot: nat, t': Tables, a: AuctionOutcome)
    requires Auctioned(t, slot, t', a)
    ensures t'.values == t.values && t'.bids == t.bids
    ensures var bids, values := Row(t.bids, slot), Row(t.values, slot);
      if a.Won? then
        && a.builder in values && values[a.builder] == a.value > 0
        && (forall b :: b in values ==> values[b] <= a.value)
        && a.builder in bids && t'.highest == t.highest[slot := bids[a.builder]]
      else
        t'.highest == t.highest && forall b :: b in values && b in bids && values[b] > 0 ==>
          exists c :: c in values && c !in bids && values[c] >= values[b]
  {
  }
}
