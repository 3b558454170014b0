/** The serial handler of Relay is the interleaved one of Protocol, run without interruption. */
module SoloRun {
  import opened BidTables
  import opened BidBoard
  import opened Submission
  import opened Relay
  import opened Protocol
  import opened Schedules

  /** Handler id is at pc, in a state with the given tables and the head of s. */
  ghost predicate At(s: State, s': State, id: nat, pc: Pc, t: Tables) {
    && id in s.handlers && id in s'.handlers && s'.handlers[id] == Handler(s.handlers[id].sub, pc)
    && s'.tables == t && s'.current == s.current
  }

  const PASSING := Verdicts(true, true, true)

  ghost predicate AuctionDone(t: Tables, slot: nat, t': Tables) {
    exists a :: Auctioned(t, slot, t', a)
  }

  /** What one operation leaves for the rest. */
  lemma NextIs(s: State, id: nat, top: string, steps: nat)
    requires Enabled(s, Advance(id, top)) && steps > 0
    ensures var s' := Apply(s, Advance(id, top));
      && Alone(s, id, top, steps) == Alone(s', id, top, steps - 1)
      && At(s, s', id, NextPc(s, s.handlers[id], top), NextTables(s.tables, s.handlers[id]))
  {
  }

  /** A handler that has ended stays where it is. */
  lemma EndedStays(s: State, id: nat, top: string, steps: nat)
    requires id in s.handlers && !Active(s.handlers[id])
    ensures Alone(s, id, top, steps) == s
  {
  }

  lemma Gates(s: State, id: nat, top: string)
    requires id in s.handlers && s.handlers[id].pc == Arrived
    ensures At(s, Alone(s, id, top, 3), id,
               if Refusal(s.tables, s.current, s.handlers[id].sub, PASSING).Some? then Refused else PassedChecks, s.tables)
  {
    NextIs(s, id, top, 3);
    var s1 := Apply(s, Advance(id, top));
    if Active(s1.handlers[id]) {
      NextIs(s1, id, top, 2);
      var s2 := Apply(s1, Advance(id, top));
      if Active(s2.handlers[id]) {
        NextIs(s2, id, top, 1);
      }
    }
  }

  lemma Writes(s: State, id: nat, top: string)
    requires id in s.handlers && s.handlers[id].pc == PassedChecks
    ensures At(s, Alone(s, id, top, 4), id, WroteValue, Submitted(s.tables, s.handlers[id].sub))
  {
    var l := Advance(id, top);
    SubmittedIsFourOperations(s.tables, s.handlers[id].sub);
    NextIs(s, id, top, 4);
    var s1 := Apply(s, l);
    NextIs(s1, id, top, 3);
    var s2 := Apply(s1, l);
    NextIs(s2, id, top, 2);
    var s3 := Apply(s2, l);
    NextIs(s3, id, top, 1);
  }

  /** The two reads of an auction that settles on top. */
  lemma Reads(s: State, id: nat, top: string)
    requires id in s.handlers && s.handlers[id].pc == WroteValue
    requires IsTop(Row(s.tables.values, s.handlers[id].sub.slot), top)
    ensures var slot, seen := s.handlers[id].sub.slot, Count(s.writes, s.handlers[id].sub.slot);
      At(s, Alone(s, id, top, 2), id,
         if top in Row(s.tables.bids, slot) then ReadBid(top, Row(s.tables.bids, slot)[top], seen) else Done, s.tables)
  {
    NextIs(s, id, top, 2);
    NextIs(Apply(s, Advance(id, top)), id, top, 1);
  }

  lemma AuctionAnswers(t: Tables, slot: nat, top: string, t': Tables)
    requires IsTop(Row(t.values, slot), top)
    requires t' == if top in Row(t.bids, slot) then PutHighest(t, slot, Row(t.bids, slot)[top]) else t
    ensures AuctionDone(t, slot, t')
  {
    var a := if top in Row(t.bids, slot) then Won(top, Row(t.values, slot)[top]) else MissingBid;
    assert Auctioned(t, slot, t', a);
  }

  lemma AuctionWithBids(s: State, id: nat, top: string)
    requires id in s.handlers && s.handlers[id].pc == WroteValue
    requires IsTop(Row(s.tables.values, s.handlers[id].sub.slot), top)
    ensures var end := Alone(s, id, top, 3);
      At(s, end, id, Done, end.tables) && AuctionDone(s.tables, s.handlers[id].sub.slot, end.tables)
  {
    var read := Alone(s, id, top, 2);
    Reads(s, id, top);
    assert Alone(s, id, top, 3) == Alone(read, id, top, 1) by { AloneComposes(s, id, top, 2, 1); }
    if Active(read.handlers[id]) {
      NextIs(read, id, top, 1);
    } else {
      EndedStays(read, id, top, 1);
    }
    AuctionAnswers(s.tables, s.handlers[id].sub.slot, top, Alone(read, id, top, 1).tables);
  }

  lemma AuctionWithoutBids(s: State, id: nat, top: string)
    requires id in s.handlers && s.handlers[id].pc == WroteValue
    requires !AnyPositive(Row(s.tables.values, s.handlers[id].sub.slot))
    ensures At(s, Alone(s, id, top, 3), id, Done, s.tables) && AuctionDone(s.tables, s.handlers[id].sub.slot, s.tables)
  {
    NextIs(s, id, top, 3);
    EndedStays(Apply(s, Advance(id, top)), id, top, 2);
    assert Auctioned(s.tables, s.handlers[id].sub.slot, s.tables, NoBids);
  }

  /** From arrival through the gates and the four writes. */
  lemma Submits(s: State, id: nat, top: string)
    requires id in s.handlers && s.handlers[id].pc == Arrived
    requires Refusal(s.tables, s.current, s.handlers[id].sub, PASSING).None?
    ensures At(s, Alone(s, id, top, 7), id, WroteValue, Submitted(s.tables, s.handlers[id].sub))
  {
    Gates(s, id, top);
    AloneComposes(s, id, top, 3, 4);
    Writes(Alone(s, id, top, 3), id, top);
  }

  lemma RefusedAlone(s: State, id: nat, top: string)
    requires id in s.handlers && s.handlers[id].pc == Arrived
    requires Refusal(s.tables, s.current, s.handlers[id].sub, PASSING).Some?
    ensures At(s, Alone(s, id, top, 10), id, Refused, s.tables)
  {
    Gates(s, id, top);
    AloneComposes(s, id, top, 3, 7);
    EndedStays(Alone(s, id, top, 3), id, top, 7);
  }

  lemma AdmittedAlone(s: State, id: nat, top: string)
    requires id in s.handlers && s.handlers[id].pc == Arrived
    requires Refusal(s.tables, s.current, s.handlers[id].sub, PASSING).None?
    requires var values := Row(Submitted(s.tables, s.handlers[id].sub).values, s.handlers[id].sub.slot);
      AnyPositive(values) ==> IsTop(values, top)
    ensures var sub, end := s.handlers[id].sub, Alone(s, id, top, 10);
      At(s, end, id, Done, end.tables) && AuctionDone(Submitted(s.tables, sub), sub.slot, end.tables)
  {
    var m := Alone(s, id, top, 7);
    assert At(s, m, id, WroteValue, Submitted(s.tables, s.handlers[id].sub)) by { Submits(s, id, top); }
    assert Alone(s, id, top, 10) == Alone(m, id, top, 3) by { AloneComposes(s, id, top, 7, 3); }
    if AnyPositive(Row(m.tables.values, s.handlers[id].sub.slot)) {
      AuctionWithBids(m, id, top);
    } else {
      AuctionWithoutBids(m, id, top);
    }
  }

  /** Whichever maximum its auction's loop settles on, a handler that runs without interruption ends, refused exactly
      when a gate refuses, and does to the tables what the serial specification allows. */
  lemma AloneIsHandled(s: State, id: nat, top: string)
    requires id in s.handlers && s.handlers[id].pc == Arrived
    requires var values := Row(Submitted(s.tables, s.handlers[id].sub).values, s.handlers[id].sub.slot);
      AnyPositive(values) ==> IsTop(values, top)
    ensures var sub, end := s.handlers[id].sub, Alone(s, id, top, 10);
      && id in end.handlers
      && end.handlers[id].pc == (if Refusal(s.tables, s.current, sub, PASSING).Some? then Refused else Done)
      && exists out :: Handled(s.tables, s.current, sub, PASSING, end.tables, out)
  {
    var sub, end := s.handlers[id].sub, Alone(s, id, top, 10);
    match Refusal(s.tables, s.current, sub, PASSING)
    case Some(refusal) =>
      RefusedAlone(s, id, top);
      assert Handled(s.tables, s.current, sub, PASSING, end.tables, refusal);
    case None =>
      AdmittedAlone(s, id, top);
      var a :| Auctioned(Submitted(s.tables, sub), sub.slot, end.tables, a);
      assert Handled(s.tables, s.current, sub, PASSING, end.tables, Respond(a));
  }

  /** There always is such a maximum, so every handler left alone ends. */
  lemma AloneEnds(s: State, id: nat) returns (top: string)
    requires id in s.handlers && s.handlers[id].pc == Arrived
    ensures var sub, end := s.handlers[id].sub, Alone(s, id, top, 10);
      && id in end.handlers
      && end.handlers[id].pc == (if Refusal(s.tables, s.current, sub, PASSING).Some? then Refused else Done)
      && exists out :: Handled(s.tables, s.current, sub, PASSING, end.tables, out)
  {
    var values := Row(Submitted(s.tables, s.handlers[id].sub).values, s.handlers[id].sub.slot);
    if AnyPositive(values) {
      TopExists(values);
      top :| IsTop(values, top);
    } else {
      top := "";
    }
    AloneIsHandled(s, id, top);
  }
}
