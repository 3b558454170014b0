/** Which contests are safe under concurrency. With two different positive values some interleaving leaves a beaten bid
    in the highest key: the slow auction of a lower bid overwrites a better one with what it had read. */
module StaleAuction {
  import opened BidTables
  import opened Submission
  import opened Relay
  import opened Protocol
  import opened Schedules
  import opened SoloRun
  import opened Quiescence
  import opened Contest

  ghost predicate HasHandler(s: State, sub: Submission) {
    exists id :: id in s.handlers && id != 0 && s.handlers[id].sub == sub
  }

  ghost predicate AllEnded(s: State, done: set<Submission>) {
    forall id :: id in s.handlers && id != 0 ==> id <= |done| && s.handlers[id].pc == Done && s.handlers[id].sub in done
  }

  ghost predicate Distinct(s: State) {
    forall i, j | i in s.handlers && j in s.handlers && i != 0 && j != 0 :: i != j ==> s.handlers[i].sub != s.handlers[j].sub
  }

  /** The handlers other than 0 have ended, one for each submission of done. */
  ghost predicate OneEach(s: State, done: set<Submission>) {
    AllEnded(s, done) && Distinct(s) && forall sub :: sub in done ==> HasHandler(s, sub)
  }

  ghost predicate FirstAt(s: State, first: Submission, pc: Pc) {
    0 in s.handlers && s.handlers[0] == Handler(first, pc)
  }

  ghost predicate Stored(t: Tables, sub: Submission) {
    sub.builder in Row(t.values, sub.slot) && Row(t.values, sub.slot)[sub.builder] == sub.value
  }

  /** The slot is open, and only low and the submissions of done have been stored in it. */
  ghost predicate OnlyStored(s: State, low: Submission, done: set<Submission>) {
    && s.current == low.slot && low.slot as nat !in s.tables.delivered
    && Stored(s.tables, low) && (forall sub :: sub in done ==> Stored(s.tables, sub))
    && forall b :: b in Row(s.tables.times, low.slot) ==> b == low.builder || exists sub :: sub in done && sub.builder == b
  }

  /** The first handler stays at pc while the submissions of done have come and gone. */
  ghost predicate Waiting(s: State, first: Submission, pc: Pc, done: set<Submission>) {
    Reaches(START, s, true) && FirstAt(s, first, pc) && OneEach(s, done) && OnlyStored(s, first, done)
  }

  lemma SubmittedFirst(low: Submission)
    ensures var t := Submitted(EMPTY, low);
      && Row(t.values, low.slot) == map[low.builder := low.value]
      && Row(t.times, low.slot) == map[low.builder := low.receivedAt as nat]
      && Row(t.bids, low.slot) == map[low.builder := RecordOf(low)] && t.delivered == map[]
  {
  }

  lemma LowReadsItself(a: State, low: Submission)
    requires a == OpenFor(low.slot).(handlers := map[0 := Handler(low, Arrived)])
    requires Sane(low) && low.value > 0
    ensures var s := Alone(a, 0, low.builder, 9);
      && s.tables == Submitted(EMPTY, low) && s.current == low.slot && s.handlers.Keys == {0}
      && exists seen :: FirstAt(s, low, ReadBid(low.builder, RecordOf(low), seen))
  {
    var m := Alone(a, 0, low.builder, 7);
    assert At(a, m, 0, WroteValue, Submitted(EMPTY, low)) by { Submits(a, 0, low.builder); }
    SubmittedFirst(low);
    assert Alone(a, 0, low.builder, 9) == Alone(m, 0, low.builder, 2) by { AloneComposes(a, 0, low.builder, 7, 2); }
    Reads(m, 0, low.builder);
    assert FirstAt(Alone(m, 0, low.builder, 2), low, ReadBid(low.builder, RecordOf(low), Count(m.writes, low.slot)));
    AloneFrame(a, 0, low.builder, 9);
  }

  /** The low bid is stored and read back by its own auction before any other arrives. */
  lemma LowWaits(low: Submission) returns (s: State, seen: nat)
    requires Sane(low) && low.value > 0
    ensures Waiting(s, low, ReadBid(low.builder, RecordOf(low), seen), {})
  {
    SlotOpens(low.slot);
    var a := ReachesNext(START, OpenFor(low.slot), Arrive(0, low), true);
    s := Alone(a, 0, low.builder, 9);
    AloneReaches(a, 0, low.builder, 9, true);
    ReachesCompose(START, a, s, true);
    LowReadsItself(a, low);
    SubmittedFirst(low);
    seen :| FirstAt(s, low, ReadBid(low.builder, RecordOf(low), seen));
  }

  /** What a handler past its gates leaves on the board, apart from the highest key. */
  ghost predicate Leaves(t: Tables, sub: Submission, t': Tables) {
    && t'.delivered == t.delivered
    && t'.times == Put(t.times, sub.slot, sub.builder, sub.receivedAt as nat)
    && t'.values == Put(t.values, sub.slot, sub.builder, sub.value)
  }

  lemma AloneLeaves(a: State, id: nat, sub: Submission) returns (top: string)
    requires id in a.handlers && a.handlers[id] == Handler(sub, Arrived)
    requires Refusal(a.tables, a.current, sub, PASSING).None?
    ensures var s := Alone(a, id, top, 10);
      id in s.handlers && s.handlers[id].pc == Done && Leaves(a.tables, sub, s.tables)
  {
    top := AloneEnds(a, id);
    var t' := Alone(a, id, top, 10).tables;
    var out :| Handled(a.tables, a.current, sub, PASSING, t', out);
    HandledFrame(a.tables, a.current, sub, PASSING, t', out);
  }

  lemma LastWriteStays<V>(m: map<nat, V>, k: nat, v: V, w: V)
    ensures m[k := v][k := w] == m[k := w]
  {
  }

  /** A submission that no gate refuses arrives and runs to its end. */
  lemma RunsToItsEnd(s: State, id: nat, sub: Submission) returns (s': State)
    requires Reaches(START, s, true) && Exclusive(s) && id !in s.handlers && Exclusive(Apply(s, Arrive(id, sub)))
    requires Refusal(s.tables, s.current, sub, PASSING).None?
    ensures Reaches(START, s', true) && s'.current == s.current
    ensures s'.handlers == s.handlers[id := Handler(sub, Done)] && Leaves(s.tables, sub, s'.tables)
  {
    var a := ReachesNext(START, s, Arrive(id, sub), true);
    var top := AloneLeaves(a, id, sub);
    AloneReaches(a, id, top, 10, true);
    AloneFrame(a, id, top, 10);
    LastWriteStays(s.handlers, id, Handler(sub, Arrived), Handler(sub, Done));
    s' := Alone(a, id, top, 10);
    ReachesCompose(START, a, s', true);
  }

  lemma NewcomerPasses(s: State, subs: set<Submission>, low: Submission, done: set<Submission>, sub: Submission)
    requires OnlyStored(s, low, done) && IsContest(subs, low.slot)
    requires low in subs && done <= subs && sub in subs && sub !in done && sub != low
    ensures Refusal(s.tables, s.current, sub, PASSING).None?
  {
    assert sub.builder != low.builder && forall other :: other in done ==> other.builder != sub.builder;
    assert sub.builder !in Row(s.tables.times, sub.slot);
  }

  lemma OneMoreEnded(s: State, s': State, done: set<Submission>, sub: Submission)
    requires AllEnded(s, done) && Distinct(s) && sub !in done
    requires s'.handlers == s.handlers[|done| + 1 := Handler(sub, Done)]
    ensures |done| + 1 !in s.handlers && AllEnded(s', done + {sub}) && Distinct(s')
  {
    assert |done + {sub}| == |done| + 1;
  }

  lemma HandlersRemain(s: State, s': State, sub: Submission)
    requires HasHandler(s, sub)
    requires forall id :: id in s.handlers && id != 0 ==> id in s'.handlers && s'.handlers[id].sub == s.handlers[id].sub
    ensures HasHandler(s', sub)
  {
  }

  lemma OneEachMore(s: State, s': State, done: set<Submission>, sub: Submission)
    requires OneEach(s, done) && sub !in done && s'.handlers == s.handlers[|done| + 1 := Handler(sub, Done)]
    ensures OneEach(s', done + {sub})
  {
    OneMoreEnded(s, s', done, sub);
    forall other | other in done + {sub} ensures HasHandler(s', other) {
      if other == sub {
        assert s'.handlers[|done| + 1].sub == sub;
      } else {
        HandlersRemain(s, s', other);
      }
    }
  }

  lemma StoredMore(s: State, s': State, low: Submission, done: set<Submission>, sub: Submission)
    requires OnlyStored(s, low, done) && sub.slot == low.slot && low.builder != sub.builder
    requires forall other :: other in done ==> other.builder != sub.builder
    requires s'.current == s.current && Leaves(s.tables, sub, s'.tables)
    ensures OnlyStored(s', low, done + {sub})
  {
    forall b | b in Row(s'.tables.times, low.slot) && b != low.builder
      ensures exists other :: other in done + {sub} && other.builder == b
    {
      if b == sub.builder {
        assert sub in done + {sub};
      } else {
        var other :| other in done && other.builder == b;
        assert other in done + {sub};
      }
    }
    forall other | other in done ensures Stored(s'.tables, other) {
      assert Stored(s.tables, other);
    }
  }

  lemma NewcomerIsExclusive(s: State, first: Submission, pc: Pc, done: set<Submission>, id: nat, sub: Submission)
    requires FirstAt(s, first, pc) && AllEnded(s, done) && sub.builder != first.builder && id !in s.handlers
    ensures Exclusive(s) && Exclusive(Apply(s, Arrive(id, sub)))
  {
  }

  lemma OneMore(s: State, subs: set<Submission>, low: Submission, pc: Pc, done: set<Submission>, sub: Submission)
    returns (s': State)
    requires Waiting(s, low, pc, done) && IsContest(subs, low.slot)
    requires low in subs && done <= subs && sub in subs && sub !in done && sub != low
    ensures Waiting(s', low, pc, done + {sub})
  {
    var id := |done| + 1;
    NewcomerPasses(s, subs, low, done, sub);
    NewcomerIsExclusive(s, low, pc, done, id, sub);
    s' := RunsToItsEnd(s, id, sub);
    OneEachMore(s, s', done, sub);
    StoredMore(s, s', low, done, sub);
  }

  /** One after the other, all the others come and go. */
  lemma {:induction false} AllMore(s: State, subs: set<Submission>, low: Submission, pc: Pc, done: set<Submission>)
    returns (s': State)
    requires Waiting(s, low, pc, done) && IsContest(subs, low.slot) && low in subs && done <= subs - {low}
    ensures Waiting(s', low, pc, subs - {low})
    decreases subs - done
  {
    if done == subs - {low} {
      s' := s;
    } else {
      var sub :| sub in subs - {low} && sub !in done;
      var m := OneMore(s, subs, low, pc, done, sub);
      s' := AllMore(m, subs, low, pc, done + {sub});
    }
  }

  /** At rest with the record of low in the highest key. */
  ghost predicate EndsWith(s: State, subs: set<Submission>, low: Submission) {
    && Quiet(s, low.slot) && Admits(s, low.slot, subs) && (forall sub :: sub in subs ==> Stored(s.tables, sub))
    && low.slot in s.tables.highest && s.tables.highest[low.slot] == RecordOf(low)
  }

  lemma OneEachAdmits(s: State, subs: set<Submission>, low: Submission)
    requires OneEach(s, subs - {low}) && low in subs && 0 in s.handlers && s.handlers[0] == Handler(low, Done)
    requires forall sub :: sub in subs ==> sub.slot == low.slot
    ensures Admits(s, low.slot, subs) && Quiet(s, low.slot)
  {
    forall sub | sub in subs
      ensures exists id :: id in s.handlers && Admitted(s.handlers[id], low.slot) && s.handlers[id].sub == sub
    {
      if sub == low {
        assert Admitted(s.handlers[0], low.slot);
      } else {
        assert sub in subs - {low};
        assert HasHandler(s, sub);
        var id :| id in s.handlers && id != 0 && s.handlers[id].sub == sub;
        assert Admitted(s.handlers[id], low.slot);
      }
    }
  }

  lemma OthersStay(s: State, s': State, done: set<Submission>, h: Handler)
    requires OneEach(s, done) && s'.handlers == s.handlers[0 := h]
    ensures OneEach(s', done)
  {
    forall sub | sub in done ensures HasHandler(s', sub) {
      HandlersRemain(s, s', sub);
    }
  }

  lemma StepStores(s: State, low: Submission) returns (s': State)
    requires Reaches(START, s, true) && Exclusive(s)
    requires 0 in s.handlers && s.handlers[0].sub == low && s.handlers[0].pc.ReadBid? && s.handlers[0].pc.rec == RecordOf(low)
    ensures Reaches(START, s', true) && s'.handlers == s.handlers[0 := Handler(low, Done)]
    ensures s'.tables == PutHighest(s.tables, low.slot, RecordOf(low))
  {
    AdvanceKeepsExclusive(s, 0, "");
    s' := ReachesNext(START, s, Advance(0, ""), true);
  }

  /** Then the low auction stores what it had read. */
  lemma LowStores(s: State, subs: set<Submission>, low: Submission, seen: nat) returns (s': State)
    requires Waiting(s, low, ReadBid(low.builder, RecordOf(low), seen), subs - {low})
    requires low in subs && forall sub :: sub in subs ==> sub.slot == low.slot
    ensures Reaches(START, s', true) && EndsWith(s', subs, low)
  {
    s' := StepStores(s, low);
    OthersStay(s, s', subs - {low}, Handler(low, Done));
    OneEachAdmits(s', subs, low);
    forall sub | sub in subs ensures Stored(s'.tables, sub) {
      assert Stored(s.tables, sub);
    }
  }

  /** Any positive submission of a contest can be made to win it. */
  lemma AnyPositiveCanWin(subs: set<Submission>, low: Submission, slot: nat) returns (s: State)
    requires IsContest(subs, slot) && low in subs && low.value > 0
    ensures Reaches(START, s, true) && EndsWith(s, subs, low)
  {
    var seen;
    s, seen := LowWaits(low);
    s := AllMore(s, subs, low, ReadBid(low.builder, RecordOf(low), seen), {});
    s := LowStores(s, subs, low, seen);
  }

  /** Every contest can come to rest with all its submissions admitted. */
  lemma ContestCanEnd(subs: set<Submission>, slot: nat) returns (s: State)
    requires IsContest(subs, slot)
    ensures Reaches(START, s, true) && Admits(s, slot, subs) && Quiet(s, slot)
  {
    var first :| first in subs;
    SlotOpens(first.slot);
    s := RunsToItsEnd(OpenFor(first.slot), 0, first);
    s := AllMore(s, subs, first, Done, {});
    OneEachAdmits(s, subs, first);
  }

  /** Every exclusive run that admits exactly these submissions and comes to rest. */
  ghost predicate AlwaysDecided(subs: set<Submission>, slot: nat) {
    forall s :: Reaches(START, s, true) && Admits(s, slot, subs) && Quiet(s, slot) ==> Decided(s.tables, slot, subs)
  }

  /** The highest key is always right exactly when some bid of the contest is positive and the positive ones are equal. */
  lemma SafeExactlyWhenPositivesAgree(subs: set<Submission>, slot: nat)
    requires IsContest(subs, slot)
    ensures AlwaysDecided(subs, slot) <==> PositivesAgree(subs)
  {
    if PositivesAgree(subs) {
      forall s | Reaches(START, s, true) && Admits(s, slot, subs) && Quiet(s, slot) ensures Decided(s.tables, slot, subs) {
        var labels :| Path(START, labels, s, true);
        SomeSubmissionWins(labels, slot, subs);
      }
    } else if SomePositive(subs) {
      var low, high :| low in subs && high in subs && 0 < low.value < high.value;
      var s := AnyPositiveCanWin(subs, low, slot);
      assert !Decided(s.tables, slot, subs);
    } else {
      var s := ContestCanEnd(subs, slot);
      var labels :| Path(START, labels, s, true);
      SomeSubmissionWins(labels, slot, subs);
    }
  }

  /** A quiet state whose highest key holds less than the value table shows. */
  ghost predicate QuietButBeaten(s: State, slot: nat, low: Submission, high: Submission) {
    && Quiet(s, slot)
    && slot in s.tables.highest && s.tables.highest[slot] == RecordOf(low)
    && high.builder in Row(s.tables.values, slot) && Row(s.tables.values, slot)[high.builder] == high.value > low.value
  }

  /** For two bids. */
  lemma StaleAuctionWins(low: Submission, high: Submission)
    requires low.builder != high.builder && low.slot == high.slot
    requires Sane(low) && Sane(high) && 0 < low.value < high.value
    ensures exists s :: Reaches(START, s, true) && QuietButBeaten(s, low.slot, low, high)
  {
    var s := AnyPositiveCanWin({low, high}, low, low.slot);
    assert QuietButBeaten(s, low.slot, low, high);
  }
}
