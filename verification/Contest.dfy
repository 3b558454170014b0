/** Several builders bid for one slot at once: if the positive values are equal, every interleaving leaves a best bid in
    the highest key. */
module Contest {
  import opened BidTables
  import opened Submission
  import opened Protocol
  import opened Quiescence

  /** Submissions for one slot, one per builder. */
  ghost predicate IsContest(subs: set<Submission>, slot: nat) {
    && subs != {}
    && (forall sub :: sub in subs ==> sub.slot == slot && Sane(sub))
    && (forall a, b :: a in subs && b in subs && a != b ==> a.builder != b.builder)
  }

  ghost predicate SomePositive(subs: set<Submission>) {
    exists sub :: sub in subs && sub.value > 0
  }

  /** Some value is positive, and all that are positive are equal. */
  ghost predicate PositivesAgree(subs: set<Submission>) {
    SomePositive(subs) && forall a, b :: a in subs && b in subs && a.value > 0 && b.value > 0 ==> a.value == b.value
  }

  predicate Admitted(h: Handler, slot: nat) {
    h.sub.slot == slot && !h.pc.Refused?
  }

  ghost predicate AdmitsOnly(s: State, slot: nat, subs: set<Submission>) {
    forall id :: id in s.handlers && Admitted(s.handlers[id], slot) ==> s.handlers[id].sub in subs
  }

  /** The handlers of the slot that no gate refused are those of the given submissions, one each. */
  ghost predicate Admits(s: State, slot: nat, subs: set<Submission>) {
    && AdmitsOnly(s, slot, subs)
    && (forall sub :: sub in subs ==>
          exists id :: id in s.handlers && Admitted(s.handlers[id], slot) && s.handlers[id].sub == sub)
    && (forall i, j | i in s.handlers && j in s.handlers && i != j ::
          Admitted(s.handlers[i], slot) && Admitted(s.handlers[j], slot) ==> s.handlers[i].sub != s.handlers[j].sub)
  }

  ghost predicate IsRecord(subs: set<Submission>, rec: BidRecord) {
    exists sub :: sub in subs && RecordOf(sub) == rec
  }

  /** The highest key holds the record of a submission that no other exceeds. */
  ghost predicate Decided(t: Tables, slot: nat, subs: set<Submission>) {
    && slot in t.highest && IsRecord(subs, t.highest[slot])
    && forall sub :: sub in subs ==> sub.value <= t.highest[slot].value
  }

  // ----- what the submissions leave in the slot, whatever their order

  ghost predicate IsPositiveRecord(subs: set<Submission>, rec: BidRecord) {
    exists sub :: sub in subs && sub.value > 0 && RecordOf(sub) == rec
  }

  ghost predicate RowsFrom(t: Tables, slot: nat, subs: set<Submission>) {
    && (forall b :: b in Row(t.bids, slot) ==>
          exists sub :: sub in subs && sub.builder == b && RecordOf(sub) == Row(t.bids, slot)[b])
    && (forall b :: b in Row(t.values, slot) ==>
          exists sub :: sub in subs && sub.builder == b && sub.value == Row(t.values, slot)[b])
    && (slot in t.highest ==> IsPositiveRecord(subs, t.highest[slot]))
  }

  /** A positive submission finds a bid to store, and an auction stores only positive ones. */
  ghost predicate HandlerFrom(t: Tables, h: Handler, subs: set<Submission>) {
    match h.pc
    case WroteValue => h.sub.builder in Row(t.values, h.sub.slot)
    case ChoseTop(top, _) => exists sub :: sub in subs && sub.builder == top && sub.value > 0
    case ReadBid(_, rec, _) => IsPositiveRecord(subs, rec)
    case Done => h.sub.value > 0 ==> h.sub.slot in t.highest
    case _ => true
  }

  ghost predicate From(s: State, slot: nat, subs: set<Submission>) {
    && RowsFrom(s.tables, slot, subs)
    && forall id :: id in s.handlers && s.handlers[id].sub.slot == slot ==> HandlerFrom(s.tables, s.handlers[id], subs)
  }

  /** If the step writes the slot, its submission is one of subs. */
  ghost predicate MoverIn(s: State, l: Label, slot: nat, subs: set<Submission>) {
    l.Advance? && l.id in s.handlers && s.handlers[l.id].sub.slot == slot && PastChecks(s.handlers[l.id]) ==>
      s.handlers[l.id].sub in subs
  }

  lemma StepKeepsRowsFrom(s: State, l: Label, slot: nat, subs: set<Submission>)
    requires Enabled(s, l) && From(s, slot, subs) && MoverIn(s, l, slot, subs) && IsContest(subs, slot)
    ensures RowsFrom(Apply(s, l).tables, slot, subs)
  {
    StepRows(s, l, slot);
    HighestChanges(s, l, slot);
  }

  lemma StepKeepsHandlerFrom(s: State, l: Label, slot: nat, subs: set<Submission>, id: nat)
    requires Enabled(s, l) && From(s, slot, subs) && Nested(s) && MoverIn(s, l, slot, subs) && IsContest(subs, slot)
    requires id in Apply(s, l).handlers && Apply(s, l).handlers[id].sub.slot == slot
    ensures HandlerFrom(Apply(s, l).tables, Apply(s, l).handlers[id], subs)
  {
    StepRows(s, l, slot);
    HighestChanges(s, l, slot);
    if l.Advance? && l.id == id {
      assert HandlerFrom(s.tables, s.handlers[id], subs) && HandlerBacked(s.tables, s.handlers[id]);
    } else if id in s.handlers && !l.Fail? {
      assert HandlerFrom(s.tables, s.handlers[id], subs);
    }
  }

  lemma {:induction false} RunKeepsFrom(s: State, labels: seq<Label>, slot: nat, subs: set<Submission>)
    requires Runs(s, labels) && From(s, slot, subs) && Nested(s) && IsContest(subs, slot)
    requires AdmitsOnly(Exec(s, labels), slot, subs)
    ensures From(Exec(s, labels), slot, subs)
    decreases |labels|
  {
    if labels != [] {
      var l, s' := labels[0], Apply(s, labels[0]);
      if l.Advance? && PastChecks(s.handlers[l.id]) {
        PastChecksStays(s, labels, l.id);
      }
      StepKeepsRowsFrom(s, l, slot, subs);
      forall id | id in s'.handlers && s'.handlers[id].sub.slot == slot ensures HandlerFrom(s'.tables, s'.handlers[id], subs) {
        StepKeepsHandlerFrom(s, l, slot, subs, id);
      }
      StepKeepsNested(s, l);
      RunKeepsFrom(s', labels[1..], slot, subs);
    }
  }

  /** Every run, exclusive or not, in which some positive submission is admitted ends with the record of a positive one
      in the highest key; if their values are equal that decides the slot. With no positive one the key stays empty. */
  lemma SomeSubmissionWins(labels: seq<Label>, slot: nat, subs: set<Submission>)
    requires Runs(START, labels) && IsContest(subs, slot)
    requires Admits(Exec(START, labels), slot, subs) && Quiet(Exec(START, labels), slot)
    ensures var t := Exec(START, labels).tables;
      && (slot in t.highest <==> SomePositive(subs))
      && (slot in t.highest ==> IsPositiveRecord(subs, t.highest[slot]))
      && (PositivesAgree(subs) ==> Decided(t, slot, subs))
  {
    var s := Exec(START, labels);
    RunKeepsFrom(START, labels, slot, subs);
    if SomePositive(subs) {
      var sub :| sub in subs && sub.value > 0;
      var id :| id in s.handlers && Admitted(s.handlers[id], slot) && s.handlers[id].sub == sub;
      assert HandlerFrom(s.tables, s.handlers[id], subs);
    }
  }
}
