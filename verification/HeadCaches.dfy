/** The maps around the head under concurrency: the event loop, its randao and refresh tasks, and proposer lookups
    interleave at the critical sections of the shared mutex. The clients agree on one duty assignment. */
module HeadCaches {
  import opened Words
  import opened HeadTracker

  datatype Answered = Answered(slot: Uint64, answer: Answer)

  /** evicting: the event loop has moved the head and not yet cleaned the maps.
      late: the keys written since the last cleaning. received, late and answers are bookkeeping. */
  datatype State = State(
    head: Head, evicting: bool, randao: map<Uint64, string>, proposers: map<Uint64, Duty>,
    randaoTasks: multiset<Uint64>, refreshes: nat, epochs: multiset<nat>, misses: multiset<Uint64>,
    received: seq<HeadEvent>, late: set<Uint64>, answers: seq<Answered>)

  datatype Label =
    | Receive(ev: HeadEvent)                  // the head moves, or the event is old
    | Evict                                   // the loop's second critical section
    | WriteRandao(slot: Uint64, value: string)  // a randao task succeeds with some value
    | DropRandao(slot: Uint64)                // or fails
    | StartRefresh                            // a refresh task of one client reads the head
    | WriteEpoch(epoch: nat)                  // and merges the duties of one epoch
    | DropEpoch(epoch: nat)                   // or its client fails
    | Hit(slot: Uint64)                       // a lookup finds its slot
    | Miss(slot: Uint64)                      // a lookup misses and goes fetching
    | Fill(slot: Uint64)                      // a client answered: merge, and look again
    | GiveUp(slot: Uint64)                    // no client answered

  function EpochDuties(duties: map<Uint64, Duty>, epoch: nat): map<Uint64, Duty> {
    map k | k in duties && k / 32 == epoch :: duties[k]
  }

  /** What a direct lookup in the assignment answers. */
  function Direct(duties: map<Uint64, Duty>, slot: Uint64): Answer {
    if slot in duties then Found(duties[slot]) else NotFound
  }

  predicate Enabled(s: State, l: Label) {
    match l
    case Receive(_) => !s.evicting
    case Evict => s.evicting
    case WriteRandao(slot, _) => slot in s.randaoTasks
    case DropRandao(slot) => slot in s.randaoTasks
    case StartRefresh => s.refreshes > 0
    case WriteEpoch(epoch) => epoch in s.epochs
    case DropEpoch(epoch) => epoch in s.epochs
    case Hit(slot) => slot in s.proposers
    case Miss(slot) => slot !in s.proposers
    case Fill(slot) => slot in s.misses
    case GiveUp(slot) => slot in s.misses
  }

  /** clients refresh tasks start at every epoch edge, one per client. */
  function Apply(s: State, l: Label, duties: map<Uint64, Duty>, clients: nat): State
    requires Enabled(s, l)
  {
    match l
    case Receive(ev) =>
      if ev.slot <= s.head.slot then s.(received := s.received + [ev])
      else s.(received := s.received + [ev], head := OnEvent(s.head, ev), evicting := true,
              randaoTasks := s.randaoTasks + multiset(RandaoTasks(ev.slot)),
              refreshes := s.refreshes + if AtEpochEdge(ev.slot) then clients else 0)
    case Evict =>
      s.(evicting := false, randao := Fresh(s.randao, s.head.slot), proposers := Fresh(s.proposers, s.head.slot), late := {})
    case WriteRandao(slot, value) =>
      s.(randao := s.randao[slot := value], late := s.late + {slot}, randaoTasks := s.randaoTasks - multiset{slot})
    case DropRandao(slot) => s.(randaoTasks := s.randaoTasks - multiset{slot})
    case StartRefresh =>
      var epoch: nat := s.head.event.slot / 32;
      s.(refreshes := s.refreshes - 1, epochs := s.epochs + multiset{epoch, epoch + 1})
    case WriteEpoch(epoch) =>
      var fetched := EpochDuties(duties, epoch);
      s.(proposers := s.proposers + fetched, late := s.late + fetched.Keys, epochs := s.epochs - multiset{epoch})
    case DropEpoch(epoch) => s.(epochs := s.epochs - multiset{epoch})
    case Hit(slot) => s.(answers := s.answers + [Answered(slot, Found(s.proposers[slot]))])
    case Miss(slot) => s.(misses := s.misses + multiset{slot})
    case Fill(slot) =>
      var fetched := EpochDuties(duties, slot / 32);
      var proposers := s.proposers + fetched;
      var answer := if slot in proposers then Found(proposers[slot]) else NotFound;
      s.(proposers := proposers, late := s.late + fetched.Keys, misses := s.misses - multiset{slot},
         answers := s.answers + [Answered(slot, answer)])
    case GiveUp(slot) =>
      s.(misses := s.misses - multiset{slot}, answers := s.answers + [Answered(slot, FetchFailed)])
  }

  const START := State(NO_HEAD, false, map[], map[], multiset{}, 0, multiset{}, multiset{}, [], {}, [])

  predicate Runs(s: State, labels: seq<Label>, duties: map<Uint64, Duty>, clients: nat)
    decreases |labels|
  {
    labels == [] || (Enabled(s, labels[0]) && Runs(Apply(s, labels[0], duties, clients), labels[1..], duties, clients))
  }

  function Exec(s: State, labels: seq<Label>, duties: map<Uint64, Duty>, clients: nat): State
    requires Runs(s, labels, duties, clients)
    decreases |labels|
  {
    if labels == [] then s else Exec(Apply(s, labels[0], duties, clients), labels[1..], duties, clients)
  }

  // ----- invariants

  ghost predicate Agrees(m: map<Uint64, Duty>, duties: map<Uint64, Duty>) {
    forall k :: k in m ==> k in duties && m[k] == duties[k]
  }

  ghost predicate AnswersAgree(answers: seq<Answered>, duties: map<Uint64, Duty>) {
    forall i :: 0 <= i < |answers| ==>
      answers[i].answer == FetchFailed || answers[i].answer == Direct(duties, answers[i].slot)
  }

  ghost predicate StaleKeysAreLate<V>(m: map<Uint64, V>, s: State) {
    forall k :: k in m && Stale(k, s.head.slot) ==> k in s.late
  }

  ghost predicate Inv(s: State, duties: map<Uint64, Duty>) {
    && s.head == Track(s.received)
    && Agrees(s.proposers, duties)
    && AnswersAgree(s.answers, duties)
    && (!s.evicting ==> StaleKeysAreLate(s.randao, s) && StaleKeysAreLate(s.proposers, s))
  }

  lemma AnswersExtend(answers: seq<Answered>, a: Answered, duties: map<Uint64, Duty>)
    requires AnswersAgree(answers, duties) && (a.answer == FetchFailed || a.answer == Direct(duties, a.slot))
    ensures AnswersAgree(answers + [a], duties)
  {
  }

  lemma StepKeepsInv(s: State, l: Label, duties: map<Uint64, Duty>, clients: nat)
    requires Enabled(s, l) && Inv(s, duties)
    ensures Inv(Apply(s, l, duties, clients), duties)
  {
    match l
    case Receive(ev) =>
      assert (s.received + [ev])[..|s.received|] == s.received;
    case Hit(slot) =>
      AnswersExtend(s.answers, Answered(slot, Found(s.proposers[slot])), duties);
    case Fill(slot) =>
      var proposers := s.proposers + EpochDuties(duties, slot / 32);
      assert slot in proposers <==> slot in duties;
      AnswersExtend(s.answers, Answered(slot, Direct(duties, slot)), duties);
    case GiveUp(slot) =>
      AnswersExtend(s.answers, Answered(slot, FetchFailed), duties);
    case _ =>
  }

  lemma {:induction false} RunKeepsInv(s: State, labels: seq<Label>, duties: map<Uint64, Duty>, clients: nat)
    requires Runs(s, labels, duties, clients) && Inv(s, duties)
    ensures Inv(Exec(s, labels, duties, clients), duties)
    decreases |labels|
  {
    if labels != [] {
      StepKeepsInv(s, labels[0], duties, clients);
      RunKeepsInv(Apply(s, labels[0], duties, clients), labels[1..], duties, clients);
    }
  }

  /** In every interleaving the head is the first event with the maximal slot, every cached duty is the assigned one,
      and every lookup was answered as the assignment itself would answer, unless no client replied. */
  lemma CachesAgreeWithAssignment(labels: seq<Label>, duties: map<Uint64, Duty>, clients: nat)
    requires Runs(START, labels, duties, clients)
    ensures var s := Exec(START, labels, duties, clients);
      && s.head == Track(s.received)
      && (forall k :: k in s.proposers ==> k in duties && s.proposers[k] == duties[k])
      && (forall i :: 0 <= i < |s.answers| && s.answers[i].answer != FetchFailed ==>
            s.answers[i].answer == Direct(duties, s.answers[i].slot))
  {
    RunKeepsInv(START, labels, duties, clients);
  }

  /** In every interleaving, whenever the loop is not between its two sections, a key that has fallen out of the window
      was written after the last cleaning. */
  lemma OnlyLateKeysAreStale(labels: seq<Label>, duties: map<Uint64, Duty>, clients: nat, k: Uint64)
    requires Runs(START, labels, duties, clients)
    requires var s := Exec(START, labels, duties, clients); !s.evicting && Stale(k, s.head.slot) && (k in s.randao || k in s.proposers)
    ensures k in Exec(START, labels, duties, clients).late
  {
    RunKeepsInv(START, labels, duties, clients);
  }

  /** And right after a cleaning there is none: below 2^63 no randao or proposer key is more than 64 slots behind. */
  lemma CleaningLeavesNoOldKey(labels: seq<Label>, duties: map<Uint64, Duty>, clients: nat, k: Uint64)
    requires Runs(START, labels, duties, clients) && Exec(START, labels, duties, clients).evicting
    requires var s := Apply(Exec(START, labels, duties, clients), Evict, duties, clients);
      s.head.slot < TWO_63 && (k in s.randao || k in s.proposers)
    ensures k as int >= Exec(START, labels, duties, clients).head.slot - 64
  {
    if k < TWO_63 {
      StaleMeansOld(k, Exec(START, labels, duties, clients).head.slot);
    }
  }

  /** A duty of the current or the next epoch, once cached, survives every cleaning at that head. */
  lemma CleaningKeepsActiveDuties(s: State, duties: map<Uint64, Duty>, clients: nat, k: Uint64)
    requires Enabled(s, Evict) && k in s.proposers
    requires k / 32 == s.head.slot / 32 || k / 32 == s.head.slot / 32 + 1
    requires !(TWO_63 - 32 <= s.head.slot < TWO_63 + 64)
    ensures k in Apply(s, Evict, duties, clients).proposers && Apply(s, Evict, duties, clients).proposers[k] == s.proposers[k]
  {
    EvictionKeepsActiveEpochs(s.head.slot);
  }

  /** And below 2^63 a cleaning keeps every key at most 64 slots behind the head, of whatever epoch. */
  lemma CleaningKeepsWindow(s: State, duties: map<Uint64, Duty>, clients: nat, k: Uint64)
    requires Enabled(s, Evict) && k < TWO_63 && s.head.slot < TWO_63
    ensures var s' := Apply(s, Evict, duties, clients);
      && (k in s'.proposers <==> k in s.proposers && k as int >= s.head.slot - 64)
      && (k in s'.randao <==> k in s.randao && k as int >= s.head.slot - 64)
      && (k in s'.randao ==> s'.randao[k] == s.randao[k])
  {
    StaleMeansOld(k, s.head.slot);
  }

  // ----- what a new head sets off

  /** A new head asks for the randao of the slot before it, its own and the next, and at the first and last slot of an
      epoch starts one refresh per client; an old one asks for nothing. */
  lemma ReceiveSpawns(s: State, ev: HeadEvent, duties: map<Uint64, Duty>, clients: nat)
    requires Enabled(s, Receive(ev))
    ensures var s' := Apply(s, Receive(ev), duties, clients);
      if ev.slot > s.head.slot then
        var next: Uint64 := if ev.slot == 0xffff_ffff_ffff_ffff then 0 else ev.slot + 1;
        && s'.randaoTasks == s.randaoTasks + multiset{ev.slot - 1, ev.slot, next}
        && s'.refreshes == s.refreshes + (if ev.slot % 32 == 0 || ev.slot % 32 == 31 then clients else 0)
        && s'.head.slot == ev.slot && s'.evicting
      else
        s'.randaoTasks == s.randaoTasks && s'.refreshes == s.refreshes && s'.head == s.head
  {
    if ev.slot > s.head.slot {
      RandaoTasksAround(ev.slot);
      EdgeIsFirstOrLast(ev.slot);
    }
  }

  /** A refresh asks for the epoch of the head and the next one, and for no other. */
  lemma RefreshAsks(s: State, duties: map<Uint64, Duty>, clients: nat)
    requires Inv(s, duties) && Enabled(s, StartRefresh)
    ensures var s' := Apply(s, StartRefresh, duties, clients);
      s'.proposers == s.proposers && s'.epochs == s.epochs + multiset{s.head.slot / 32, s.head.slot / 32 + 1}
  {
    TrackIsFirstMaximum(s.received);
  }

  /** And what it then writes is all the duties of the epoch asked for, and nothing else. */
  lemma EpochIsWritten(s: State, epoch: nat, duties: map<Uint64, Duty>, clients: nat)
    requires Inv(s, duties) && Enabled(s, WriteEpoch(epoch))
    ensures var s' := Apply(s, WriteEpoch(epoch), duties, clients);
      && (forall k :: k in s'.proposers <==> k in s.proposers || (k in duties && k / 32 == epoch))
      && (forall k :: k in s'.proposers ==> s'.proposers[k] == duties[k])
  {
  }

  /** Until the next cleaning they stay, whatever else happens, so a refresh whose two fetches succeed leaves the duties of
      both epochs in the map. */
  lemma {:induction false} WrittenDutiesStay(s: State, labels: seq<Label>, duties: map<Uint64, Duty>, clients: nat, k: Uint64)
    requires Runs(s, labels, duties, clients) && Inv(s, duties) && Evict !in labels && k in s.proposers
    ensures k in Exec(s, labels, duties, clients).proposers && Exec(s, labels, duties, clients).proposers[k] == duties[k]
    decreases |labels|
  {
    if labels == [] {
    } else {
      assert labels[0] in labels && Evict !in labels[1..];
      StepKeepsInv(s, labels[0], duties, clients);
      WrittenDutiesStay(Apply(s, labels[0], duties, clients), labels[1..], duties, clients, k);
    }
  }

  /** A lookup for which a client answered is told what the assignment says, and its epoch is cached for the next. */
  lemma FillAnswers(s: State, slot: Uint64, duties: map<Uint64, Duty>, clients: nat)
    requires Inv(s, duties) && Enabled(s, Fill(slot))
    ensures var s' := Apply(s, Fill(slot), duties, clients);
      && s'.answers == s.answers + [Answered(slot, if slot in duties then Found(duties[slot]) else NotFound)]
      && forall k :: k in s'.proposers <==> k in s.proposers || (k in duties && k / 32 == slot / 32)
  {
    var proposers := s.proposers + EpochDuties(duties, slot / 32);
    assert slot in proposers <==> slot in duties;
  }

  lemma OnlyGivingUpFails(s: State, l: Label, duties: map<Uint64, Duty>, clients: nat, slot: Uint64)
    requires Enabled(s, l) && Answered(slot, FetchFailed) in Apply(s, l, duties, clients).answers
    ensures Answered(slot, FetchFailed) in s.answers || l == GiveUp(slot)
  {
  }

  /** Only a lookup that no client answered fails. */
  lemma {:induction false} FailuresWereGivenUp(s: State, labels: seq<Label>, duties: map<Uint64, Duty>, clients: nat, slot: Uint64)
    requires Runs(s, labels, duties, clients) && Answered(slot, FetchFailed) in Exec(s, labels, duties, clients).answers
    ensures Answered(slot, FetchFailed) in s.answers || GiveUp(slot) in labels
    decreases |labels|
  {
    if labels == [] {
    } else {
      var s' := Apply(s, labels[0], duties, clients);
      assert labels == [labels[0]] + labels[1..];
      FailuresWereGivenUp(s', labels[1..], duties, clients, slot);
      if Answered(slot, FetchFailed) in s'.answers {
        OnlyGivingUpFails(s, labels[0], duties, clients, slot);
      }
    }
  }

  /** The slot was named by a head received, as the one before, itself, or the next. */
  ghost predicate NextToAHead(received: seq<HeadEvent>, k: Uint64) {
    exists ev :: ev in received && (k == ev.slot || k == ev.slot - 1 || k == if ev.slot == 0xffff_ffff_ffff_ffff then 0 else ev.slot + 1)
  }

  ghost predicate RandaoAsked(s: State) {
    && (forall k :: k in s.randaoTasks ==> NextToAHead(s.received, k))
    && (forall k :: k in s.randao ==> NextToAHead(s.received, k))
  }

  lemma AskedStaysAsked(received: seq<HeadEvent>, ev: HeadEvent, k: Uint64)
    requires NextToAHead(received, k)
    ensures NextToAHead(received + [ev], k)
  {
    var e :| e in received && (k == e.slot || k == e.slot - 1 || k == if e.slot == 0xffff_ffff_ffff_ffff then 0 else e.slot + 1);
    assert e in received + [ev];
  }

  lemma ReceiveKeepsRandaoAsked(s: State, ev: HeadEvent, duties: map<Uint64, Duty>, clients: nat)
    requires Enabled(s, Receive(ev)) && RandaoAsked(s)
    ensures RandaoAsked(Apply(s, Receive(ev), duties, clients))
  {
    var s' := Apply(s, Receive(ev), duties, clients);
    ReceiveSpawns(s, ev, duties, clients);
    assert ev in s.received + [ev];
    forall k | k in s'.randaoTasks ensures NextToAHead(s'.received, k) {
      if k in s.randaoTasks {
        AskedStaysAsked(s.received, ev, k);
      }
    }
    forall k | k in s.randao ensures NextToAHead(s'.received, k) {
      AskedStaysAsked(s.received, ev, k);
    }
  }

  lemma StepKeepsRandaoAsked(s: State, l: Label, duties: map<Uint64, Duty>, clients: nat)
    requires Enabled(s, l) && RandaoAsked(s)
    ensures RandaoAsked(Apply(s, l, duties, clients))
  {
    if l.Receive? {
      ReceiveKeepsRandaoAsked(s, l.ev, duties, clients);
    }
  }

  /** In every interleaving the randao map holds slots next to a received head only. */
  lemma {:induction false} RandaoWasAsked(s: State, labels: seq<Label>, duties: map<Uint64, Duty>, clients: nat)
    requires Runs(s, labels, duties, clients) && RandaoAsked(s)
    ensures RandaoAsked(Exec(s, labels, duties, clients))
    decreases |labels|
  {
    if labels != [] {
      StepKeepsRandaoAsked(s, labels[0], duties, clients);
      RandaoWasAsked(Apply(s, labels[0], duties, clients), labels[1..], duties, clients);
    }
  }
}
