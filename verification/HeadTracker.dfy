/** beaconinterface/multiclientSub.go and the proposer lookup of multiclient.go: the head, and the maps kept around it. */
module HeadTracker {
  import opened Text
  import opened Words

  datatype HeadEvent = HeadEvent(slot: Uint64, block: string)

  datatype Duty = Duty(slot: Uint64, index: nat, pubkey: string)

  datatype Head = Head(slot: Uint64, epoch: Uint64, event: HeadEvent)

  const NO_HEAD := Head(0, 0, HeadEvent(0, ""))

  /** The effect of one event from any client. */
  function OnEvent(h: Head, ev: HeadEvent): Head {
    if ev.slot <= h.slot then h else Head(ev.slot, ev.slot / 32, ev)
  }

  function Track(events: seq<HeadEvent>): Head {
    if events == [] then NO_HEAD else OnEvent(Track(events[..|events| - 1]), events[|events| - 1])
  }

  /** events[i] is the first event with the largest slot. */
  ghost predicate FirstMaximum(events: seq<HeadEvent>, i: nat) {
    i < |events|
    && (forall j :: 0 <= j < i ==> events[j].slot < events[i].slot)
    && (forall j :: i <= j < |events| ==> events[j].slot <= events[i].slot)
  }

  lemma {:induction false} TrackBounds(events: seq<HeadEvent>)
    ensures forall e :: e in events ==> e.slot <= Track(events).slot
  {
    if events != [] {
      var n := |events| - 1;
      TrackBounds(events[..n]);
      forall e | e in events ensures e.slot <= Track(events).slot {
        assert e in events[..n] || e == events[n];
      }
    }
  }

  lemma FirstMaximumExtends(events: seq<HeadEvent>, i: nat)
    requires events != [] && FirstMaximum(events[..|events| - 1], i)
    requires events[|events| - 1].slot <= events[i].slot
    ensures FirstMaximum(events, i)
  {
  }

  lemma NewMaximumIsFirst(events: seq<HeadEvent>)
    requires events != [] && Track(events[..|events| - 1]).slot < events[|events| - 1].slot
    ensures FirstMaximum(events, |events| - 1)
  {
    var n := |events| - 1;
    TrackBounds(events[..n]);
    forall j | 0 <= j < n ensures events[j].slot < events[n].slot {
      assert events[j] in events[..n];
    }
  }

  /** However events repeat and interleave, the tracked slot is the maximum of 0 and the slots received, the tracked
      head is the first event that carried it, and the epoch goes with the slot. */
  lemma {:induction false} TrackIsFirstMaximum(events: seq<HeadEvent>)
    ensures forall e :: e in events ==> e.slot <= Track(events).slot
    ensures Track(events).epoch == Track(events).slot / 32
    ensures Track(events).slot > 0 ==> exists i: nat :: FirstMaximum(events, i) && events[i] == Track(events).event
    ensures Track(events).slot > 0 ==> Track(events).event.slot == Track(events).slot
    ensures Track(events).slot == 0 ==> Track(events) == NO_HEAD
  {
    if events != [] {
      var n := |events| - 1;
      TrackIsFirstMaximum(events[..n]);
      TrackBounds(events);
      if events[n].slot > Track(events[..n]).slot {
        NewMaximumIsFirst(events);
      } else if Track(events).slot > 0 {
        var i: nat :| FirstMaximum(events[..n], i) && events[..n][i] == Track(events[..n]).event;
        FirstMaximumExtends(events, i);
      }
    }
  }

  /** Only which events arrived matters for the slot and the epoch. */
  lemma TrackIgnoresOrderAndRepeats(a: seq<HeadEvent>, b: seq<HeadEvent>)
    requires forall e :: e in a <==> e in b
    ensures Track(a).slot == Track(b).slot && Track(a).epoch == Track(b).epoch
  {
    TrackIsFirstMaximum(a);
    TrackIsFirstMaximum(b);
    if Track(a).slot > 0 {
      var i: nat :| FirstMaximum(a, i) && a[i] == Track(a).event;
      assert a[i] in b;
    }
    if Track(b).slot > 0 {
      var i: nat :| FirstMaximum(b, i) && b[i] == Track(b).event;
      assert b[i] in a;
    }
  }

  // ----- eviction and the epoch edge

  /** The signed comparison that decides eviction. */
  predicate Stale(k: Uint64, current: Uint64) {
    ToInt64(k) < WrapInt64(ToInt64(current) - 64)
  }

  /** Below 2^63 the comparison means what it says, for keys below 2^63. */
  lemma StaleMeansOld(k: Uint64, current: Uint64)
    requires k < TWO_63 && current < TWO_63
    ensures Stale(k, current) <==> k as int < current - 64
  {
  }

  ghost predicate KeepsActiveEpochs(current: Uint64) {
    forall k: Uint64 :: k / 32 == current / 32 || k / 32 == current / 32 + 1 ==> !Stale(k, current)
  }

  /** Eviction spares every slot of the current and the next epoch exactly outside the stretch around 2^63 where the
      signed comparison changes sign. */
  lemma EvictionKeepsActiveEpochs(current: Uint64)
    ensures KeepsActiveEpochs(current) <==> !(TWO_63 - 32 <= current < TWO_63 + 64)
  {
    var epoch := current / 32;
    if TWO_63 - 32 <= current < TWO_63 {
      var k: Uint64 := TWO_63;
      assert k / 32 == epoch + 1 && Stale(k, current);
    } else if TWO_63 <= current < TWO_63 + 64 {
      assert current / 32 == epoch && Stale(current, current);
    } else {
      forall k: Uint64 | k / 32 == epoch || k / 32 == epoch + 1 ensures !Stale(k, current) {
      }
    }
  }

  /** The test that spawns a proposer refresh, in 64-bit arithmetic. */
  predicate AtEpochEdge(slot: Uint64) {
    WrapUint64(slot + 1) / 32 != slot / 32 || WrapUint64(slot - 1) / 32 != slot / 32
  }

  /** It fires at the last and the first slot of every epoch and nowhere else, and the subtraction never wraps on a
      processed head. */
  lemma EdgeIsFirstOrLast(slot: Uint64)
    requires slot > 0
    ensures AtEpochEdge(slot) <==> slot % 32 == 31 || slot % 32 == 0
    ensures WrapUint64(slot - 1) == slot - 1
  {
  }

  function RandaoTasks(slot: Uint64): seq<Uint64> {
    [WrapUint64(slot - 1), slot, WrapUint64(slot + 1)]
  }

  /** The previous slot, this one, and the next, which wraps at the end of the 64-bit range. */
  lemma RandaoTasksAround(slot: Uint64)
    requires slot > 0
    ensures RandaoTasks(slot) == [slot - 1, slot, if slot == 0xffff_ffff_ffff_ffff then 0 else slot + 1]
  {
  }

  function Fresh<V>(m: map<Uint64, V>, current: Uint64): map<Uint64, V> {
    map k | k in m && !Stale(k, current) :: m[k]
  }

  /** Below 2^63 exactly the keys at most 64 slots behind are kept. */
  lemma FreshIsTheWindow<V>(m: map<Uint64, V>, current: Uint64)
    ensures forall k :: k in m && k < TWO_63 && current < TWO_63 ==> (k in Fresh(m, current) <==> k as int >= current - 64)
  {
    forall k | k in m && k < TWO_63 && current < TWO_63 ensures k in Fresh(m, current) <==> k as int >= current - 64 {
      StaleMeansOld(k, current);
    }
  }

  /** Deletes the stale keys while ranging over the map. */
  method Evict<V>(m: map<Uint64, V>, current: Uint64) returns (kept: map<Uint64, V>)
    ensures kept == Fresh(m, current)
    ensures forall k :: k in kept ==> k in m && kept[k] == m[k]
    ensures forall k :: k in m && k < TWO_63 && current < TWO_63 ==> (k in kept <==> k as int >= current - 64)
  {
    kept := m;
    var rest := m.Keys;
    while rest != {}
      invariant rest <= kept.Keys <= m.Keys
      invariant forall k :: k in kept ==> kept[k] == m[k] && (k in rest || !Stale(k, current))
      invariant forall k :: k in m && (k in rest || !Stale(k, current)) ==> k in kept
      decreases rest
    {
      var k :| k in rest;
      rest := rest - {k};
      if Stale(k, current) {
        kept := kept - {k};
      }
    }
    FreshIsTheWindow(m, current);
  }

  /** Client i answers, and no client asked before it did. */
  ghost predicate FirstAnswer<T>(replies: seq<Option<T>>, i: nat) {
    i < |replies| && replies[i].Some? && forall j :: 0 <= j < i ==> replies[j].None?
  }

  ghost predicate NoAnswer<T>(replies: seq<Option<T>>) {
    forall i :: 0 <= i < |replies| ==> replies[i].None?
  }

  /** Proposer duties are keyed by their own slot. */
  ghost predicate WellKeyed(m: map<Uint64, Duty>) {
    forall k :: k in m ==> m[k].slot == k
  }

  datatype Answer = Found(duty: Duty) | NotFound | FetchFailed

  class BeaconData {
    var currentSlot: Uint64
    var currentEpoch: Uint64
    var currentHead: HeadEvent
    var randao: map<Uint64, string>
    var proposers: map<Uint64, Duty>

    ghost function TrackedHead(): Head
      reads this
    {
      Head(currentSlot, currentEpoch, currentHead)
    }

    constructor ()
      ensures TrackedHead() == NO_HEAD && randao == map[] && proposers == map[]
    {
      currentSlot, currentEpoch, currentHead := 0, 0, HeadEvent(0, "");
      randao, proposers := map[], map[];
    }

    /** One head event: an old one changes nothing; a new one moves the head, names the tasks to spawn, and evicts. */
    method ProcessHead(ev: HeadEvent) returns (randaoTasks: seq<Uint64>, refresh: bool)
      modifies this
      ensures TrackedHead() == OnEvent(old(TrackedHead()), ev)
      ensures ev.slot <= old(currentSlot) ==> unchanged(this) && randaoTasks == [] && !refresh
      ensures ev.slot > old(currentSlot) ==> currentSlot == ev.slot && currentEpoch == ev.slot / 32 && currentHead == ev
      ensures ev.slot > old(currentSlot) ==>
        randaoTasks == [ev.slot - 1, ev.slot, if ev.slot == 0xffff_ffff_ffff_ffff then 0 else ev.slot + 1]
      ensures ev.slot > old(currentSlot) ==> (refresh <==> ev.slot % 32 == 0 || ev.slot % 32 == 31)
      ensures ev.slot > old(currentSlot) ==>
        && randaoTasks == RandaoTasks(ev.slot) && (refresh <==> AtEpochEdge(ev.slot))
        && randao == Fresh(old(randao), ev.slot) && proposers == Fresh(old(proposers), ev.slot)
    {
      randaoTasks, refresh := [], false;
      if ev.slot <= currentSlot {
        return;
      }
      currentHead := ev;
      currentSlot := ev.slot;
      currentEpoch := ev.slot / 32;

      var i := 0;
      while i < 3
        invariant i <= 3 && randaoTasks == RandaoTasks(ev.slot)[..i]
        invariant unchanged(`randao) && unchanged(`proposers) && TrackedHead() == OnEvent(old(TrackedHead()), ev)
      {
        randaoTasks := randaoTasks + [WrapUint64(ev.slot - 1 + i)];
        i := i + 1;
      }
      refresh := AtEpochEdge(ev.slot);
      EdgeIsFirstOrLast(ev.slot);
      RandaoTasksAround(ev.slot);
      proposers := Evict(proposers, ev.slot);
      randao := Evict(randao, ev.slot);
    }

    /** The event loop, on whatever the clients together deliver. */
    method SubscribeToHeadEvents(events: seq<HeadEvent>)
      requires TrackedHead() == NO_HEAD
      modifies this
      ensures TrackedHead() == Track(events)
    {
      var i := 0;
      while i < |events|
        invariant i <= |events| && TrackedHead() == Track(events[..i])
      {
        assert events[..i + 1][..i] == events[..i];
        var tasks, refresh := ProcessHead(events[i]);
        i := i + 1;
      }
      assert events[..i] == events;
    }

    /** Asks the clients in order until one answers. */
    method GetSlotProposerMap(replies: seq<Option<map<Uint64, Duty>>>) returns (r: Option<map<Uint64, Duty>>)
      ensures forall i: nat :: FirstAnswer(replies, i) ==> r == replies[i]
      ensures r.None? <==> NoAnswer(replies)
      ensures r.Some? ==> exists i: nat :: FirstAnswer(replies, i)
    {
      var i := 0;
      while i < |replies|
        invariant i <= |replies|
        invariant forall j :: 0 <= j < i ==> replies[j].None?
      {
        if replies[i].Some? {
          assert FirstAnswer(replies, i);
          return replies[i];
        }
        i := i + 1;
      }
      return None;
    }

    /** Copies fetched duties into the shared map under each duty's own slot. */
    method Merge(duties: map<Uint64, Duty>)
      requires WellKeyed(duties)
      modifies this`proposers
      ensures proposers == old(proposers) + duties
    {
      var rest := duties.Keys;
      while rest != {}
        invariant rest <= duties.Keys
        invariant proposers.Keys == old(proposers.Keys) + (duties.Keys - rest)
        invariant forall k :: k in proposers ==>
          proposers[k] == if k in duties && k !in rest then duties[k] else old(proposers)[k]
        decreases rest
      {
        var k :| k in rest;
        rest := rest - {k};
        proposers := proposers[duties[k].slot := duties[k]];
      }
    }

    /** Read-through lookup: the map, or else the first client that answers for the epoch of the slot. */
    method GetSlotProposer(slot: Uint64, replies: seq<Option<map<Uint64, Duty>>>) returns (a: Answer)
      requires forall i: nat :: FirstAnswer(replies, i) ==> WellKeyed(replies[i].value)
      modifies this`proposers
      ensures slot in old(proposers) ==> a == Found(old(proposers)[slot]) && proposers == old(proposers)
      ensures slot !in old(proposers) && NoAnswer(replies) ==> a == FetchFailed && proposers == old(proposers)
      ensures forall i: nat :: slot !in old(proposers) && FirstAnswer(replies, i) ==>
        var m := replies[i].value;
        proposers == old(proposers) + m && a == if slot in m then Found(m[slot]) else NotFound
    {
      if slot in proposers {
        return Found(proposers[slot]);
      }
      var fetched := GetSlotProposerMap(replies);
      if fetched.None? {
        return FetchFailed;
      }
      Merge(fetched.value);
      if slot !in proposers {
        return NotFound;
      }
      return Found(proposers[slot]);
    }
  }
}
