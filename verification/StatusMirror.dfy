/** utils/relayUtils.go: builder statuses are copied to Redis only when they differ from the last one seen. */
module StatusMirror {
  import Text

  datatype Builder = Builder(pubkey: string, status: bool)

  /** One entry of one poll, with the verdict Redis would give a write for it. */
  datatype Mention = Mention(builder: Builder, stores: bool)

  datatype Mirror = Mirror(last: map<string, bool>, store: map<string, bool>)

  /** The store is flushed and the memory of last statuses is empty on start-up. */
  const FLUSHED := Mirror(map[], map[])

  /** A missing key reads as false, in the map and through the status lookup. */
  function Get(m: map<string, bool>, b: string): bool {
    if b in m then m[b] else false
  }

  /** The last status is remembered even when the write failed. */
  function OnMention(m: Mirror, x: Mention): Mirror {
    var b := x.builder;
    if b.status == Get(m.last, b.pubkey) then m
    else Mirror(m.last[b.pubkey := b.status], if x.stores then m.store[b.pubkey := b.status] else m.store)
  }

  function Mirrored(m: Mirror, xs: seq<Mention>): Mirror {
    if xs == [] then m else OnMention(Mirrored(m, xs[..|xs| - 1]), xs[|xs| - 1])
  }

  /** The status in the latest mention, false for a builder never mentioned. */
  ghost function Latest(xs: seq<Mention>, b: string): bool {
    if xs == [] then false
    else if xs[|xs| - 1].builder.pubkey == b then xs[|xs| - 1].builder.status
    else Latest(xs[..|xs| - 1], b)
  }

  /** How many writes for b have failed since the last one that succeeded. */
  ghost function FailedInARow(xs: seq<Mention>, b: string): nat {
    if xs == [] then 0
    else
      var x, before := xs[|xs| - 1], xs[..|xs| - 1];
      if x.builder.pubkey != b || x.builder.status == Latest(before, b) then FailedInARow(before, b)
      else if x.stores then 0
      else FailedInARow(before, b) + 1
  }

  lemma {:induction false} MirrorState(xs: seq<Mention>, b: string)
    ensures Get(Mirrored(FLUSHED, xs).last, b) == Latest(xs, b)
    ensures Get(Mirrored(FLUSHED, xs).store, b) == if FailedInARow(xs, b) % 2 == 0 then Latest(xs, b) else !Latest(xs, b)
  {
    if xs != [] {
      MirrorState(xs[..|xs| - 1], b);
      MirrorState(xs[..|xs| - 1], xs[|xs| - 1].builder.pubkey);
    }
  }

  /** What one more mention of a builder does, after any history: the status last mentioned again does nothing at all, so
      a failed write is not retried; a different one is remembered, and stored if Redis takes it. */
  lemma OneMoreMention(xs: seq<Mention>, b: string, status: bool, stores: bool)
    ensures var m, m' := Mirrored(FLUSHED, xs), Mirrored(FLUSHED, xs + [Mention(Builder(b, status), stores)]);
      && (status == Latest(xs, b) ==> m' == m)
      && (status != Latest(xs, b) ==> m' == Mirror(m.last[b := status], if stores then m.store[b := status] else m.store))
  {
    var ys := xs + [Mention(Builder(b, status), stores)];
    assert ys[..|ys| - 1] == xs;
    MirrorState(xs, b);
  }

  /** The looked-up status is the latest one exactly when the writes failed since the last success are even in number:
      statuses alternate between attempted writes, and a failed write is never retried. */
  lemma StatusIsCurrentExactlyAfterEvenFailures(xs: seq<Mention>, b: string)
    ensures Get(Mirrored(FLUSHED, xs).store, b) == Latest(xs, b) <==> FailedInARow(xs, b) % 2 == 0
  {
    MirrorState(xs, b);
  }

  /** One failed write is enough to go wrong. */
  lemma OneFailureIsStale(b: string)
    ensures var xs := [Mention(Builder(b, true), false)];
            Latest(xs, b) && !Get(Mirrored(FLUSHED, xs).store, b)
  {
    var xs := [Mention(Builder(b, true), false)];
    assert xs[..|xs| - 1] == [];
    MirrorState(xs, b);
    assert FailedInARow([], b) == 0;
  }

  function Overwritten(m: map<string, bool>, xs: seq<Mention>): map<string, bool> {
    if xs == [] then m
    else Overwritten(m, xs[..|xs| - 1])[xs[|xs| - 1].builder.pubkey := xs[|xs| - 1].builder.status]
  }

  lemma {:induction false} NoFailures(xs: seq<Mention>, b: string)
    requires forall x :: x in xs ==> x.stores
    ensures FailedInARow(xs, b) == 0 && Get(Overwritten(map[], xs), b) == Latest(xs, b)
  {
    if xs != [] {
      assert xs[|xs| - 1] in xs;
      NoFailures(xs[..|xs| - 1], b);
    }
  }

  /** While Redis does not fail, writing only the differences reads like writing everything. */
  lemma DeltaRefinesOverwrite(xs: seq<Mention>, b: string)
    requires forall x :: x in xs ==> x.stores
    ensures Get(Mirrored(FLUSHED, xs).store, b) == Get(Overwritten(map[], xs), b) == Latest(xs, b)
  {
    NoFailures(xs, b);
    MirrorState(xs, b);
  }

  /** Polls concatenate. */
  lemma {:induction false} MirroredAppends(m: Mirror, xs: seq<Mention>, ys: seq<Mention>)
    ensures Mirrored(m, xs + ys) == Mirrored(Mirrored(m, xs), ys)
  {
    if ys == [] {
      assert xs + ys == xs;
    } else {
      MirroredAppends(m, xs, ys[..|ys| - 1]);
      assert (xs + ys)[..|xs + ys| - 1] == xs + ys[..|ys| - 1];
    }
  }

  class BuilderUtils {
    var builderLast: map<string, bool>
    var redis: map<string, bool>
    ghost var mentions: seq<Mention>

    function State(): Mirror
      reads this
    {
      Mirror(builderLast, redis)
    }

    ghost predicate Valid()
      reads this
    {
      State() == Mirrored(FLUSHED, mentions)
    }

    constructor ()
      ensures Valid() && mentions == []
    {
      builderLast, redis, mentions := map[], map[], [];
    }

    method SetBuilderStatus(builder: string, status: bool, stores: bool) returns (ok: bool)
      modifies this`redis
      ensures ok == stores && redis == if stores then old(redis)[builder := status] else old(redis)
    {
      if stores {
        redis := redis[builder := status];
      }
      return stores;
    }

    /** One poll; a poll whose query failed changes nothing. */
    method GetBuilders(poll: Text.Option<seq<Mention>>)
      requires Valid()
      modifies this
      ensures Valid() && mentions == if poll.Some? then old(mentions) + poll.value else old(mentions)
      ensures State() == if poll.Some? then Mirrored(old(State()), poll.value) else old(State())
    {
      if poll.None? {
        return;
      }
      var xs := poll.value;
      var i := 0;
      while i < |xs|
        invariant i <= |xs| && State() == Mirrored(old(State()), xs[..i]) && mentions == old(mentions)
      {
        assert xs[..i + 1][..i] == xs[..i];
        var b := xs[i].builder;
        if b.status != Get(builderLast, b.pubkey) {
          var ok := SetBuilderStatus(b.pubkey, b.status, xs[i].stores);
          builderLast := builderLast[b.pubkey := b.status];
        }
        i := i + 1;
      }
      assert xs[..i] == xs;
      MirroredAppends(FLUSHED, mentions, xs);
      mentions := mentions + xs;
    }

    /** The answer is the status last mentioned in any poll exactly when the writes failed since the last success are
        even in number. */
    method BuilderStatus(builder: string) returns (status: bool)
      requires Valid()
      ensures status == Get(redis, builder)
      ensures status == Latest(mentions, builder) <==> FailedInARow(mentions, builder) % 2 == 0
    {
      status := if builder in redis then redis[builder] else false;
      MirrorState(mentions, builder);
    }
  }
}
