/** utils/types.go, utils/relayUtils.go and beaconinterface/multiFetch.go: new proposers are split into chunks, each
    chunk is looked up on its own goroutine, and the answers are merged into two maps under a mutex. */
module ValidatorIndex {
  import opened Text

  function Join(chunks: seq<seq<string>>): seq<string> {
    if chunks == [] then [] else Join(chunks[..|chunks| - 1]) + chunks[|chunks| - 1]
  }

  lemma JoinAppends(chunks: seq<seq<string>>, chunk: seq<string>)
    ensures Join(chunks + [chunk]) == Join(chunks) + chunk
  {
    assert (chunks + [chunk])[..|chunks|] == chunks;
  }

  /** Moving the head of the rest into a chunk of its own loses nothing. */
  lemma SplitJoin(chunks: seq<seq<string>>, rest: seq<string>, n: nat)
    requires n <= |rest|
    ensures Join(chunks + [rest[..n]]) + rest[n..] == Join(chunks) + rest
  {
    JoinAppends(chunks, rest[..n]);
    assert rest[..n] + rest[n..] == rest;
    assert Join(chunks) + rest[..n] + rest[n..] == Join(chunks) + (rest[..n] + rest[n..]);
  }

  lemma {:induction false} FullChunksJoin(chunks: seq<seq<string>>, size: nat)
    requires forall i :: 0 <= i < |chunks| ==> |chunks[i]| == size
    ensures |Join(chunks)| == |chunks| * size
  {
    if chunks != [] {
      var n := |chunks| - 1;
      FullChunksJoin(chunks[..n], size);
      assert n * size + size == |chunks| * size;
    }
  }

  /** When all chunks but the last are full, the j-th entry of chunk i is entry i * size + j of the whole. */
  lemma {:induction false} ChunksAreInPlace(chunks: seq<seq<string>>, size: nat, i: nat, j: nat)
    requires forall k :: 0 <= k < |chunks| - 1 ==> |chunks[k]| == size
    requires i < |chunks| && j < |chunks[i]|
    ensures 0 <= i * size + j < |Join(chunks)| && Join(chunks)[i * size + j] == chunks[i][j]
  {
    var n := |chunks| - 1;
    FullChunksJoin(chunks[..n], size);
    if i < n {
      assert chunks[..n][i] == chunks[i];
      ChunksAreInPlace(chunks[..n], size, i, j);
    }
  }

  /** Every position is in exactly one chunk, in order; every chunk but the last is full. */
  method ChunkSlice(input: seq<string>, size: int) returns (chunks: seq<seq<string>>)
    requires size > 0
    ensures Join(chunks) == input
    ensures forall i :: 0 <= i < |chunks| ==> 0 < |chunks[i]| <= size
    ensures forall i :: 0 <= i < |chunks| - 1 ==> |chunks[i]| == size
  {
    chunks := [];
    var slice, chunkSize := input, size;
    while slice != []
      invariant 0 < chunkSize <= size && (chunkSize < size ==> slice == [])
      invariant Join(chunks) + slice == input
      invariant forall i :: 0 <= i < |chunks| ==> 0 < |chunks[i]| <= size
      invariant slice != [] ==> forall i :: 0 <= i < |chunks| ==> |chunks[i]| == size
      invariant forall i :: 0 <= i < |chunks| - 1 ==> |chunks[i]| == size
      decreases |slice|
    {
      if |slice| < chunkSize {
        chunkSize := |slice|;
      }
      SplitJoin(chunks, slice, chunkSize);
      chunks := chunks + [slice[..chunkSize]];
      slice := slice[chunkSize..];
    }
  }

  datatype Validator = Validator(pubkey: string, index: nat)

  datatype Indexes = Indexes(byPubkey: map<string, nat>, byIndex: map<nat, string>)

  const NO_INDEXES := Indexes(map[], map[])

  function OnValidator(m: Indexes, v: Validator): Indexes {
    Indexes(m.byPubkey[v.pubkey := v.index], m.byIndex[v.index := v.pubkey])
  }

  function Merged(m: Indexes, vs: seq<Validator>): Indexes {
    if vs == [] then m else OnValidator(Merged(m, vs[..|vs| - 1]), vs[|vs| - 1])
  }

  class ValidatorIndexes {
    var byPubkey: map<string, nat>
    var byIndex: map<nat, string>

    function State(): Indexes
      reads this
    {
      Indexes(byPubkey, byIndex)
    }

    constructor ()
      ensures State() == NO_INDEXES
    {
      byPubkey, byIndex := map[], map[];
    }

    /** The first client that answers is merged; if none does, nothing changes. */
    method GetValidatorIndex(replies: seq<Option<seq<Validator>>>) returns (ghost used: Option<nat>)
      modifies this
      ensures used.None? ==> State() == old(State()) && forall i :: 0 <= i < |replies| ==> replies[i].None?
      ensures used.Some? ==> used.value < |replies| && replies[used.value].Some?
      ensures used.Some? ==> forall i :: 0 <= i < used.value ==> replies[i].None?
      ensures used.Some? ==> State() == Merged(old(State()), replies[used.value].value)
    {
      used := None;
      var c := 0;
      while c < |replies|
        invariant c <= |replies| && State() == old(State())
        invariant forall i :: 0 <= i < c ==> replies[i].None?
      {
        if replies[c].Some? {
          var vs := replies[c].value;
          var i := 0;
          while i < |vs|
            invariant i <= |vs| && State() == Merged(old(State()), vs[..i])
          {
            assert vs[..i + 1][..i] == vs[..i];
            byPubkey := byPubkey[vs[i].pubkey := vs[i].index];
            byIndex := byIndex[vs[i].index := vs[i].pubkey];
            i := i + 1;
          }
          assert vs[..i] == vs;
          used := Some(c);
          return;
        }
        c := c + 1;
      }
    }
  }

  /** Merging chunk after chunk is merging their concatenation. */
  lemma {:induction false} MergedAppends(m: Indexes, us: seq<Validator>, vs: seq<Validator>)
    ensures Merged(m, us + vs) == Merged(Merged(m, us), vs)
  {
    if vs == [] {
      assert us + vs == us;
    } else {
      MergedAppends(m, us, vs[..|vs| - 1]);
      assert (us + vs)[..|us + vs| - 1] == us + vs[..|vs| - 1];
    }
  }

  ghost predicate LastWithPubkey(vs: seq<Validator>, i: nat) {
    i < |vs| && forall j :: i < j < |vs| ==> vs[j].pubkey != vs[i].pubkey
  }

  ghost predicate LastWithIndex(vs: seq<Validator>, i: nat) {
    i < |vs| && forall j :: i < j < |vs| ==> vs[j].index != vs[i].index
  }

  /** Whatever the nodes report, the last report about a key or an index stands, and what is not reported stays. */
  lemma {:induction false} LastReportStands(m: Indexes, vs: seq<Validator>, i: nat)
    ensures LastWithPubkey(vs, i) ==>
      vs[i].pubkey in Merged(m, vs).byPubkey && Merged(m, vs).byPubkey[vs[i].pubkey] == vs[i].index
    ensures LastWithIndex(vs, i) ==>
      vs[i].index in Merged(m, vs).byIndex && Merged(m, vs).byIndex[vs[i].index] == vs[i].pubkey
  {
    if vs != [] {
      var before := vs[..|vs| - 1];
      LastReportStands(m, before, i);
      if i < |before| {
        assert before[i] == vs[i];
        if LastWithPubkey(vs, i) {
          assert vs[|before|].pubkey != vs[i].pubkey;
          assert LastWithPubkey(before, i);
        }
        if LastWithIndex(vs, i) {
          assert vs[|before|].index != vs[i].index;
          assert LastWithIndex(before, i);
        }
      }
    }
  }

  lemma {:induction false} UnreportedStays(m: Indexes, vs: seq<Validator>, k: string, i: nat)
    ensures (forall v :: v in vs ==> v.pubkey != k) ==>
      (k in Merged(m, vs).byPubkey <==> k in m.byPubkey) && (k in m.byPubkey ==> Merged(m, vs).byPubkey[k] == m.byPubkey[k])
    ensures (forall v :: v in vs ==> v.index != i) ==>
      (i in Merged(m, vs).byIndex <==> i in m.byIndex) && (i in m.byIndex ==> Merged(m, vs).byIndex[i] == m.byIndex[i])
  {
    if vs != [] {
      UnreportedStays(m, vs[..|vs| - 1], k, i);
      assert vs[|vs| - 1] in vs;
    }
  }

  /** The nodes agree on one index per validator, and no two validators share one. */
  ghost predicate OneToOne(vs: seq<Validator>) {
    forall u, v :: u in vs && v in vs ==> (u.pubkey == v.pubkey <==> u.index == v.index)
  }

  /** The map by key holds exactly the validators merged so far. */
  ghost predicate Knows(m: map<string, nat>, vs: seq<Validator>) {
    && (forall k :: k in m <==> exists v :: v in vs && v.pubkey == k)
    && (forall v :: v in vs ==> v.pubkey in m && m[v.pubkey] == v.index)
  }

  ghost predicate BackAndForth(m: Indexes) {
    && (forall k :: k in m.byPubkey ==> m.byPubkey[k] in m.byIndex && m.byIndex[m.byPubkey[k]] == k)
    && (forall i :: i in m.byIndex ==> m.byIndex[i] in m.byPubkey && m.byPubkey[m.byIndex[i]] == i)
  }

  /** The two maps are inverse to each other and hold exactly the validators merged so far. */
  ghost predicate Inverse(m: Indexes, vs: seq<Validator>) {
    && Knows(m.byPubkey, vs) && BackAndForth(m)
    && (forall v :: v in vs ==> v.index in m.byIndex && m.byIndex[v.index] == v.pubkey)
  }

  lemma {:induction false} MapsStayInverse(vs: seq<Validator>)
    requires OneToOne(vs)
    ensures Inverse(Merged(NO_INDEXES, vs), vs)
  {
    if vs != [] {
      var before, last := vs[..|vs| - 1], vs[|vs| - 1];
      assert last in vs;
      assert forall v :: v in vs <==> v in before || v == last;
      assert OneToOne(before);
      MapsStayInverse(before);
      InverseExtends(Merged(NO_INDEXES, before), before, last, vs);
    }
  }

  lemma InverseExtends(m: Indexes, before: seq<Validator>, last: Validator, vs: seq<Validator>)
    requires Inverse(m, before) && OneToOne(vs) && last in vs
    requires forall v :: v in vs <==> v in before || v == last
    ensures Inverse(OnValidator(m, last), vs)
  {
    var m' := OnValidator(m, last);
    forall k | k in m'.byPubkey ensures exists v :: v in vs && v.pubkey == k {
      if k == last.pubkey {
        assert last in vs;
      } else {
        var v :| v in before && v.pubkey == k;
        assert v in vs;
      }
    }
    forall i | i in m'.byIndex ensures m'.byIndex[i] in m'.byPubkey && m'.byPubkey[m'.byIndex[i]] == i {
    }
  }

  lemma KnowsAsMuch(m: map<string, nat>, n: map<string, nat>, us: seq<Validator>, vs: seq<Validator>)
    requires Knows(m, us) && Knows(n, vs) && forall v :: v in us <==> v in vs
    ensures m == n
  {
    forall k ensures k in m <==> k in n {
      if k in m {
        var v :| v in us && v.pubkey == k;
        assert v in vs;
      }
      if k in n {
        var v :| v in vs && v.pubkey == k;
        assert v in us;
      }
    }
    forall k | k in m ensures m[k] == n[k] {
      var v :| v in us && v.pubkey == k;
      assert v in vs;
    }
  }

  lemma SameIndexes(m: Indexes, n: Indexes)
    requires BackAndForth(m) && BackAndForth(n) && m.byPubkey == n.byPubkey
    ensures m.byIndex == n.byIndex
  {
    forall i ensures i in m.byIndex <==> i in n.byIndex {
      if i in m.byIndex {
        assert n.byPubkey[m.byIndex[i]] == i;
      }
      if i in n.byIndex {
        assert m.byPubkey[n.byIndex[i]] == i;
      }
    }
  }

  /** The order in which chunks finish, and repetitions, leave no trace in the maps. */
  lemma MergeOrderIsIrrelevant(us: seq<Validator>, vs: seq<Validator>)
    requires OneToOne(us) && forall v :: v in us <==> v in vs
    ensures Merged(NO_INDEXES, us) == Merged(NO_INDEXES, vs)
  {
    MapsStayInverse(us);
    MapsStayInverse(vs);
    KnowsAsMuch(Merged(NO_INDEXES, us).byPubkey, Merged(NO_INDEXES, vs).byPubkey, us, vs);
    SameIndexes(Merged(NO_INDEXES, us), Merged(NO_INDEXES, vs));
  }
}
