/** Packs: what a push sends, and what a receiver that stores every pack then holds. */
module Pushing {
  import opened Common
  import opened Codec
  import opened ObjectGraph
  import opened Marking

  /** The messages of one pack: the announced count and the objects that followed. */
  datatype Pack = Pack(header: nat, objects: seq<(Hash, Object)>)

  /** The listed objects that can be read, in order. */
  function Stored(store: Store, hs: seq<Hash>): seq<(Hash, Object)> {
    if hs == [] then []
    else
      var init := Stored(store, hs[..|hs| - 1]);
      var h := hs[|hs| - 1];
      if h in store then init + [(h, store[h])] else init
  }

  /** The list holds, each once, what is reachable from the new commit and not from the old one. */
  ghost predicate IsDiff(store: Store, oldHash: Hash, newHash: Hash, diff: seq<Hash>) {
    Distinct(diff) && forall h :: h in diff <==> h in ReachSet(store, {newHash}) && h !in Known(store, oldHash)
  }

  /** The size of the difference, and those of its objects that are stored. */
  ghost predicate IsPackFor(store: Store, oldHash: Hash, newHash: Hash, pack: Pack) {
    exists diff :: IsDiff(store, oldHash, newHash, diff) && pack == Pack(|diff| % P32, Stored(store, diff))
  }

  method SendPack(store: Store, oldHash: Hash, newHash: Hash) returns (pack: Pack)
    ensures IsPackFor(store, oldHash, newHash, pack)
  {
    hide ReachSet, Known;
    var objSet := ComputeObjectDiff(store, oldHash, newHash);
    assert IsDiff(store, oldHash, newHash, objSet);
    var objects := [];
    for i := 0 to |objSet|
      invariant objects == Stored(store, objSet[..i])
    {
      assert objSet[..i + 1][..i] == objSet[..i];
      if objSet[i] in store {
        objects := objects + [(objSet[i], store[objSet[i]])];
      }
    }
    assert objSet[..|objSet|] == objSet;
    pack := Pack(|objSet| % P32, objects);
  }

  lemma {:induction false} StoredCount(store: Store, hs: seq<Hash>)
    ensures |Stored(store, hs)| <= |hs|
    ensures |Stored(store, hs)| == |hs| <==> forall h :: h in hs ==> h in store
  {
    if hs != [] {
      StoredCount(store, hs[..|hs| - 1]);
      assert hs == hs[..|hs| - 1] + [hs[|hs| - 1]];
    }
  }

  /** The announced count is the number of objects sent exactly when none of them is missing. */
  lemma HeaderCounts(store: Store, diff: seq<Hash>)
    requires |diff| < P32
    ensures |diff| % P32 == |Stored(store, diff)| <==> forall h :: h in diff ==> h in store
  {
    StoredCount(store, diff);
  }

  /** A receiver that stores each object it is sent. */
  ghost function Receive(receiver: Store, objects: seq<(Hash, Object)>): Store {
    if objects == [] then receiver
    else Receive(receiver, objects[..|objects| - 1])[objects[|objects| - 1].0 := objects[|objects| - 1].1]
  }

  /** The receiver has the given objects, as the sender has them. */
  ghost predicate Holds(receiver: Store, store: Store, s: set<Hash>) {
    forall h :: h in s ==> h in receiver && h in store && receiver[h] == store[h]
  }

  lemma {:induction false} ReceiveStored(receiver: Store, store: Store, hs: seq<Hash>, h: Hash)
    ensures var r := Receive(receiver, Stored(store, hs));
            if h in hs && h in store then h in r && r[h] == store[h]
            else (h in r <==> h in receiver) && (h in r ==> r[h] == receiver[h])
    decreases |hs|
  {
    if hs != [] {
      var init, last := hs[..|hs| - 1], hs[|hs| - 1];
      ReceiveStored(receiver, store, init, h);
      assert hs == init + [last];
      if last in store {
        var objects := Stored(store, init) + [(last, store[last])];
        assert objects[..|objects| - 1] == Stored(store, init);
      }
    }
  }

  /** A receiver that holds everything reachable from the old commit holds everything reachable
      from the new one once it has stored the pack, provided no local object is missing. */
  lemma ReceiverCloses(receiver: Store, store: Store, oldHash: Hash, newHash: Hash, diff: seq<Hash>)
    requires Holds(receiver, store, Known(store, oldHash))
    requires ReachSet(store, {newHash}) <= store.Keys
    requires IsDiff(store, oldHash, newHash, diff)
    ensures Holds(Receive(receiver, Stored(store, diff)), store, ReachSet(store, {newHash}))
    ensures |Stored(store, diff)| == |diff|
  {
    hide ReachSet, Known, Receive, Stored;
    var r := Receive(receiver, Stored(store, diff));
    forall h | h in ReachSet(store, {newHash})
      ensures h in r && r[h] == store[h]
    {
      ReceiveStored(receiver, store, diff, h);
    }
    StoredCount(store, diff);
  }

  // ---------------------------------------------------------------------------------------------
  // A pack as a set of objects
  // ---------------------------------------------------------------------------------------------

  ghost function HashesOf(objects: seq<(Hash, Object)>): (hs: seq<Hash>)
    ensures |hs| == |objects| && forall i :: 0 <= i < |hs| ==> hs[i] == objects[i].0
  {
    seq(|objects|, i requires 0 <= i < |objects| => objects[i].0)
  }

  ghost function Elements(hs: seq<Hash>): set<Hash> { set h | h in hs }

  lemma {:induction false} DistinctSize(hs: seq<Hash>)
    requires Distinct(hs)
    ensures |Elements(hs)| == |hs|
  {
    if hs != [] {
      var n := |hs| - 1;
      DistinctSize(hs[..n]);
      assert hs == hs[..n] + [hs[n]] && hs[n] !in hs[..n];
      assert Elements(hs) == Elements(hs[..n]) + {hs[n]};
    }
  }

  lemma {:induction false} StoredHashes(store: Store, hs: seq<Hash>)
    ensures Elements(HashesOf(Stored(store, hs))) == Elements(hs) * store.Keys
    ensures Distinct(hs) ==> Distinct(HashesOf(Stored(store, hs)))
  {
    if hs != [] {
      var n := |hs| - 1;
      StoredHashes(store, hs[..n]);
      var ks, now := HashesOf(Stored(store, hs[..n])), HashesOf(Stored(store, hs));
      assert hs == hs[..n] + [hs[n]];
      assert Elements(hs) == Elements(hs[..n]) + {hs[n]};
      if hs[n] in store {
        assert now == ks + [hs[n]];
        assert Elements(now) == Elements(ks) + {hs[n]};
        if Distinct(hs) {
          assert hs[n] !in Elements(hs[..n]);
        }
      }
    }
  }

  /** The pack announces |d| objects modulo 2^32 and holds each stored object of d once. */
  ghost predicate Carries(pack: Pack, store: Store, d: set<Hash>) {
    pack.header == |d| % P32 && |pack.objects| == |d * store.Keys| &&
    Elements(HashesOf(pack.objects)) == d * store.Keys
  }

  /** A receiver that stores those of the objects that can be read. */
  ghost function Delivered(receiver: Store, store: Store, d: set<Hash>): Store {
    map h | h in receiver.Keys + d * store.Keys :: if h in d && h in store then store[h] else receiver[h]
  }

  lemma PackCarries(store: Store, oldHash: Hash, newHash: Hash, pack: Pack)
    requires IsPackFor(store, oldHash, newHash, pack)
    ensures Carries(pack, store, ReachSet(store, {newHash}) - Known(store, oldHash))
  {
    hide ReachSet, Known, Stored;
    var diff :| IsDiff(store, oldHash, newHash, diff) && pack == Pack(|diff| % P32, Stored(store, diff));
    assert Elements(diff) == ReachSet(store, {newHash}) - Known(store, oldHash);
    DistinctSize(diff);
    StoredHashes(store, diff);
    DistinctSize(HashesOf(pack.objects));
  }

  lemma PackDelivers(receiver: Store, store: Store, oldHash: Hash, newHash: Hash, pack: Pack)
    requires IsPackFor(store, oldHash, newHash, pack)
    ensures Receive(receiver, pack.objects) ==
            Delivered(receiver, store, ReachSet(store, {newHash}) - Known(store, oldHash))
  {
    hide ReachSet, Known, Stored, Receive;
    var diff :| IsDiff(store, oldHash, newHash, diff) && pack == Pack(|diff| % P32, Stored(store, diff));
    var r, d := Receive(receiver, pack.objects), ReachSet(store, {newHash}) - Known(store, oldHash);
    forall h: Hash
      ensures h in r <==> h in receiver.Keys + d * store.Keys
      ensures h in r ==> r[h] == if h in d && h in store then store[h] else receiver[h]
    {
      ReceiveStored(receiver, store, diff, h);
    }
  }
}
