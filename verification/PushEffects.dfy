/** What one push does to a repository, whatever state it is in. */
module PushEffects {
  import opened Common
  import opened Codec
  import opened ObjectGraph
  import opened Marking
  import opened Pushing
  import opened RepositoryRun

  /** The tracking ref names a stored commit with a higher number than HEAD's. */
  ghost predicate Behind(store: Store, head: Hash, tracking: Option<Hash>)
    requires head in store && store[head].Commit?
  {
    tracking.Some? && tracking.value != ZERO && tracking.value in store && store[tracking.value].Commit? &&
    store[tracking.value].sequence > store[head].sequence
  }

  ghost predicate ReachesFrom(store: Store, from: Option<Hash>, h: Hash) {
    from.Some? && from.value != ZERO && Reaches(store, from.value, h)
  }

  /** A pack is sent: there is a commit, it is not behind, and the server wants the pack. */
  ghost predicate Sends(r: Repo, reply: Reply) {
    r.head.Some? && r.head.value in r.store && r.store[r.head.value].Commit? &&
    !Behind(r.store, r.head.value, r.tracking) && reply.WantPack?
  }

  /** The pack holds each stored object that HEAD reaches and the tracking ref does not. */
  ghost predicate ShipsDifference(r: Repo, s: Shipment)
    requires r.head.Some?
  {
    s.count == |s.hashes| &&
    forall h :: h in s.hashes <==>
      h in r.store && Reaches(r.store, r.head.value, h) && !ReachesFrom(r.store, r.tracking, h)
  }

  /** The number announced is that of all objects HEAD reaches and the tracking ref does not, stored or
      not, in 32 bits. */
  ghost predicate AnnouncesDifference(r: Repo, s: Shipment)
    requires r.head.Some?
  {
    exists all: set<Hash> :: s.announced == |all| % P32 &&
      forall h :: h in all <==> Reaches(r.store, r.head.value, h) && !ReachesFrom(r.store, r.tracking, h)
  }

  /** The receiver has what it was sent as the sender has it, and otherwise what it had. */
  ghost predicate Receives(before: Store, after: Store, store: Store, sent: set<Hash>) {
    after.Keys == before.Keys + sent && sent <= store.Keys &&
    forall h :: h in after ==> after[h] == if h in sent then store[h] else before[h]
  }

  lemma KnownIsReached(store: Store, tracking: Option<Hash>, h: Hash)
    ensures h in Known(store, OldHash(tracking)) <==> ReachesFrom(store, tracking, h)
  {
    hide Reaches, ReachSet;
    var old_ := OldHash(tracking);
    ReachSetIsReach(store, {old_}, h);
    if old_ != ZERO {
      assert old_ in {old_};
    }
  }

  lemma MissingIs(store: Store, head: Hash, tracking: Option<Hash>, h: Hash)
    ensures h in Missing(store, head, tracking) <==> Reaches(store, head, h) && !ReachesFrom(store, tracking, h)
  {
    hide Reaches, ReachSet, Known;
    KnownIsReached(store, tracking, h);
    ReachSetIsReach(store, {head}, h);
    assert head in {head};
  }

  lemma SendsExactly(r: Repo, reply: Reply)
    ensures Sends(r, reply) <==>
            IsCommit(r.store, r.head) && !RemoteIsNewer(r.store, r.head, r.tracking) && reply.WantPack?
  {
  }

  lemma ShipmentIs(r: Repo, d: set<Hash>)
    requires r.head.Some? && d == Missing(r.store, r.head.value, r.tracking)
    ensures var s := Shipment(|d| % P32, |d * r.store.Keys|, d * r.store.Keys);
            ShipsDifference(r, s) && AnnouncesDifference(r, s)
  {
    hide Missing, Reaches, ReachesFrom;
    forall h: Hash
      ensures h in d <==> Reaches(r.store, r.head.value, h) && !ReachesFrom(r.store, r.tracking, h)
    {
      MissingIs(r.store, r.head.value, r.tracking, h);
    }
  }

  lemma DeliveredIs(receiver: Store, store: Store, d: set<Hash>)
    ensures Receives(receiver, Delivered(receiver, store, d), store, d * store.Keys)
  {
  }

  /** A push in any state. It sends nothing and changes nothing unless HEAD is a stored commit that is
      not behind the remote and the server asks for the pack. Then exactly the difference is sent, and
      the tracking ref moves to HEAD exactly if the server accepts. */
  lemma PushDoes(r: Repo, reply: Reply)
    ensures var r' := Pushed(r, reply);
            r'.store == r.store && r'.entries == r.entries && r'.head == r.head && r'.written == r.written
    ensures !Sends(r, reply) ==> Pushed(r, reply) == r
    ensures Sends(r, reply) ==>
              var r' := Pushed(r, reply);
              r'.tracking == (if reply.accepted then r.head else r.tracking) &&
              exists s :: r'.shipped == r.shipped + [s] && ShipsDifference(r, s) && AnnouncesDifference(r, s) &&
                          Receives(r.receiver, r'.receiver, r.store, s.hashes)
  {
    hide Missing, Reaches, Sends, RemoteIsNewer, ShipsDifference, AnnouncesDifference, Receives, Delivered;
    SendsExactly(r, reply);
    if Sends(r, reply) {
      var d := Missing(r.store, r.head.value, r.tracking);
      ShipmentIs(r, d);
      DeliveredIs(r.receiver, r.store, d);
      var s := Shipment(|d| % P32, |d * r.store.Keys|, d * r.store.Keys);
      assert Pushed(r, reply).shipped == r.shipped + [s];
    }
  }
}
