/** Runs of staging, committing and pushing, as a function of the commands, and what they keep. */
module RepositoryRun {
  import opened Common
  import opened ByteOrder
  import opened Codec
  import opened ObjectGraph
  import opened Marking
  import opened Pushing
  import opened StagingIndex
  import TreeFormat

  /** What the server answers to the update request and, after the pack, to the pack. */
  datatype Reply = WantPack(accepted: bool) | UpToDate | Refused

  datatype Command =
    | StageFile(path: Bytes, content: Bytes, fingerprint: Hash, mtimeNs: int, mode: nat)
    | Unstage(path: Bytes)
    | CommitIndex(meta: string)
    | PushHead(reply: Reply)

  /** The number a pack announced, how many objects followed, and under which hashes. */
  datatype Shipment = Shipment(announced: nat, count: nat, hashes: set<Hash>)

  /** A repository, the objects it was ever asked to write, the packs it sent, and the store of a
      server that keeps every pack. */
  datatype Repo = Repo(
    store: Store, entries: seq<IndexEntry>, head: Option<Hash>, tracking: Option<Hash>,
    written: set<Object>, shipped: seq<Shipment>, receiver: Store)

  const EMPTY := Repo(map[], [], None, None, {}, [], map[])

  // ---------------------------------------------------------------------------------------------
  // One command
  // ---------------------------------------------------------------------------------------------

  /** An object whose hash is already stored is not written again. */
  ghost function Wrote(r: Repo, o: Object, hashOf: Object -> Hash): Repo {
    var h := hashOf(o);
    r.(store := if h in r.store then r.store else r.store[h := o], written := r.written + {o})
  }

  function IndexTree(entries: seq<IndexEntry>): Object {
    Tree(seq(|entries|, i requires 0 <= i < |entries| => EntryOf(entries[i])))
  }

  function EntryOf(e: IndexEntry): TreeFormat.Entry { TreeFormat.Entry(e.mode, e.path, e.hash, false) }

  predicate IsCommit(store: Store, h: Option<Hash>) {
    h.Some? && h.value in store && store[h.value].Commit?
  }

  function SequenceOf(store: Store, h: Option<Hash>): nat {
    if IsCommit(store, h) then store[h.value].sequence else 0
  }

  ghost function Staged(r: Repo, path: Bytes, content: Bytes, fingerprint: Hash, mtimeNs: int, mode: nat,
                        hashOf: Object -> Hash): Repo {
    var e := IndexEntry(path, hashOf(Blob(content)), fingerprint, |content|, mtimeNs, mode, 0);
    Wrote(r, Blob(content), hashOf).(entries := Put(r.entries, e))
  }

  /** The commit of a tree on top of HEAD; sequence numbers are uint64. */
  function NextCommit(store: Store, head: Option<Hash>, treeHash: Hash, meta: string): Object {
    var onto := head.Some? && head.value != ZERO;
    Object.Commit(treeHash, if onto then [head.value] else [],
                  ((if onto then SequenceOf(store, head) else 0) + 1) % P64, meta)
  }

  /** Nothing is committed from an empty index or on top of a commit of the same tree. */
  predicate Commits(store: Store, entries: seq<IndexEntry>, head: Option<Hash>, treeHash: Hash) {
    entries != [] && !(IsCommit(store, head) && head.value != ZERO && store[head.value].tree == treeHash)
  }

  ghost function Committed(r: Repo, meta: string, hashOf: Object -> Hash): Repo {
    if r.entries == [] then r
    else
      var tree := IndexTree(r.entries);
      var r1 := Wrote(r, tree, hashOf);
      if !Commits(r1.store, r.entries, r.head, hashOf(tree)) then r1
      else
        var c := NextCommit(r1.store, r.head, hashOf(tree), meta);
        Wrote(r1, c, hashOf).(head := Some(hashOf(c)))
  }

  function OldHash(tracking: Option<Hash>): Hash {
    if tracking.Some? then tracking.value else ZERO
  }

  /** The remote commit has a higher sequence number than HEAD. */
  predicate RemoteIsNewer(store: Store, head: Option<Hash>, tracking: Option<Hash>) {
    OldHash(tracking) != ZERO && tracking != head && SequenceOf(store, tracking) > SequenceOf(store, head)
  }

  /** The hashes a push of HEAD is about. */
  ghost function Missing(store: Store, head: Hash, tracking: Option<Hash>): set<Hash> {
    ReachSet(store, {head}) - Known(store, OldHash(tracking))
  }

  ghost function Pushed(r: Repo, reply: Reply): Repo {
    if !IsCommit(r.store, r.head) || RemoteIsNewer(r.store, r.head, r.tracking) || !reply.WantPack? then r
    else
      var d := Missing(r.store, r.head.value, r.tracking);
      var sent := d * r.store.Keys;
      r.(receiver := Delivered(r.receiver, r.store, d),
         shipped := r.shipped + [Shipment(|d| % P32, |sent|, sent)],
         tracking := if reply.accepted then r.head else r.tracking)
  }

  ghost function Stepped(r: Repo, c: Command, hashOf: Object -> Hash): Repo {
    match c
    case StageFile(path, content, fingerprint, mtimeNs, mode) =>
      Staged(r, path, content, fingerprint, mtimeNs, mode, hashOf)
    case Unstage(path) => r.(entries := Drop(r.entries, path))
    case CommitIndex(meta) => Committed(r, meta, hashOf)
    case PushHead(reply) => Pushed(r, reply)
  }

  /** The whole run, from an empty repository on. */
  ghost function Run(commands: seq<Command>, hashOf: Object -> Hash): Repo {
    if commands == [] then EMPTY
    else Stepped(Run(commands[..|commands| - 1], hashOf), commands[|commands| - 1], hashOf)
  }

  // ---------------------------------------------------------------------------------------------
  // What every run keeps
  // ---------------------------------------------------------------------------------------------

  /** No two of the objects share a hash, and none hashes to zero. */
  ghost predicate Clean(written: set<Object>, hashOf: Object -> Hash) {
    (forall x, y :: x in written && y in written && hashOf(x) == hashOf(y) ==> x == y) &&
    forall x :: x in written ==> hashOf(x) != ZERO
  }

  ghost predicate Complete(store: Store) {
    Closed(store, store.Keys)
  }

  lemma CompleteReach(store: Store, h: Hash)
    requires Complete(store) && h in store
    ensures ReachSet(store, {h}) <= store.Keys
  {
    forall g | g in ReachSet(store, {h})
      ensures g in store
    {
      ClosedReaches(store, store.Keys, h, g);
    }
  }

  /** Adding an object whose references are stored leaves a complete store complete and changes
      nothing that was reachable. */
  lemma Grows(store: Store, h: Hash, o: Object)
    requires Complete(store) && h !in store
    requires forall g :: g in ObjectRefs(o) ==> g in store
    ensures Complete(store[h := o])
    ensures forall r :: r in store ==> ReachSet(store[h := o], {r}) == ReachSet(store, {r})
  {
    hide ReachSet, Reaches;
    var store' := store[h := o];
    forall x, g | x in store'.Keys && g in Refs(store', x)
      ensures g in store'.Keys
    {
      if x != h {
        assert g in Refs(store, x) && x in store.Keys;
      }
    }
    forall r | r in store
      ensures ReachSet(store', {r}) == ReachSet(store, {r})
    {
      CompleteReach(store, r);
      ReachSetAgrees(store, store', {r});
    }
  }

  /** Exactly the written objects are stored, each under its hash. */
  ghost predicate Filed(store: Store, written: set<Object>, hashOf: Object -> Hash) {
    (forall h :: h in store ==> store[h] in written && hashOf(store[h]) == h) &&
    forall o :: o in written ==> hashOf(o) in store && store[hashOf(o)] == o
  }

  ghost predicate SequencesUpTo(store: Store, n: nat) {
    forall h :: h in store && store[h].Commit? ==> store[h].sequence <= n
  }

  /** HEAD, the tracking ref, the index and the receiver only refer to what is there. */
  ghost predicate Sound(r: Repo) {
    Complete(r.store) &&
    (forall i :: 0 <= i < |r.entries| ==> r.entries[i].hash in r.store) &&
    (r.head.Some? ==> r.head.value != ZERO && IsCommit(r.store, r.head)) &&
    (r.tracking.Some? ==>
       r.head.Some? && r.tracking.value != ZERO && r.tracking.value in r.store &&
       SequenceOf(r.store, r.tracking) <= SequenceOf(r.store, r.head) &&
       Holds(r.receiver, r.store, ReachSet(r.store, {r.tracking.value})))
  }

  /** Every pack announced as many objects as followed, modulo 2^32, each under its own hash. */
  ghost predicate Announced(shipped: seq<Shipment>) {
    forall i :: 0 <= i < |shipped| ==>
      shipped[i].count == |shipped[i].hashes| && shipped[i].announced == shipped[i].count % P32
  }

  ghost predicate Good(r: Repo, hashOf: Object -> Hash, n: nat) {
    Sound(r) && Filed(r.store, r.written, hashOf) && SequencesUpTo(r.store, n) && Announced(r.shipped)
  }

  /** Storing one more object whose references are stored. */
  lemma WroteGood(r: Repo, o: Object, hashOf: Object -> Hash, n: nat, m: nat)
    requires Good(r, hashOf, n) && n <= m && (o.Commit? ==> o.sequence <= m)
    requires Clean(r.written + {o}, hashOf) && forall g :: g in ObjectRefs(o) ==> g in r.store
    ensures Good(Wrote(r, o, hashOf), hashOf, m)
    ensures var r' := Wrote(r, o, hashOf);
            hashOf(o) in r'.store && r'.store[hashOf(o)] == o && hashOf(o) != ZERO &&
            forall h :: h in r.store ==> h in r'.store && r'.store[h] == r.store[h]
  {
    hide ReachSet, Complete, Clean;
    var h := hashOf(o);
    var r' := Wrote(r, o, hashOf);
    WroteFiled(r, o, hashOf);
    if h !in r.store {
      Grows(r.store, h, o);
    }
  }

  lemma WroteFiled(r: Repo, o: Object, hashOf: Object -> Hash)
    requires Filed(r.store, r.written, hashOf) && Clean(r.written + {o}, hashOf)
    ensures Filed(Wrote(r, o, hashOf).store, r.written + {o}, hashOf) && hashOf(o) != ZERO
    ensures hashOf(o) in r.store ==> r.store[hashOf(o)] == o
  {
    assert o in r.written + {o};
    if hashOf(o) in r.store {
      assert r.store[hashOf(o)] in r.written + {o};
    }
  }

  lemma CleanBefore(written: set<Object>, more: set<Object>, hashOf: Object -> Hash)
    requires Clean(more, hashOf) && written <= more
    ensures Clean(written, hashOf)
  {
  }

  lemma {:induction false} PutMembers(es: seq<IndexEntry>, e: IndexEntry, x: IndexEntry)
    requires x in Put(es, e)
    ensures x == e || x in es
    decreases |es|
  {
    if es != [] && es[0].path != e.path && !Less(e.path, es[0].path) && x != es[0] {
      PutMembers(es[1..], e, x);
    }
  }

  lemma {:induction false} DropMembers(es: seq<IndexEntry>, path: Bytes, x: IndexEntry)
    requires x in Drop(es, path)
    ensures x in es
    decreases |es|
  {
    if es != [] && es[0].path != path && x != es[0] {
      DropMembers(es[1..], path, x);
    }
  }

  lemma StagedGood(r: Repo, c: Command, hashOf: Object -> Hash, n: nat)
    requires c.StageFile? && Good(r, hashOf, n) && Clean(Stepped(r, c, hashOf).written, hashOf)
    ensures Good(Stepped(r, c, hashOf), hashOf, n + 1)
  {
    hide ReachSet, Complete, Clean, Put, Filed, SequencesUpTo, Announced, Holds;
    var blob := Blob(c.content);
    WroteGood(r, blob, hashOf, n, n + 1);
    var r1, r2 := Wrote(r, blob, hashOf), Stepped(r, c, hashOf);
    var e := IndexEntry(c.path, hashOf(blob), c.fingerprint, |c.content|, c.mtimeNs, c.mode, 0);
    forall i | 0 <= i < |r2.entries|
      ensures r2.entries[i].hash in r2.store
    {
      PutMembers(r.entries, e, r2.entries[i]);
    }
  }

  lemma UnstagedGood(r: Repo, c: Command, hashOf: Object -> Hash, n: nat)
    requires c.Unstage? && Good(r, hashOf, n)
    ensures Good(Stepped(r, c, hashOf), hashOf, n + 1)
  {
    hide ReachSet, Complete, Drop, Announced, Holds;
    var r2 := Stepped(r, c, hashOf);
    forall i | 0 <= i < |r2.entries|
      ensures r2.entries[i].hash in r2.store
    {
      DropMembers(r.entries, c.path, r2.entries[i]);
    }
  }

  lemma TreeRefs(entries: seq<IndexEntry>, store: Store)
    requires forall i :: 0 <= i < |entries| ==> entries[i].hash in store
    ensures forall g :: g in ObjectRefs(IndexTree(entries)) ==> g in store
  {
  }

  lemma NewHeadGood(r: Repo, treeHash: Hash, meta: string, hashOf: Object -> Hash, n: nat)
    requires Good(r, hashOf, n) && n + 1 < P64 && treeHash in r.store
    requires Clean(r.written + {NextCommit(r.store, r.head, treeHash, meta)}, hashOf)
    ensures var c := NextCommit(r.store, r.head, treeHash, meta);
            Good(Wrote(r, c, hashOf).(head := Some(hashOf(c))), hashOf, n + 1)
  {
    hide ReachSet, Complete, Clean, Filed, Announced, Holds;
    WroteGood(r, NextCommit(r.store, r.head, treeHash, meta), hashOf, n, n + 1);
  }

  lemma CommittedGood(r: Repo, meta: string, hashOf: Object -> Hash, n: nat)
    requires Good(r, hashOf, n) && n + 1 < P64 && Clean(Committed(r, meta, hashOf).written, hashOf)
    ensures Good(Committed(r, meta, hashOf), hashOf, n + 1)
  {
    hide ReachSet, Complete, Clean, Filed, Announced, Holds, IndexTree, Commits, NextCommit;
    if r.entries != [] {
      var tree := IndexTree(r.entries);
      var r1 := Wrote(r, tree, hashOf);
      CleanBefore(r1.written, Committed(r, meta, hashOf).written, hashOf);
      TreeRefs(r.entries, r.store);
      assert tree.Tree? by { TreeOf(r.entries); }
      WroteGood(r, tree, hashOf, n, n);
      if Commits(r1.store, r.entries, r.head, hashOf(tree)) {
        NewHeadGood(r1, hashOf(tree), meta, hashOf, n);
      }
    }
  }

  lemma TreeOf(entries: seq<IndexEntry>)
    ensures IndexTree(entries).Tree?
  {
  }

  lemma DeliveredHolds(receiver: Store, store: Store, d: set<Hash>, s: set<Hash>)
    requires s <= store.Keys && Holds(receiver, store, s - d)
    ensures Holds(Delivered(receiver, store, d), store, s)
  {
    forall h | h in s
      ensures h in Delivered(receiver, store, d) && Delivered(receiver, store, d)[h] == store[h]
    {
      assert h in s - d || h in d;
    }
  }

  /** Both what is pushed and what was pushed before. */
  lemma PackHolds(r: Repo)
    requires Sound(r) && IsCommit(r.store, r.head)
    ensures var d := Missing(r.store, r.head.value, r.tracking);
            var receiver := Delivered(r.receiver, r.store, d);
            d <= r.store.Keys && Holds(receiver, r.store, ReachSet(r.store, {r.head.value})) &&
            Holds(receiver, r.store, Known(r.store, OldHash(r.tracking)))
  {
    hide ReachSet, Complete, Delivered, Holds;
    var s, d := ReachSet(r.store, {r.head.value}), Missing(r.store, r.head.value, r.tracking);
    var known := Known(r.store, OldHash(r.tracking));
    CompleteReach(r.store, r.head.value);
    KnownHolds(r);
    HoldsSubset(r.receiver, r.store, known, s - d);
    DeliveredHolds(r.receiver, r.store, d, s);
    if r.tracking.Some? {
      CompleteReach(r.store, r.tracking.value);
    }
    HoldsSubset(r.receiver, r.store, known, known - d);
    DeliveredHolds(r.receiver, r.store, d, known);
  }

  lemma PushedGood(r: Repo, reply: Reply, hashOf: Object -> Hash, n: nat)
    requires Good(r, hashOf, n)
    ensures Good(Pushed(r, reply), hashOf, n + 1)
  {
    hide ReachSet, Complete, Filed, Delivered, Holds, Missing;
    if IsCommit(r.store, r.head) && !RemoteIsNewer(r.store, r.head, r.tracking) && reply.WantPack? {
      var d := Missing(r.store, r.head.value, r.tracking);
      PackHolds(r);
      assert d * r.store.Keys == d;
    }
  }

  lemma KnownHolds(r: Repo)
    requires Sound(r)
    ensures Holds(r.receiver, r.store, Known(r.store, OldHash(r.tracking)))
  {
    hide ReachSet, Complete;
  }

  lemma HoldsSubset(receiver: Store, store: Store, s: set<Hash>, t: set<Hash>)
    requires Holds(receiver, store, s) && t <= s
    ensures Holds(receiver, store, t)
  {
  }

  lemma SteppedGood(r: Repo, c: Command, hashOf: Object -> Hash, n: nat)
    requires Good(r, hashOf, n) && n + 1 < P64 && Clean(Stepped(r, c, hashOf).written, hashOf)
    ensures Good(Stepped(r, c, hashOf), hashOf, n + 1)
  {
    hide Good, Clean, Committed, Pushed;
    match c
    case StageFile(_, _, _, _, _) => StagedGood(r, c, hashOf, n);
    case Unstage(_) => UnstagedGood(r, c, hashOf, n);
    case CommitIndex(meta) => CommittedGood(r, meta, hashOf, n);
    case PushHead(reply) => PushedGood(r, reply, hashOf, n);
  }

  lemma SteppedWrites(r: Repo, c: Command, hashOf: Object -> Hash)
    ensures r.written <= Stepped(r, c, hashOf).written
  {
    hide IndexTree, NextCommit;
  }

  /** Every run, however long, unless its objects collide or its sequence numbers wrap. */
  lemma {:induction false} RunGood(commands: seq<Command>, hashOf: Object -> Hash)
    requires Clean(Run(commands, hashOf).written, hashOf) && |commands| < P64
    ensures Good(Run(commands, hashOf), hashOf, |commands|)
    decreases |commands|
  {
    hide Stepped, Clean, Good;
    if commands == [] {
      EmptyGood(hashOf);
    } else {
      var init, c := commands[..|commands| - 1], commands[|commands| - 1];
      var r := Run(init, hashOf);
      SteppedWrites(r, c, hashOf);
      CleanBefore(r.written, Stepped(r, c, hashOf).written, hashOf);
      RunGood(init, hashOf);
      SteppedGood(r, c, hashOf, |init|);
    }
  }

  lemma EmptyGood(hashOf: Object -> Hash)
    ensures Good(EMPTY, hashOf, 0)
  {
  }

  /** After any run of staging, commits and pushes whose objects do not collide, the receiver holds
      everything reachable from the remote tracking ref, and every pack announced the number of
      objects that followed. */
  lemma ReceiverStaysClosed(commands: seq<Command>, hashOf: Object -> Hash)
    requires Clean(Run(commands, hashOf).written, hashOf) && |commands| < P64
    ensures var r := Run(commands, hashOf);
            (r.tracking.Some? ==> Holds(r.receiver, r.store, ReachSet(r.store, {r.tracking.value}))) &&
            (forall i :: 0 <= i < |r.shipped| ==>
               r.shipped[i].count == |r.shipped[i].hashes| && r.shipped[i].announced == r.shipped[i].count % P32)
  {
    hide ReachSet, Run, Clean;
    RunGood(commands, hashOf);
  }

  /** At every point of such a run: nothing the repository refers to is missing, the stored objects are
      the written ones, and a push is never refused as behind the remote. */
  lemma RunStaysWhole(commands: seq<Command>, hashOf: Object -> Hash)
    requires Clean(Run(commands, hashOf).written, hashOf) && |commands| < P64
    ensures var r := Run(commands, hashOf);
            (forall h :: h in r.store ==> r.store[h] in r.written) &&
            (forall o :: o in r.written ==> hashOf(o) in r.store && r.store[hashOf(o)] == o) &&
            (forall h :: h in r.store ==> ReachSet(r.store, {h}) <= r.store.Keys) &&
            (forall i :: 0 <= i < |r.entries| ==> r.entries[i].hash in r.store) &&
            (r.head.Some? ==> IsCommit(r.store, r.head)) && !RemoteIsNewer(r.store, r.head, r.tracking)
  {
    hide ReachSet, Run, Clean, Complete;
    RunGood(commands, hashOf);
    var r := Run(commands, hashOf);
    forall h | h in r.store
      ensures ReachSet(r.store, {h}) <= r.store.Keys
    {
      CompleteReach(r.store, h);
    }
  }

  /** A push the server accepts leaves the tracking ref at HEAD and the receiver closed over it. */
  lemma AcceptedPush(commands: seq<Command>, hashOf: Object -> Hash)
    requires commands != [] && commands[|commands| - 1] == PushHead(WantPack(true))
    requires Clean(Run(commands, hashOf).written, hashOf) && |commands| < P64
    ensures var r := Run(commands, hashOf);
            r.tracking == r.head &&
            (r.head.Some? ==> Holds(r.receiver, r.store, ReachSet(r.store, {r.head.value})))
  {
    hide ReachSet, Clean, Run;
    var init := commands[..|commands| - 1];
    RunSplit(commands, hashOf);
    RunGood(commands, hashOf);
    RunStaysWhole(init, hashOf);
  }

  lemma RunNext(commands: seq<Command>, i: nat, hashOf: Object -> Hash)
    requires i < |commands|
    ensures Run(commands[..i + 1], hashOf) == Stepped(Run(commands[..i], hashOf), commands[i], hashOf)
  {
    hide Stepped;
    assert commands[..i + 1][..i] == commands[..i];
  }

  lemma RunSplit(commands: seq<Command>, hashOf: Object -> Hash)
    requires commands != []
    ensures var init, c := commands[..|commands| - 1], commands[|commands| - 1];
            Run(commands, hashOf) == Stepped(Run(init, hashOf), c, hashOf)
  {
  }
}
