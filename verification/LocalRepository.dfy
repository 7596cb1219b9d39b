/** The local repository: an object store, a staging index and refs, changed in place. */
module LocalRepository {
  import opened Common
  import opened Codec
  import opened ObjectGraph
  import opened Marking
  import opened Pushing
  import opened RepositoryRun
  import opened StagingIndex
  import PushEffects
  import TreeFormat

  ghost function ShipmentOf(pack: Pack): Shipment {
    Shipment(pack.header, |pack.objects|, Elements(HashesOf(pack.objects)))
  }

  ghost function Shipments(packs: seq<Pack>): (ss: seq<Shipment>)
    ensures |ss| == |packs| && forall i :: 0 <= i < |ss| ==> ss[i] == ShipmentOf(packs[i])
  {
    seq(|packs|, i requires 0 <= i < |packs| => ShipmentOf(packs[i]))
  }

  datatype PushResult = NoCommit | Rejected | Sent(pack: Pack, accepted: bool) | NothingSent

  class LocalRepo {
    const hashOf: Object -> Hash
    const index: Index
    var store: Store
    var head: Option<Hash>
    var tracking: Option<Hash>
    /** Every object a write was asked for. */
    ghost var written: set<Object>
    /** Every pack that was sent, and the store of a server that keeps them all. */
    ghost var packs: seq<Pack>
    ghost var receiver: Store

    ghost predicate Valid()
      reads this, index
    {
      index.Valid()
    }

    ghost function State(): Repo
      reads this, index
    {
      Repo(store, index.entries, head, tracking, written, Shipments(packs), receiver)
    }

    constructor (hashOf: Object -> Hash)
      ensures Valid() && fresh(index) && this.hashOf == hashOf && State() == EMPTY
    {
      this.hashOf := hashOf;
      index := new Index();
      store, head, tracking, written, packs, receiver := map[], None, None, {}, [], map[];
    }

    /** `Write`: an object whose hash is already stored is not written again. */
    method Write(o: Object) returns (h: Hash)
      modifies this`store, this`written
      ensures h == hashOf(o) && State() == Wrote(old(State()), o, hashOf)
    {
      h := hashOf(o);
      written := written + {o};
      if h !in store {
        store := store[h := o];
      }
    }

    method Stage(path: Bytes, content: Bytes, fingerprint: Hash, mtimeNs: int, mode: nat)
      requires Valid()
      modifies this`store, this`written, index
      ensures Valid() && State() == Staged(old(State()), path, content, fingerprint, mtimeNs, mode, hashOf)
    {
      hide Put;
      var h := Write(Blob(content));
      index.Add(IndexEntry(path, h, fingerprint, |content|, mtimeNs, mode, 0));
    }

    /** The tree of the staged entries, in order; if its hash is new, the tree is what is stored there. */
    method BuildTreeFromIndex() returns (treeHash: Hash)
      modifies this`store, this`written
      ensures treeHash == hashOf(IndexTree(index.entries))
      ensures State() == Wrote(old(State()), IndexTree(index.entries), hashOf)
      ensures treeHash in store && (treeHash !in old(store) ==> store[treeHash] == IndexTree(index.entries))
    {
      var entries: seq<TreeFormat.Entry> := [];
      for i := 0 to |index.entries|
        invariant |entries| == i
        invariant forall j :: 0 <= j < i ==> entries[j] == EntryOf(index.entries[j])
      {
        entries := entries + [EntryOf(index.entries[i])];
      }
      assert Tree(entries) == IndexTree(index.entries);
      treeHash := Write(Tree(entries));
    }

    /** `createCommit` on top of HEAD; refuses an empty index and an unchanged tree. */
    method Commit(meta: string) returns (committed: bool)
      modifies this`store, this`written, this`head
      ensures State() == Committed(old(State()), meta, hashOf)
      ensures committed <==> Commits(Wrote(old(State()), IndexTree(index.entries), hashOf).store, index.entries,
                                     old(head), hashOf(IndexTree(index.entries)))
    {
      hide IndexTree;
      if |index.entries| == 0 {
        return false;
      }
      var treeHash := BuildTreeFromIndex();
      var parents: seq<Hash> := [];
      var parentSeq := 0;
      if head.Some? && head.value != ZERO {
        if head.value in store && store[head.value].Commit? {
          if store[head.value].tree == treeHash {
            return false;
          }
          parentSeq := store[head.value].sequence;
        }
        parents := [head.value];
      }
      var h := Write(Object.Commit(treeHash, parents, (parentSeq + 1) % P64, meta));
      head := Some(h);
      committed := true;
    }

    /** `Push`: the request, the pack if the server wants it, and the tracking ref. */
    method Push(reply: Reply) returns (result: PushResult)
      modifies this`tracking, this`receiver, this`packs
      ensures State() == Pushed(old(State()), reply)
      ensures result.NoCommit? <==> !IsCommit(store, head)
      ensures result.Rejected? <==> IsCommit(store, head) && PushEffects.Behind(store, head.value, old(tracking))
      ensures result.Sent? <==> packs != old(packs)
      ensures result.Sent? ==> packs == old(packs) + [result.pack] && reply == WantPack(result.accepted)
    {
      hide ReachSet, Known, Delivered;
      if head.None? || head.value !in store || !store[head.value].Commit? {
        return NoCommit;
      }
      var localSeq := store[head.value].sequence;
      var oldHash, remoteSeq := ZERO, 0;
      if tracking.Some? {
        oldHash := tracking.value;
        if oldHash in store && store[oldHash].Commit? {
          remoteSeq := store[oldHash].sequence;
        }
      }
      if oldHash != ZERO && oldHash != head.value && remoteSeq > localSeq {
        return Rejected;
      }
      match reply
      case WantPack(accepted) =>
        var pack := PushPack(oldHash, accepted);
        result := Sent(pack, accepted);
      case UpToDate =>
        result := NothingSent;
      case Refused =>
        result := NothingSent;
    }

    method PushPack(oldHash: Hash, accepted: bool) returns (pack: Pack)
      requires head.Some?
      modifies this`tracking, this`receiver, this`packs
      ensures var d := ReachSet(store, {head.value}) - Known(store, oldHash);
              Carries(pack, store, d) && receiver == Delivered(old(receiver), store, d)
      ensures tracking == (if accepted then head else old(tracking)) && packs == old(packs) + [pack]
    {
      hide ReachSet, Known, Delivered, Carries, IsPackFor;
      pack := SendPack(store, oldHash, head.value);
      PackCarries(store, oldHash, head.value, pack);
      PackDelivers(receiver, store, oldHash, head.value, pack);
      receiver := Receive(receiver, pack.objects);
      packs := packs + [pack];
      if accepted {
        tracking := head;
      }
    }
  }

  /** Any run of commands leaves the repository where the run function says. Unless two of the objects
      it wrote collide, the receiver then holds everything reachable from the remote tracking ref, and
      every pack announced the number of objects it held, in 32 bits. */
  method Session(hashOf: Object -> Hash, commands: seq<Command>) returns (repo: LocalRepo)
    ensures fresh(repo) && fresh(repo.index) && repo.Valid() && repo.hashOf == hashOf
    ensures repo.State() == Run(commands, hashOf)
    ensures Clean(repo.written, hashOf) && |commands| < P64 ==>
              (repo.tracking.Some? ==>
                 Holds(repo.receiver, repo.store, ReachSet(repo.store, {repo.tracking.value}))) &&
              forall i :: 0 <= i < |repo.packs| ==> repo.packs[i].header == |repo.packs[i].objects| % P32
  {
    hide Clean, Holds, ReachSet;
    hide Staged, Committed, Pushed;
    repo := new LocalRepo(hashOf);
    for i := 0 to |commands|
      invariant fresh(repo) && fresh(repo.index) && repo.Valid() && repo.hashOf == hashOf
      invariant repo.State() == Run(commands[..i], hashOf)
    {
      RunNext(commands, i, hashOf);
      match commands[i]
      case StageFile(path, content, fingerprint, mtimeNs, mode) =>
        repo.Stage(path, content, fingerprint, mtimeNs, mode);
      case Unstage(path) =>
        repo.index.Remove(path);
      case CommitIndex(meta) =>
        var _ := repo.Commit(meta);
      case PushHead(reply) =>
        var _ := repo.Push(reply);
    }
    assert commands[..|commands|] == commands;
    if Clean(repo.written, hashOf) && |commands| < P64 {
      ReceiverStaysClosed(commands, hashOf);
      assert Shipments(repo.packs) == Run(commands, hashOf).shipped;
    }
  }
}
