/** What a run of staging and committing records, and that its history is never lost. */
module RunHistory {
  import opened Common
  import opened ByteOrder
  import opened Codec
  import opened ObjectGraph
  import opened Marking
  import opened Pushing
  import opened StagingIndex
  import opened RepositoryRun
  import opened StagedObjects
  import Gc

  // ---------------------------------------------------------------------------------------------
  // What is staged
  // ---------------------------------------------------------------------------------------------

  /** The last staging of each path that was not unstaged since. */
  ghost function StagedFiles(commands: seq<Command>): map<Bytes, Command> {
    if commands == [] then map[]
    else
      var before, c := StagedFiles(commands[..|commands| - 1]), commands[|commands| - 1];
      if c.StageFile? then before[c.path := c]
      else if c.Unstage? then before - {c.path}
      else before
  }

  /** What staging records of a file. */
  ghost function EntryFrom(c: Command, hashOf: Object -> Hash): IndexEntry
    requires c.StageFile?
  {
    IndexEntry(c.path, hashOf(Blob(c.content)), c.fingerprint, |c.content|, c.mtimeNs, c.mode, 0)
  }

  ghost predicate AllStagings(files: map<Bytes, Command>) {
    forall p :: p in files ==> files[p].StageFile? && files[p].path == p
  }

  ghost function EntriesFrom(files: map<Bytes, Command>, hashOf: Object -> Hash): map<Bytes, IndexEntry>
    requires AllStagings(files)
  {
    map p | p in files :: EntryFrom(files[p], hashOf)
  }

  lemma EntriesUpdated(files: map<Bytes, Command>, c: Command, hashOf: Object -> Hash)
    requires AllStagings(files) && c.StageFile?
    ensures AllStagings(files[c.path := c])
    ensures EntriesFrom(files[c.path := c], hashOf) == EntriesFrom(files, hashOf)[c.path := EntryFrom(c, hashOf)]
  {
  }

  lemma EntriesRemoved(files: map<Bytes, Command>, path: Bytes, hashOf: Object -> Hash)
    requires AllStagings(files)
    ensures AllStagings(files - {path})
    ensures EntriesFrom(files - {path}, hashOf) == EntriesFrom(files, hashOf) - {path}
  {
  }

  /** After any run, colliding or not, the index lists exactly the staged files in path order. */
  lemma {:induction false} RunIndex(commands: seq<Command>, hashOf: Object -> Hash)
    ensures AllStagings(StagedFiles(commands))
    ensures Sorted(Run(commands, hashOf).entries)
    ensures Agree(Run(commands, hashOf).entries, EntriesFrom(StagedFiles(commands), hashOf))
    decreases |commands|
  {
    hide Sorted, Agree, Put, Drop, IndexTree, Missing, AllStagings, EntryFrom;
    if commands == [] {
      NothingStaged(hashOf);
    } else {
      var init, c := commands[..|commands| - 1], commands[|commands| - 1];
      var r, files := Run(init, hashOf), StagedFiles(init);
      RunIndex(init, hashOf);
      if c.StageFile? {
        EntriesUpdated(files, c, hashOf);
        StagedEntries(r, c, hashOf);
        PutAgrees(r.entries, EntriesFrom(files, hashOf), EntryFrom(c, hashOf));
      } else if c.Unstage? {
        EntriesRemoved(files, c.path, hashOf);
        DropAgrees(r.entries, EntriesFrom(files, hashOf), c.path);
      } else {
        EntriesStay(r, c, hashOf);
      }
    }
  }

  lemma NothingStaged(hashOf: Object -> Hash)
    ensures AllStagings(map[]) && Sorted([]) && Agree([], EntriesFrom(map[], hashOf))
  {
  }

  lemma StagedEntries(r: Repo, c: Command, hashOf: Object -> Hash)
    requires c.StageFile?
    ensures Stepped(r, c, hashOf).entries == Put(r.entries, EntryFrom(c, hashOf)) && EntryFrom(c, hashOf).path == c.path
  {
  }

  lemma EntriesStay(r: Repo, c: Command, hashOf: Object -> Hash)
    requires c.CommitIndex? || c.PushHead?
    ensures Stepped(r, c, hashOf).entries == r.entries
  {
    hide IndexTree, Missing;
  }

  // ---------------------------------------------------------------------------------------------
  // What a commit holds
  // ---------------------------------------------------------------------------------------------

  /** The object is a tree that lists the entries, in order. */
  ghost predicate Records(o: Object, entries: seq<IndexEntry>) {
    o.Tree? && |o.entries| == |entries| &&
    forall i :: 0 <= i < |entries| ==>
      o.entries[i].mode == entries[i].mode && o.entries[i].name == entries[i].path &&
      o.entries[i].hash == entries[i].hash && !o.entries[i].isTree
  }

  lemma RecordsExactly(o: Object, entries: seq<IndexEntry>)
    ensures Records(o, entries) <==> o == IndexTree(entries)
  {
    if Records(o, entries) {
      assert o.entries == IndexTree(entries).entries;
    }
  }

  /** HEAD is a commit whose tree lists the entries. */
  ghost predicate HeadRecords(r: Repo, entries: seq<IndexEntry>) {
    IsCommit(r.store, r.head) && r.store[r.head.value].tree in r.store &&
    Records(r.store[r.store[r.head.value].tree], entries)
  }

  /** HEAD is a new commit of the entries on the old HEAD, numbered one higher. */
  ghost predicate NewHead(r: Repo, r': Repo, meta: string) {
    HeadRecords(r', r.entries) && r'.head != r.head &&
    var o := r'.store[r'.head.value];
    o.parents == (if r.head.Some? then [r.head.value] else []) && o.meta == meta &&
    (r.head.None? ==> o.sequence == 1) &&
    (r.head.Some? ==> IsCommit(r.store, r.head) && o.sequence == r.store[r.head.value].sequence + 1)
  }

  /** Nothing stored is lost or replaced. */
  ghost predicate Extends(store: Store, store': Store) {
    forall h :: h in store ==> h in store' && store'[h] == store[h]
  }

  /** Whether HEAD already records the tree is a comparison of hashes, and hashes tell trees apart. */
  lemma SameTree(r: Repo, hashOf: Object -> Hash, n: nat)
    requires Good(r, hashOf, n) && Clean(r.written + {IndexTree(r.entries)}, hashOf) && r.head.Some?
    ensures IsCommit(r.store, r.head) && r.store[r.head.value].tree in r.store
    ensures HeadRecords(r, r.entries) <==> r.store[r.head.value].tree == hashOf(IndexTree(r.entries))
  {
    hide Clean, Announced, Holds, IndexTree, Records;
    var t := r.store[r.head.value].tree;
    assert t in Refs(r.store, r.head.value);
    RecordsExactly(r.store[t], r.entries);
    WroteFiled(r, IndexTree(r.entries), hashOf);
  }

  lemma CommitsExactly(r: Repo, hashOf: Object -> Hash, n: nat)
    requires Good(r, hashOf, n) && Clean(r.written + {IndexTree(r.entries)}, hashOf) && n < P64
    ensures var tree := IndexTree(r.entries);
            var store := Wrote(r, tree, hashOf).store;
            (Commits(store, r.entries, r.head, hashOf(tree)) <==> r.entries != [] && !HeadRecords(r, r.entries)) &&
            (r.head.Some? ==> SequenceOf(store, r.head) == r.store[r.head.value].sequence)
  {
    hide Clean, Announced, Holds, IndexTree, Records, SequencesUpTo;
    var tree := IndexTree(r.entries);
    if r.head.Some? {
      SameTree(r, hashOf, n);
    }
  }

  lemma CommittedDoes(r: Repo, meta: string, hashOf: Object -> Hash, n: nat)
    requires Good(r, hashOf, n) && n + 1 < P64 && Clean(Committed(r, meta, hashOf).written, hashOf)
    ensures var r' := Committed(r, meta, hashOf);
            Extends(r.store, r'.store) && r'.entries == r.entries && r'.tracking == r.tracking &&
            r'.shipped == r.shipped && r'.receiver == r.receiver &&
            (if r.entries == [] || HeadRecords(r, r.entries) then r'.head == r.head else NewHead(r, r', meta))
  {
    hide Clean, IndexTree, Commits, NextCommit, Good, HeadRecords, NewHead;
    if r.entries != [] {
      var tree := IndexTree(r.entries);
      var r1, r' := Wrote(r, tree, hashOf), Committed(r, meta, hashOf);
      CleanBefore(r1.written, r'.written, hashOf);
      CommitsExactly(r, hashOf, n);
      TreeGood(r, hashOf, n);
      if Commits(r1.store, r.entries, r.head, hashOf(tree)) {
        var c := NextCommit(r1.store, r.head, hashOf(tree), meta);
        NewHeadDoes(r, r1, meta, hashOf, n);
        assert r' == Wrote(r1, c, hashOf).(head := Some(hashOf(c)));
      }
    }
  }

  lemma TreeGood(r: Repo, hashOf: Object -> Hash, n: nat)
    requires Good(r, hashOf, n) && Clean(r.written + {IndexTree(r.entries)}, hashOf)
    ensures var tree := IndexTree(r.entries);
            var r1 := Wrote(r, tree, hashOf);
            Good(r1, hashOf, n) && Extends(r.store, r1.store) && hashOf(tree) in r1.store &&
            r1.store[hashOf(tree)] == tree
  {
    TreeRefs(r.entries, r.store);
    TreeOf(r.entries);
    hide IndexTree, Clean, Complete, Filed, SequencesUpTo, Announced, Holds, ReachSet;
    WroteGood(r, IndexTree(r.entries), hashOf, n, n);
  }

  lemma NewHeadDoes(r: Repo, r1: Repo, meta: string, hashOf: Object -> Hash, n: nat)
    requires Good(r, hashOf, n) && n + 1 < P64 && Good(r1, hashOf, n) && Extends(r.store, r1.store)
    requires r1.head == r.head && (r.head.Some? ==> SequenceOf(r1.store, r.head) == r.store[r.head.value].sequence)
    requires var t := hashOf(IndexTree(r.entries)); t in r1.store && r1.store[t] == IndexTree(r.entries)
    requires Clean(r1.written + {NextCommit(r1.store, r.head, hashOf(IndexTree(r.entries)), meta)}, hashOf)
    ensures var c := NextCommit(r1.store, r.head, hashOf(IndexTree(r.entries)), meta);
            var r' := Wrote(r1, c, hashOf).(head := Some(hashOf(c)));
            Extends(r.store, r'.store) && NewHead(r, r', meta)
  {
    hide Clean, IndexTree, Complete, Filed, Announced, Holds, ReachSet, Records;
    var t := hashOf(IndexTree(r.entries));
    var c := NextCommit(r1.store, r.head, t, meta);
    RecordsExactly(r1.store[t], r.entries);
    CommitRefs(r1, t, meta);
    WroteGood(r1, c, hashOf, n, n + 1);
    if r.head.Some? {
      assert r1.store[r.head.value].sequence != c.sequence;
    }
  }

  lemma CommitRefs(r: Repo, t: Hash, meta: string)
    requires t in r.store && Sound(r)
    ensures forall g :: g in ObjectRefs(NextCommit(r.store, r.head, t, meta)) ==> g in r.store
  {
    hide Complete, Holds, ReachSet;
  }

  /** A commit, over every run whose objects do not collide: it is refused exactly when the index is
      empty or HEAD's tree lists the staged files already; otherwise HEAD is a new commit whose tree
      lists them, whose only parent is the old HEAD, and whose number is one higher. */
  lemma CommitDoes(commands: seq<Command>, meta: string, hashOf: Object -> Hash)
    requires |commands| + 1 < P64 && Clean(Run(commands + [CommitIndex(meta)], hashOf).written, hashOf)
    ensures var r, r' := Run(commands, hashOf), Run(commands + [CommitIndex(meta)], hashOf);
            Extends(r.store, r'.store) && r'.entries == r.entries && r'.tracking == r.tracking &&
            r'.shipped == r.shipped && r'.receiver == r.receiver &&
            (if r.entries == [] || HeadRecords(r, r.entries) then r'.head == r.head else NewHead(r, r', meta))
  {
    hide Clean, Committed, Good, HeadRecords, NewHead, Run, Extends;
    AppendedRun(commands, CommitIndex(meta), hashOf);
    CommittedDoes(Run(commands, hashOf), meta, hashOf, |commands|);
  }

  /** One more command: the run before it is clean as well, and what it does is one step. */
  lemma AppendedRun(commands: seq<Command>, c: Command, hashOf: Object -> Hash)
    requires |commands| + 1 < P64 && Clean(Run(commands + [c], hashOf).written, hashOf)
    ensures Run(commands + [c], hashOf) == Stepped(Run(commands, hashOf), c, hashOf)
    ensures Clean(Run(commands, hashOf).written, hashOf) && Good(Run(commands, hashOf), hashOf, |commands|)
  {
    hide Clean, Stepped, Good, Run;
    var all := commands + [c];
    assert all[..|all| - 1] == commands;
    RunSplit(all, hashOf);
    SteppedWrites(Run(commands, hashOf), c, hashOf);
    CleanBefore(Run(commands, hashOf).written, Run(all, hashOf).written, hashOf);
    RunGood(commands, hashOf);
  }

  /** The tree lists exactly the given files in path order, each with its mode and, stored, its content. */
  ghost predicate HoldsFiles(store: Store, o: Object, files: map<Bytes, Command>) {
    o.Tree? &&
    (forall i, j :: 0 <= i < j < |o.entries| ==> Less(o.entries[i].name, o.entries[j].name)) &&
    (forall p :: p in files ==> exists i :: 0 <= i < |o.entries| && o.entries[i].name == p) &&
    forall i :: 0 <= i < |o.entries| ==>
      var e := o.entries[i];
      e.name in files && files[e.name].StageFile? && e.mode == files[e.name].mode && !e.isTree &&
      e.hash in store && store[e.hash] == Blob(files[e.name].content)
  }

  lemma RecordedFiles(r: Repo, o: Object, files: map<Bytes, Command>, hashOf: Object -> Hash, n: nat)
    requires Good(r, hashOf, n) && Records(o, r.entries) && Sorted(r.entries) && AllStagings(files)
    requires Agree(r.entries, EntriesFrom(files, hashOf))
    requires forall p :: p in files ==> Blob(files[p].content) in r.written
    ensures HoldsFiles(r.store, o, files)
  {
    hide Complete, Announced, Holds, ReachSet, SequencesUpTo, Less;
    forall p | p in files
      ensures exists i :: 0 <= i < |o.entries| && o.entries[i].name == p
    {
      assert p in EntriesFrom(files, hashOf);
      var i :| 0 <= i < |r.entries| && r.entries[i].path == p;
      assert o.entries[i].name == p;
    }
  }

  lemma {:induction false} StagedWritten(commands: seq<Command>, hashOf: Object -> Hash)
    ensures forall p :: p in StagedFiles(commands) ==>
              StagedFiles(commands)[p].StageFile? &&
              Blob(StagedFiles(commands)[p].content) in Run(commands, hashOf).written
    decreases |commands|
  {
    hide IndexTree, Put, Drop, Committed, Pushed;
    if commands != [] {
      var init, c := commands[..|commands| - 1], commands[|commands| - 1];
      StagedWritten(init, hashOf);
      SteppedWrites(Run(init, hashOf), c, hashOf);
    }
  }

  /** After any run that ends with a commit while files are staged, the tree of HEAD holds exactly the
      staged files: every path with the mode and the content it was last staged with, and no other. */
  lemma CommitHoldsStaged(commands: seq<Command>, meta: string, hashOf: Object -> Hash)
    requires |commands| + 1 < P64 && Clean(Run(commands + [CommitIndex(meta)], hashOf).written, hashOf)
    requires StagedFiles(commands) != map[]
    ensures var r := Run(commands + [CommitIndex(meta)], hashOf);
            IsCommit(r.store, r.head) && r.store[r.head.value].tree in r.store &&
            HoldsFiles(r.store, r.store[r.store[r.head.value].tree], StagedFiles(commands))
  {
    hide Clean, Run, Extends, Records, HoldsFiles, Sorted, Good;
    var all := commands + [CommitIndex(meta)];
    var r, r' := Run(commands, hashOf), Run(all, hashOf);
    CommitDoes(commands, meta, hashOf);
    RunIndex(commands, hashOf);
    RunGood(all, hashOf);
    StagedWritten(commands, hashOf);
    AppendedRun(commands, CommitIndex(meta), hashOf);
    SteppedWrites(r, CommitIndex(meta), hashOf);
    IndexNotEmpty(r.entries, StagedFiles(commands), hashOf);
    if HeadRecords(r, r.entries) {
      HeadStillRecords(r, r');
    }
    RecordedFiles(r', r'.store[r'.store[r'.head.value].tree], StagedFiles(commands), hashOf, |all|);
  }

  lemma IndexNotEmpty(entries: seq<IndexEntry>, files: map<Bytes, Command>, hashOf: Object -> Hash)
    requires AllStagings(files) && Agree(entries, EntriesFrom(files, hashOf)) && files != map[]
    ensures entries != []
  {
    var p :| p in files;
    assert p in EntriesFrom(files, hashOf);
  }

  lemma HeadStillRecords(r: Repo, r': Repo)
    requires HeadRecords(r, r.entries) && Extends(r.store, r'.store) && r'.head == r.head
    ensures HeadRecords(r', r.entries)
  {
    hide Records;
  }

  // ---------------------------------------------------------------------------------------------
  // History
  // ---------------------------------------------------------------------------------------------

  /** The commits a run made, oldest first. */
  ghost function Made(commands: seq<Command>, hashOf: Object -> Hash): seq<Hash> {
    if commands == [] then []
    else
      var init := commands[..|commands| - 1];
      var was, now := Run(init, hashOf).head, Run(commands, hashOf).head;
      Made(init, hashOf) + (if now.Some? && now != was then [now.value] else [])
  }

  /** The i-th hash is that of a commit on the one before, and its number says so. */
  ghost predicate LinkAt(store: Store, hs: seq<Hash>, i: nat)
    requires i < |hs|
  {
    hs[i] in store && store[hs[i]].Commit? && store[hs[i]].sequence == i + 1 &&
    store[hs[i]].parents == (if i == 0 then [] else [hs[i - 1]])
  }

  ghost predicate Chain(store: Store, hs: seq<Hash>) {
    forall i: nat :: i < |hs| ==> LinkAt(store, hs, i)
  }

  ghost function LastOf(hs: seq<Hash>): Option<Hash> {
    if hs == [] then None else Some(hs[|hs| - 1])
  }

  lemma StepExtends(r: Repo, c: Command, hashOf: Object -> Hash)
    ensures Extends(r.store, Stepped(r, c, hashOf).store)
    ensures !c.CommitIndex? ==> Stepped(r, c, hashOf).head == r.head
  {
    hide IndexTree, NextCommit, Missing, Put, Drop, Commits;
  }

  lemma ChainGrows(store: Store, store': Store, hs: seq<Hash>, h: Hash)
    requires Chain(store, hs) && Extends(store, store')
    requires LinkAt(store', hs + [h], |hs|)
    ensures Chain(store', hs + [h])
  {
    forall i: nat | i < |hs + [h]|
      ensures LinkAt(store', hs + [h], i)
    {
      if i < |hs| {
        assert LinkAt(store, hs, i);
      }
    }
  }

  lemma ChainStays(store: Store, store': Store, hs: seq<Hash>)
    requires Chain(store, hs) && Extends(store, store')
    ensures Chain(store', hs)
  {
    forall i: nat | i < |hs|
      ensures LinkAt(store', hs, i)
    {
      assert LinkAt(store, hs, i);
    }
  }

  /** The commits of a run form one chain: each has the one before as its only parent and is numbered in
      order from one, and HEAD is the last. */
  lemma {:induction false} MadeIsHistory(commands: seq<Command>, hashOf: Object -> Hash)
    requires Clean(Run(commands, hashOf).written, hashOf) && |commands| < P64
    ensures Chain(Run(commands, hashOf).store, Made(commands, hashOf))
    ensures Run(commands, hashOf).head == LastOf(Made(commands, hashOf))
    decreases |commands|
  {
    hide Clean, Run, Chain, Stepped, Good;
    if commands == [] {
      NoHistory(hashOf);
    } else {
      var init, c := commands[..|commands| - 1], commands[|commands| - 1];
      assert init + [c] == commands;
      var r, r', hs := Run(init, hashOf), Run(commands, hashOf), Made(init, hashOf);
      AppendedRun(init, c, hashOf);
      MadeIsHistory(init, hashOf);
      StepExtends(r, c, hashOf);
      if r'.head == r.head {
        ChainStays(r.store, r'.store, hs);
        assert hs + [] == hs;
      } else {
        CommitDoes(init, c.meta, hashOf);
        NewLink(r, r', c.meta, hs);
        ChainGrows(r.store, r'.store, hs, r'.head.value);
      }
    }
  }

  lemma NewLink(r: Repo, r': Repo, meta: string, hs: seq<Hash>)
    requires Chain(r.store, hs) && r.head == LastOf(hs) && NewHead(r, r', meta)
    ensures LinkAt(r'.store, hs + [r'.head.value], |hs|)
  {
    hide Records;
    if hs != [] {
      assert LinkAt(r.store, hs, |hs| - 1);
    }
  }

  lemma NoHistory(hashOf: Object -> Hash)
    ensures Chain(Run([], hashOf).store, []) && Run([], hashOf).head == None
  {
  }

  /** From the last commit of a chain every commit of it is reachable. */
  lemma {:induction false} ChainReaches(store: Store, hs: seq<Hash>, i: nat, j: nat)
    requires Chain(store, hs) && i <= j < |hs|
    ensures Reaches(store, hs[j], hs[i])
    decreases j - i
  {
    hide Reaches;
    if i == j {
      ReachesSelf(store, hs[j]);
    } else {
      ChainReaches(store, hs, i, j - 1);
      assert LinkAt(store, hs, j);
      assert hs[j - 1] in store[hs[j]].parents;
      ReachesStep(store, hs[j], hs[j - 1], hs[i]);
    }
  }

  /** Every commit the run ever made is reachable from HEAD, with everything it refers to, and survives
      pruning unchanged. */
  lemma HistoryIsKept(commands: seq<Command>, hashOf: Object -> Hash, i: nat)
    requires Clean(Run(commands, hashOf).written, hashOf) && |commands| < P64
    requires i < |Made(commands, hashOf)|
    ensures var r, h := Run(commands, hashOf), Made(commands, hashOf)[i];
            r.head.Some? && h in ReachSet(r.store, {r.head.value}) && h in r.store &&
            forall g :: g in ReachSet(r.store, {h}) ==>
              g in r.store && g in Gc.Kept(r.store, RootsOf(r)) && Gc.Kept(r.store, RootsOf(r))[g] == r.store[g]
  {
    hide Clean, Run, Chain, ReachSet, Good, Made, RootsOf;
    var r, hs := Run(commands, hashOf), Made(commands, hashOf);
    MadeIsHistory(commands, hashOf);
    ChainReaches(r.store, hs, i, |hs| - 1);
    var h, head := hs[i], r.head.value;
    assert h in r.store by { InChain(r.store, hs, i); }
    assert head in {head} && h in {h};
    ReachSetIsReach(r.store, {head}, h);
    RunStaysWhole(commands, hashOf);
    HeadIsRoot(r);
    ReachSetClosed(r.store, RootsOf(r));
    forall g | g in ReachSet(r.store, {h})
      ensures g in r.store && g in ReachSet(r.store, RootsOf(r))
    {
      ReachSetIsReach(r.store, {h}, g);
      ClosedReaches(r.store, ReachSet(r.store, RootsOf(r)), head, h);
      ClosedReaches(r.store, ReachSet(r.store, RootsOf(r)), h, g);
    }
  }

  lemma InChain(store: Store, hs: seq<Hash>, i: nat)
    requires Chain(store, hs) && i < |hs|
    ensures hs[i] in store
  {
    assert LinkAt(store, hs, i);
  }

  lemma HeadIsRoot(r: Repo)
    requires r.head.Some?
    ensures r.head.value in RootsOf(r)
  {
  }

  /** A commit made by the first n commands is made by all of them, under the same hash. */
  lemma {:induction false} MadeGrows(commands: seq<Command>, hashOf: Object -> Hash, n: nat)
    requires n <= |commands|
    ensures Made(commands[..n], hashOf) <= Made(commands, hashOf)
    decreases |commands|
  {
    hide Run;
    if n < |commands| {
      var init := commands[..|commands| - 1];
      assert init[..n] == commands[..n];
      MadeGrows(init, hashOf, n);
    } else {
      assert commands[..n] == commands;
    }
  }
}
