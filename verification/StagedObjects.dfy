/** What garbage collection does to files that are staged and not yet committed. */
module StagedObjects {
  import opened Common
  import opened Codec
  import opened ObjectGraph
  import opened Pushing
  import opened RepositoryRun
  import opened Gc

  /** HEAD and the remote tracking ref; the staging index is none. */
  ghost function RootsOf(r: Repo): set<Hash> {
    (if r.head.Some? then {r.head.value} else {}) + (if r.tracking.Some? then {r.tracking.value} else {})
  }

  lemma RootsReachStored(r: Repo, hashOf: Object -> Hash, n: nat)
    requires Good(r, hashOf, n)
    ensures ReachSet(r.store, RootsOf(r)) <= r.store.Keys
  {
    hide Reaches, Filed, Announced, Holds;
    forall g | g in ReachSet(r.store, RootsOf(r))
      ensures g in r.store
    {
      var h :| h in RootsOf(r) && Reaches(r.store, h, g);
      ClosedReaches(r.store, r.store.Keys, h, g);
    }
  }

  /** After any run that ends by staging a content never written before, pruning removes its blob. */
  lemma {:induction false} UncommittedIsPruned(commands: seq<Command>, hashOf: Object -> Hash)
    requires commands != [] && commands[|commands| - 1].StageFile? && |commands| < P64
    requires Clean(Run(commands, hashOf).written, hashOf)
    requires Blob(commands[|commands| - 1].content) !in Run(commands[..|commands| - 1], hashOf).written
    ensures var r := Run(commands, hashOf);
            var h := hashOf(Blob(commands[|commands| - 1].content));
            h in r.store && h !in Kept(r.store, RootsOf(r))
  {
    hide ReachSet, Run, Good;
    var init, c := commands[..|commands| - 1], commands[|commands| - 1];
    var r, r', blob := Run(init, hashOf), Run(commands, hashOf), Blob(c.content);
    RunSplit(commands, hashOf);
    assert r'.written == r.written + {blob};
    CleanBefore(r.written, r'.written, hashOf);
    RunGood(init, hashOf);
    NewHash(r, blob, hashOf, |init|);
    RootsReachStored(r, hashOf, |init|);
    StagedIsPruned(r.store, RootsOf(r), hashOf(blob), c.content);
  }

  lemma NewHash(r: Repo, o: Object, hashOf: Object -> Hash, n: nat)
    requires Good(r, hashOf, n) && Clean(r.written + {o}, hashOf) && o !in r.written
    ensures hashOf(o) !in r.store
  {
    hide Sound, Announced;
    assert o in r.written + {o};
  }
}
