# MinusSync: a verified model

MinusSync is a small version control system: content-addressed objects in a store, a staging index, commits, line
diffs, ignore rules, garbage collection, push and fetch over a message protocol, content-defined chunking, binary
deltas, pack files and a search index. This project models its algorithms in Dafny and proves what they are for.
`dafny verify dfyconfig.toml` checks everything.

Code that changes state step by step is modelled that way: frontier arrays, cursors, accumulators and object fields
are arrays, local variables and class fields; each such method is proved against a specification function or
predicate, and the main results are lemmas about those. A specification function that follows the code step by step
has a second, independent description: by paths, positions, cut points or places in the input. Hashing, compression, checksums and tokenizing are function
parameters. "No collision" is always a hypothesis about the finite set of byte strings involved, never about all
byte strings. Traversals of Go maps pick their next element in any order, so the results hold for every order.

| files | part |
|---|---|
| `EditDistance`, `LineDiff`, `EditMeaning`, `TextDiff`, `Hunks` | the greedy line diff, what its length means, diffs of texts, hunks |
| `Glob`, `GlobHalting`, `IgnoreRules` | the glob matcher, when it stops, and the rule list |
| `ObjectGraph`, `Marking`, `Gc` | reachability and garbage collection |
| `Pushing`, `PushEffects`, `RepositoryRun`, `RunHistory`, `LocalRepository`, `StagedObjects` | what a push sends, runs of staging, commits and pushes, and the history they leave |
| `Session`, `SessionRecord` | client and server as a two-party step system, and what each is told |
| `StagingIndex`, `IndexFile` | the sorted staging index and its file |
| `GearHash`, `FastCdc`, `Chunking`, `Locality`, `Splitting` | chunk boundaries, what they depend on, and the sync plan |
| `Delta`, `DeltaEncoder`, `DeltaWire` | binary deltas and their byte form |
| `ObjectFormat`, `TreeFormat`, `DirTree`, `TreePaths`, `TreeStore`, `TreeCheckout`, `StoredGraph` | objects, trees, directories by path, building and checkout, and what collection leaves of them |
| `PackFormat`, `PackFile`, `PackLimits` | pack files and what their fields cannot describe |
| `Postings`, `SearchSpec`, `SearchIndex` | the inverted index and queries |
| `Common`, `Codec`, `ByteOrder` | shared types, big-endian integers, byte order, sorting and searching |

## What turned out different from the documentation

- `Diff` of two empty texts returns one empty insertion, although identical texts are meant to give no edits
  (`internal/diff/diff_test.go:8-12`). For all other texts the result is empty exactly when they agree up to the
  final newline (`TextDiff.Diff`).
- `globMatch` does not stop on some patterns with `**`: `**a` against `bba` retries the same position forever, and so
  does any pattern that ends in `**` on some name. `GlobHalting.HaltsExactlyOnSafe` says for which patterns
  it stops on every name; when it stops, its answer is right. A single `*` also matches `/`,
  against the comment at `internal/ignore/ignore.go:137`.
- The first 16 bytes of a delta match are compared by a 32-bit hash only, and the length of a match is cut to 32
  bits. `Delta.DeltaRebuilds` says exactly when patching gives the target; `Delta.CollisionCorrupts` and
  `Delta.LongMatchIsLost` give targets it does not give.
- Two hunks overlap when an edit lies far behind the start of its hunk but less than the context behind the edit
  before (`Hunks.BuildHunks`, `Hunks.CrowdedHunks`); the deleted lines in between are then shown as context too.
- With `MinSize` below 64, the window of the first test starts at the chunk only from 64 - `MinSize` bytes into the
  file on, and before that it is empty, so boundaries are not local. `Locality.LocalExactly` and
  `Locality.LocalExactlyForTable` say exactly when they are; `Splitting.ShortMinimumIsNotLocal` is an example.
- `Split` never ends for `MaxSize` 0 on data longer than `MinSize` (`Splitting.SplitStopsExactly`).
- The three chunking masks are nested, so the test of all three is a test of the smallest
  (`FastCdc.AnyMaskIsSmallest`).
- The staging index is not a root of garbage collection: a staged blob survives pruning exactly if a root reaches it
  (`Gc.StagedIsPruned`), so content that was only staged is lost (`StagedObjects.UncommittedIsPruned`).
- Pack offsets are cut to 32 bits: behind 2^32 bytes of compressed objects an object is looked for in the wrong place
  (`PackFile.EntryReadsExactly`, `PackLimits.WrappedOffsetLoses`).
- A staging index with a path of 65536 bytes or more does not load back as it was saved (`IndexFile.LoadsUnchanged`).

## Model

| member | source | states |
|---|---|---|
| LineDiff.Extend | internal/diff/diff.go:121-136 | one diagonal of one round: the new frontier value is the furthest point of that diagonal at edit distance at most d |
| LineDiff.CornerReached | internal/diff/diff.go:138-141 | the stop test can only fire at exactly (len a, len b), and on the corner's own diagonal it fires in the round that equals the distance |
| LineDiff.Round | internal/diff/diff.go:120-142 | a round finds the corner exactly when d is the edit distance, and otherwise leaves the furthest-reaching frontier of d |
| LineDiff.MyersDiff | internal/diff/diff.go:98-146 | never falls through to the final return: the edits lead from old to new, there are exactly as many as the edit distance, and each concerns a single line |
| LineDiff.StepBack | internal/diff/diff.go:159-196 | one backward round: undoes exactly the choice of the forward round, with every frontier read in bounds |
| LineDiff.Backtrack | internal/diff/diff.go:153-204 | reads the saved frontiers back into exactly d single-line edits, ordered, disjoint and with equal gaps |
| LineDiff.CoversPatches | internal/diff/diff.go:18-23 | edits with equal gaps, applied as "replace the old range by the new range", turn old into new |
| EditMeaning.AtLeastDist | internal/diff/diff.go:97-146 | no chain of single-line insertions and deletions, at any positions and in any order, is shorter than the distance |
| EditMeaning.DistIsMinimal | internal/diff/diff.go:97-146 | the distance the search finds is the minimum number of single-line edits from one list to the other |
| EditMeaning.CommonAtMost | internal/diff/diff.go:97-146 | no common subsequence is longer than what the distance leaves unedited |
| EditMeaning.DistIsLcs | internal/diff/diff.go:97-146 | the distance is n + m - 2 LCS(a, b), with the longest common subsequence produced |
| TextDiff.CompactedCovers | internal/diff/diff.go:207-227 | merging neighbouring edits keeps order, bounds and equal gaps, so the merged list still turns old into new |
| TextDiff.CompactedAlternates | internal/diff/diff.go:207-227 | after merging no two consecutive edits have the same kind |
| TextDiff.CompactEdits | internal/diff/diff.go:207-227 | cutting the edits into the longest runs of one kind, each merged edit has the kind of every edit of its run, starts where the first starts and ends where the last ends |
| TextDiff.MergesOnce | internal/diff/diff.go:207-227 | there is only one list of merged edits with that property |
| TextDiff.CompactedNet | internal/diff/diff.go:207-227 | merging keeps the number of lines inserted and deleted, the equal lines inside a merged range not counted |
| TextDiff.LinesExactly | internal/diff/diff.go:40-49 | the lines of a text are the one list of strings without newlines that, each followed by a newline, make up the terminated text |
| TextDiff.SameLines | internal/diff/diff.go:40-49 | two texts split into the same lines exactly when they agree up to the newline after the last line |
| TextDiff.Diff | internal/diff/diff.go:39-53 | the edits merge the runs of a shortest script; they lead from the old lines to the new, alternate in kind, insert and delete as many lines as the edit distance, and there are none exactly when the texts agree up to the final newline and the old one is not empty |
| TextDiff.DiffMeaning | internal/diff/diff.go:39-53 | applying such edits to the old lines and joining them gives the new text, terminated |
| Hunks.AddEdit | internal/diff/diff.go:256-281 | the lines added to a hunk are, on its old side, the old lines up to the end of the edit, and on its new side the gap and the inserted lines |
| Hunks.TrailingContext | internal/diff/diff.go:284-291 | behind the last edit the context's number of old lines follows, or as many as are left |
| Hunks.BuildHunks | internal/diff/diff.go:230-296 | every edit is shown in exactly one hunk, in order, as context, removed and added lines; a hunk starts the context before its first edit, a new one begins exactly when an edit starts more than twice the context behind it, and only the last ends in context; old sides are what the old file has there; hunks do not overlap if and only if every new hunk has room for its context, and then applying them gives the new file |
| Hunks.CrowdedHunks | internal/diff/diff.go:245-254 | a concrete diff whose hunks overlap |
| Glob.MatchesIsFrom | internal/ignore/ignore.go:105-107 | the meaning by cutting the name into one piece per token and the meaning by positions agree |
| Glob.MatchesByFront | internal/ignore/ignore.go:105-161 | what a pattern matches, by its front: `?` takes one byte, another byte itself, and `*`, `**` and `**/` each leave some suffix of the name to the rest of the pattern |
| Glob.NextStar | internal/ignore/ignore.go:123-155 | backtracking only to the last star loses no match |
| Glob.SoundStep | internal/ignore/ignore.go:113-158 | every iteration keeps: the loop's state can still reach a match exactly when the whole name matches |
| Glob.AnswersAreRight | internal/ignore/ignore.go:107-161 | for every pattern, doubled stars included, whatever the loop answers is what the pattern means |
| GlobHalting.LiveHalts | internal/ignore/ignore.go:113-158 | from every state of a safe pattern the loop stops: star, retry position and pattern position form a lexicographic measure |
| GlobHalting.Diverges | internal/ignore/ignore.go:125-135 | for every unsafe pattern there is a name on which the loop never stops |
| GlobHalting.HaltsExactlyOnSafe | internal/ignore/ignore.go:107-161 | the loop stops on every name if and only if the pattern is safe: every doubled star is followed, at once or after a single `?`, by another star |
| GlobHalting.NoAdjacentIsSafe | internal/ignore/ignore.go:107-161 | patterns without two adjacent stars are safe |
| GlobHalting.DoubleStarLoops | internal/ignore/ignore.go:125-135 | `**a` matches `bba` by its meaning, and the loop never stops on it |
| GlobHalting.GlobMatch | internal/ignore/ignore.go:107-161 | the loop returns true exactly when the name matches |
| IgnoreRules.IsIgnored | internal/ignore/ignore.go:67-103 | the last rule that applies and matches decides: ignored exactly if there is one and it is not negated |
| IgnoreRules.BaseNameIs | internal/ignore/ignore.go:92-94 | the base name of a path is its last component, whatever slashes follow it |
| IgnoreRules.HasLastComponent | internal/ignore/ignore.go:92-94 | every path has a last component but the empty one and those of slashes only, whose base names are `.` and `/` |
| IgnoreRules.FiresOn | internal/ignore/ignore.go:73-103 | a rule without a slash is matched against the last component, one with a slash against the whole path with its own leading slash dropped, and a rule for directories fires on them only |
| IgnoreRules.SafeRulesAnswer | internal/ignore/ignore.go:67-103 | rules with safe patterns give an answer for every path |
| ObjectGraph.ReachSetIsReach | internal/gc/gc.go:123-165 | the reach set is the transitive closure of the reference relation, by paths |
| ObjectGraph.RefsAreNames | internal/gc/gc.go:138-164 | a commit names its tree and each parent, a tree each of its entries, a tag its target; nothing else names anything |
| ObjectGraph.ReachSetUnique | internal/gc/gc.go:123-165 | a closed set that holds the roots and nothing unreachable is the reach set |
| ObjectGraph.ReachSetAgrees | internal/gc/gc.go:123-165 | reachability depends on the reachable objects only |
| Marking.MarksClosed | internal/gc/gc.go:123-165 | marking one more root on top of a closed visited set adds exactly what that root reaches |
| Marking.Marker.MarkReachable | internal/gc/gc.go:123-165 | terminates on any graph, shared, cyclic or with missing objects; it adds only what is reachable and leaves no reference of a new node unmarked |
| Marking.Collector.CollectNewObjects | internal/sync/push.go:177-218 | visits what is reachable and lists, each once, what the old side does not have |
| Marking.MarkedIsReachSet | internal/sync/push.go:138-174 | marking from nothing computes the reach set |
| Marking.ComputeObjectDiff | internal/sync/push.go:125-135 | exactly the objects reachable from the new commit and not from the old one, each once |
| Gc.Repository.MarkRoots | internal/gc/gc.go:27-59 | marks exactly what HEAD, tags and remote refs reach; a zero HEAD and unreadable refs are no roots |
| Gc.Repository.RootsHold | internal/gc/gc.go:27-59 | reachable from the roots means reached from a non-zero HEAD, from a readable tag or from a readable remote ref |
| Gc.Repository.Collect | internal/gc/gc.go:24-120 | with pruning an object stays exactly if it is reached from a non-zero HEAD, a readable tag or a readable remote ref, unchanged; without it the store stays as it is; the report counts stored, reachable and unreachable objects |
| Gc.KeptIsStable | internal/gc/gc.go:24-120 | pruning changes neither what is reachable nor any reachable object, and a second run finds nothing to remove |
| Gc.CountsAddUp | internal/gc/gc.go:61-120 | reachable plus unreachable is the total exactly when no reachable object is missing |
| Gc.StagedIsPruned | internal/gc/gc.go:24-120 | an object just stored under a new hash survives pruning exactly if it is reachable from a root, and storing it changes nothing that is reachable |
| StagedObjects.UncommittedIsPruned | internal/gc/gc.go:27-120 | after any run that ends by staging new content, pruning removes its blob: the staging index is no root |
| StoredGraph.DirReachSet | internal/gc/gc.go:123-165 | on the graph spelled out by the stored bytes, what is reachable from a built directory's root hash is exactly the hashes of its objects |
| StoredGraph.PrunedStillChecksOut | internal/gc/gc.go:24-120 | a directory whose root is reachable is checked out after pruning exactly as it was |
| StoredGraph.CheckoutNeedsAll | internal/object/tree.go:190-249 | a checkout that succeeds has found every object reachable from the root with the hash it is filed under; with one missing or damaged it fails |
| Pushing.SendPack | internal/sync/push.go:101-122 | the header announces the size of the difference in 32 bits, and the pack holds the stored ones of it in order |
| Pushing.HeaderCounts | internal/sync/push.go:101-122 | the announced count is the number of objects sent exactly when none of them is missing locally |
| Pushing.ReceiverCloses | internal/sync/push.go:101-135 | a receiver holding everything reachable from the old commit holds everything reachable from the new one after storing the pack |
| Pushing.PackCarries | internal/sync/push.go:101-122 | a pack announces the size of the difference in 32 bits and holds each stored object of it once |
| RepositoryRun.Grows | internal/object/object.go:97-140 | writing an object whose references are stored keeps the store complete and changes no reach set |
| RepositoryRun.WroteGood | internal/object/object.go:97-140 | among objects that do not collide, a write keeps everything a run keeps, and the object can be found under its hash |
| RepositoryRun.CommittedGood | internal/cmd/commit.go:51-107 | a commit keeps everything a run keeps: completeness, HEAD, tracking ref, index, receiver, sequence numbers |
| RepositoryRun.PushedGood | internal/sync/push.go:14-98 | a push keeps everything a run keeps, with every answer of the server |
| LocalRepository.LocalRepo.BuildTreeFromIndex | internal/cmd/commit.go:109-122 | writes the tree of the staged entries in order; under a new hash that tree is what is stored, and nothing stored before changes |
| LocalRepository.LocalRepo.Commit | internal/cmd/commit.go:51-107 | the whole new state is that of the run function; `RunHistory.CommitDoes` says what it is |
| LocalRepository.LocalRepo.Push | internal/sync/push.go:14-98 | the whole new state; rejected exactly if the tracking ref is a stored commit with a higher number than HEAD; otherwise the pack is sent if it is wanted, and the tracking ref moves to HEAD exactly if the pack is accepted |
| LocalRepository.Session | internal/sync/push.go:14-136 | every list of staging, unstaging, commit and push commands leaves the state the run function gives; unless written objects collide, the receiver is closed over the tracking ref and every header count is right |
| RepositoryRun.ReceiverStaysClosed | internal/sync/push.go:14-136 | over every run whose written objects do not collide, a receiver that starts empty and stores each pack holds everything reachable from the remote tracking ref, and every pack announced the number of objects that followed |
| RepositoryRun.RunStaysWhole | internal/sync/push.go:50-55 | over every such run nothing reachable from a stored object is missing, the store holds exactly the written objects, and a push is never refused as behind the remote |
| RepositoryRun.AcceptedPush | internal/sync/push.go:57-81 | a run that ends with an accepted push leaves the tracking ref at HEAD and the receiver closed over HEAD |
| PushEffects.PushDoes | internal/sync/push.go:14-135 | in any state: nothing is sent or changed unless HEAD is a stored commit, not behind the remote, and the server asks for the pack; then exactly the stored objects HEAD reaches and the tracking ref does not are sent and received, their number with missing ones is announced, and the tracking ref moves exactly if the server accepts |
| RunHistory.RunIndex | internal/index/index.go:254-278 | after any run the index lists in path order exactly the files staged and not unstaged since, each as it was last staged |
| RunHistory.CommitDoes | internal/cmd/commit.go:51-107 | over every collision-free run: a commit is refused exactly if the index is empty or the tree of HEAD lists the staged files already; otherwise HEAD is a new commit whose tree lists them, whose only parent is the old HEAD if there was one, and whose number is one higher |
| RunHistory.CommitHoldsStaged | internal/cmd/commit.go:51-122 | after a commit with files staged the tree of HEAD holds every staged path with the mode and content it was last staged with, and no other |
| RunHistory.MadeIsHistory | internal/cmd/commit.go:63-107 | the commits of a run form one chain, each with the one before as its only parent, numbered from one, and HEAD is the last |
| RunHistory.HistoryIsKept | internal/gc/gc.go:24-120 | every commit a run ever made is reachable from HEAD and survives pruning unchanged, with everything it refers to |
| Session.StepGoal | internal/msyncd/daemon.go:88-229 | every send and receive of either side, in any interleaving, keeps the conversation on track, takes only a message its receiver is written for, and lowers the measure |
| Session.SomeoneMoves | internal/msyncd/daemon.go:100-229 | no deadlock: if nobody can move, the client is finished, the server is in its main loop, both channels are empty, and the tracking ref is the goal |
| Session.RunSettles | internal/msyncd/daemon.go:88-229 | every run from a state on track is bounded, understood throughout, and stuck only at its proper end |
| Session.FetchSettles | internal/sync/fetch.go:13-85 | every interleaving of a fetch with the server, for any refs and channel capacity, ends after at most 15 n + 4 steps with the tracking ref that follows the advertised HEADs |
| Session.PushSettles | internal/sync/push.go:57-98 | every interleaving of a push with the server, for any pack and announced count, ends with the tracking ref at the pushed commit |
| SessionRecord.RunOwes | internal/msyncd/daemon.go:88-229 | along every run, what each side has taken and what it will yet take is what it was owed at the start |
| SessionRecord.PushRecord | internal/sync/push.go:57-122 | in every interleaving the server is told the request, the tracking ref or zero with the new commit, the announced count, the pack's objects each once and in order, and the end; the client that the pack is wanted and arrived; before the end each side has taken a beginning of that |
| SessionRecord.FetchRecord | internal/sync/fetch.go:27-80 | in every interleaving the client is told every ref in order and one empty pack per request, and the server is asked for each advertised HEAD that is news, with the tracking ref of that moment as what is had |
| SessionRecord.PushDelivers | internal/sync/push.go:57-135 | a settled push of a computed pack has told the server exactly the stored objects the new commit reaches and the old one does not, and the size of that difference in 32 bits |
| SessionRecord.PushTrusts | internal/sync/push.go:62-97 | whatever a server answers, the tracking ref moves exactly if the pack was asked for first and acknowledged next |
| SessionRecord.FetchTrusts | internal/sync/fetch.go:31-80 | whatever a server answers, a fetch leaves the tracking ref as it was or at a HEAD the server told |
| SessionRecord.ServerAnswersEach | internal/msyncd/daemon.go:100-229 | whatever a client sends, the server gives one final answer to each message that reaches its main loop, and an error exactly where a message is no request or a push request is not followed by an update |
| Session.FollowedIsLastHead | internal/sync/fetch.go:50-80 | following the advertised HEADs in turn leaves the last one |
| StagingIndex.Index.Find | internal/index/index.go:242-251 | finds the entry the map has under the path, or nothing |
| StagingIndex.Index.Add | internal/index/index.go:254-268 | inserts or replaces: the sorted entries refine the updated map, and are the old ones with the entry at its place |
| StagingIndex.Index.Remove | internal/index/index.go:271-278 | deletes the path from the map and its entry from the list, and nothing else, keeping the order |
| StagingIndex.InsertedSorted | internal/index/index.go:254-268 | inserting at the searched position keeps the entries strictly sorted |
| ByteOrder.LessExactly | internal/index/index.go:242-268 | the order of paths, names and hashes: smaller at the first byte that differs, or ended before one does |
| IndexFile.EntryRoundTrip | internal/index/index.go:92-165 | an entry cut off anywhere is unreadable, and a whole one is read back whatever follows |
| IndexFile.LoadTruncated | internal/index/index.go:57-173 | loading any truncation of a saved file gives the prefix of the entries that lie wholly within it |
| IndexFile.LoadsUnchanged | internal/index/index.go:57-239 | a saved index loads unchanged if and only if all paths are below 65536 bytes and there are fewer than 2^32 entries |
| IndexFile.LoadsOldVersion | internal/index/index.go:72-165 | a file of version 1 loads with its entries and zero fingerprints; one of an unknown version counts as empty |
| IndexFile.ForeignIsEmpty | internal/index/index.go:68-75 | what is shorter than a header or does not start with MSYN counts as empty |
| IndexFile.FileLayout | internal/index/index.go:176-239 | a saved file says MSYN, version 2 and its number of entries, and ends in the checksum of the entry bytes |
| IndexFile.TailLayout | internal/index/index.go:200-225 | size, time, mode and flags follow each other in 8, 8, 4 and 2 bytes |
| IndexFile.Save | internal/index/index.go:176-239 | writes header, entries and checksum of the sorted entries and leaves the index as it was |
| IndexFile.Load | internal/index/index.go:57-173 | reads the entries of the bytes and sorts them; entries already in order under distinct paths are returned as they are |
| IndexFile.SaveAndLoad | internal/index/index.go:57-239 | the loaded index has the same entries and refines the same map |
| IndexFile.Replay | internal/index/index.go:57-278 | over every run of adds, removes, saves and loads the strictly sorted entries refine a map from path to entry |
| FastCdc.InitGearTable | internal/delta/fastcdc.go:25-32 | the table holds the successive states of the generator, whose first three are given as numbers |
| FastCdc.FirstEntries | internal/delta/fastcdc.go:25-32 | the seed and the first three entries as numbers |
| FastCdc.RolledIsWeighted | internal/delta/fastcdc.go:82-92 | rolling in 64-bit words computes the weighted sum of the table values modulo 2^64 |
| FastCdc.Forgets | internal/delta/fastcdc.go:75-92 | modulo 2^k only the last k bytes matter, so 64 bytes determine the whole hash |
| FastCdc.ComputeMasks | internal/delta/fastcdc.go:108-121 | the masks of an average size, with the shift counts in wrapping arithmetic |
| FastCdc.AvgBitsRange | internal/delta/fastcdc.go:108-115 | the bit count is the position of the highest set bit of the average size |
| FastCdc.AnyMaskIsSmallest | internal/delta/fastcdc.go:94-121 | the any-mask test is divisibility by a power of two: 2^(bits - 3) from average size 8 on, and the exact exponents below |
| Chunking.FindChunkBoundary | internal/delta/fastcdc.go:62-105 | the loop computes the first cut behind the minimum, or the maximal end |
| Chunking.BoundaryIsFirst | internal/delta/fastcdc.go:62-105 | the boundary is the end of the data if the minimum reaches it, else the first end behind the minimum at which the weighted sum of the window is divisible, but no further than the maximum or the data; the window starts 64 bytes before the minimum, inside the chunk |
| Chunking.BoundaryRange | internal/delta/fastcdc.go:62-105 | every chunk is within its bounds; one that does not end the data exceeds the minimum; it is empty exactly when the maximum is zero and the minimum does not cover the rest |
| Chunking.BoundaryMoves | internal/delta/fastcdc.go:62-105 | a boundary depends only on the bytes from the chunk's start on, wherever they lie, if both starts or neither lie 64 - MinSize bytes into the file, or no bytes of that length can turn the cut test |
| Locality.BothPassAgree | internal/delta/fastcdc.go:75-102 | once the cut test passes with and without the leading bytes in the window, they never matter again |
| Locality.LocalExactly | internal/delta/fastcdc.go:62-105 | for any table, sizes and two chunk starts: the boundaries agree on all inputs with a common suffix there if and only if the starts are local |
| Locality.WordFor | internal/delta/fastcdc.go:25-32 | under the generated table, words of k bytes reach every hash modulo 2^(k+1) |
| Locality.ConflictExactly | internal/delta/fastcdc.go:25-121 | under the generated table, and unless the tested bits outnumber the bytes of the largest chunk, leading bytes can turn the test exactly when MinSize > 0, MinSize + 1 < MaxSize and at least two bits are tested |
| Locality.LocalExactlyForTable | internal/delta/fastcdc.go:25-121 | locality as an if-and-only-if on MinSize, MaxSize, the tested bits and the side of the first 64 bytes |
| Locality.UsualSizes | internal/delta/fastcdc.go:108-121 | an average no larger than the maximum keeps the tested bits below the largest chunk |
| Chunking.BoundaryInPrefix | internal/delta/fastcdc.go:62-105 | inputs with a common prefix have the same boundary wherever the largest chunk lies within it |
| Chunking.CutDependsOnLastBytes | internal/delta/fastcdc.go:89-102 | the cut test looks at the last CutBits bytes only, as a divisibility of their weighted sum |
| Splitting.Split | internal/delta/fastcdc.go:35-59 | the chunks follow one another from the start of the data to its end, each from its offset to the next boundary, with the length and hash of what lies between |
| Splitting.SplitStopsExactly | internal/delta/fastcdc.go:43-56 | the loop reaches the end of the data if and only if MaxSize is not zero or MinSize covers the data; otherwise it never leaves the start |
| Splitting.PiecesTile | internal/delta/fastcdc.go:35-59 | the chunks are contiguous, non-empty, make up the data, and respect the size limits |
| Splitting.DescribedAt | internal/delta/fastcdc.go:44-55 | each chunk records the offset, length and hash of its own piece |
| Splitting.PiecesMove | internal/delta/fastcdc.go:35-105 | two inputs with the same bytes behind two offsets have the same chunks from there on, as long as the chunk starts are local to each other |
| Splitting.Resynchronises | internal/delta/fastcdc.go:35-105 | once two inputs have a boundary at the same point of a common suffix, all their later chunks agree, if the two points coincide, or both lie 64 - MinSize bytes into the file, or leading bytes cannot turn the test |
| Splitting.CommonPieces | internal/delta/fastcdc.go:35-105 | inputs with a common prefix have the same chunks as long as the largest chunk stays inside it |
| Splitting.ShortMinimumIsNotLocal | internal/delta/fastcdc.go:75-84 | with MinSize 1 the same bytes are cut differently at the start of a file and behind 64 other bytes |
| Splitting.BuildSyncPlan | internal/delta/fastcdc.go:124-144 | the missing chunks are, in order, exactly those whose hash was not advertised; missing and reused add up to the total |
| Splitting.ReceiverAssembles | internal/delta/fastcdc.go:124-144 | a receiver that has the advertised chunks and adds the missing ones can assemble all of them in order |
| Splitting.SyncRestoresData | internal/delta/fastcdc.go:35-144 | splitting, advertising, sending what is missing and assembling give the data back |
| Delta.MatchAgrees | internal/delta/delta.go:108-134 | a match has its window's hash and agrees with the target behind the window, byte for byte |
| Delta.MatchIsLongest | internal/delta/delta.go:108-134 | at every target position: nothing is found only where no window of the base has the hash of the target's window, and otherwise the first of the longest matches |
| Delta.RawOpsRebuild | internal/delta/delta.go:25-88 | the operations always apply; they give as many bytes as the target has exactly when every match fits its 32-bit length, and the target exactly when also every copied window agrees |
| Delta.CopyOutcome | internal/delta/delta.go:74-80 | a copy gives the bytes if they lie in the base, fails if they do not, and panics if its end wraps into the base |
| Delta.DeltaRebuilds | internal/delta/delta.go:25-88 | the same after merging insertions, for all inputs: applying the delta gives the target if and only if no copied window was a mere hash collision and no copied length wraps |
| Delta.DeltaCovers | internal/delta/delta.go:25-67 | unless a match is too long for its field, the operations stand for the target stretch by stretch: a copy of the first longest match wherever one starts, and insertions of exactly the bytes in between |
| Delta.DeltaIsMerged | internal/delta/delta.go:144-166 | no two insertions of a delta are neighbours, and no copy is empty unless it is the only operation |
| Delta.LongMatchIsLost | internal/delta/delta.go:47-54 | a file of 2^32 bytes or more cannot be patched to itself: its match does not fit its length field |
| Delta.ShortMatchesFit | internal/delta/delta.go:47-54 | below 2^32 bytes of base or target every match fits |
| Delta.NoCollisionIsFaithful | internal/delta/delta.go:108-142 | if no two different 16-byte windows of base and target share a hash, no copied window is wrong |
| Delta.CollisionCorrupts | internal/delta/delta.go:108-142 | a concrete base and target whose delta rebuilds something else |
| DeltaEncoder.BuildHashIndex | internal/delta/delta.go:95-106 | the index lists, per hash, exactly the windows of the data with that hash, in order |
| DeltaEncoder.FindBestMatch | internal/delta/delta.go:108-134 | the first longest match among the indexed candidates |
| DeltaEncoder.CompactOps | internal/delta/delta.go:144-166 | merging appends into the target's own array, and yet changes none of its bytes unless a copy with wrapped length zero stood between insertions; it always keeps the total length |
| DeltaEncoder.ComputeDelta | internal/delta/delta.go:25-67 | if every match fits, the target is unchanged and the operations, read through the slices they hold, are the delta; otherwise their total length is below the target's |
| DeltaEncoder.AppliedLength | internal/delta/delta.go:70-88 | applying operations gives their total length |
| DeltaWire.DecodeEncoded | internal/delta/delta.go:169-235 | decoding an encoding returns the same operations |
| DeltaWire.EncodeDecoded | internal/delta/delta.go:169-235 | re-encoding any accepted bytes returns those bytes |
| DeltaWire.OpLayout | internal/delta/delta.go:169-187 | where type, offset, length and data of an operation lie |
| Codec.DigitAt | internal/delta/delta.go:169-187 | integers are written most significant byte first |
| DeltaWire.EncodeDelta | internal/delta/delta.go:169-187 | the loop writes the byte form |
| DeltaWire.DecodeDelta | internal/delta/delta.go:190-235 | the loop accepts and reads exactly the byte form, with the same errors |
| DeltaWire.ApplyDelta | internal/delta/delta.go:70-88 | applies copies and insertions in order, with the source's bounds check and its panic on wrapped ranges |
| DeltaWire.DeltaInRange | internal/delta/delta.go:25-67 | for inputs below 2^32 bytes every operation fits its wire fields |
| DeltaWire.PatchRestores | internal/delta/patch.go:5-12 | for targets below 2^32 bytes, patching the base with the encoded delta gives the target if and only if no copied window was a collision; it never fails |
| DeltaWire.PatchMultiple | internal/delta/patch.go:15-25 | the loop applies the deltas in turn and stops at the first failure |
| DeltaWire.ChainReachesLast | internal/delta/patch.go:15-25 | a chain of such deltas reaches the last target |
| ObjectFormat.NumberOfDigits | internal/object/object.go:81-87 | printing a number and reading it back gives the number |
| ObjectFormat.HeaderRoundTrip | internal/object/object.go:59-87 | the header of a formatted object gives back type, size and the place of its content, whatever bytes the content has |
| ObjectFormat.HeaderExactly | internal/object/object.go:59-78 | a header is accepted exactly if it is a type name, a space, decimal digits and a zero byte |
| ObjectFormat.HeaderText | internal/object/object.go:81-87 | the text of a header, by example |
| ObjectFormat.FormatInjective | internal/object/object.go:81-87 | different objects have different serialized bytes |
| TreeFormat.EntryRoundTrip | internal/object/tree.go:34-102 | a tree entry is read back whatever follows it |
| TreeFormat.EntryExactly | internal/object/tree.go:52-102 | an entry is read exactly where an octal mode, a space, a name, a zero byte and a hash stand, whatever follows |
| TreeFormat.EntriesInjective | internal/object/tree.go:34-102 | different entry lists have different bytes |
| TreeFormat.ModesInText | internal/object/tree.go:12-48 | the four modes are written 100644, 100755, 120000 and 40000 |
| TreeFormat.EntryLayout | internal/object/tree.go:34-48 | where mode, name and hash of an entry lie |
| TreeFormat.SerializeTree | internal/object/tree.go:34-48 | writes a name-sorted permutation of the entries; entries in order under distinct names are written as they are |
| TreeFormat.ParseTree | internal/object/tree.go:52-102 | the loop reads exactly the entry list the bytes encode, or fails |
| DirTree.SameHashSameNode | internal/object/tree.go:106-187 | equal hashes of stored nodes mean equal nodes, all the way down |
| TreePaths.VisibleLookup | internal/object/tree.go:112-187 | path by path: what is stored of a directory has a file, link or directory exactly where the directory has it, unless a component on the way is `.msync` or ignored, or it is a device |
| TreePaths.SamePathsSame | internal/object/tree.go:106-187 | two directories with the same things at the same paths are equal |
| TreeStore.ObjectStore.Write | internal/object/object.go:97-140 | files the data under its hash unless something is there; among objects that do not collide it can then be found |
| TreeStore.ReadsBack | internal/object/object.go:163-195 | a stored object passes the hash, type and size checks and gives back its content |
| TreeStore.ReadsExactly | internal/object/object.go:143-195 | content is read exactly from bytes that have the hash they are filed under and a header of the wanted type whose size is the content's |
| TreeStore.ObjectStore.BuildTree | internal/object/tree.go:106-187 | returns the hash of the visible directory's tree object and has stored every object of it, so the content of every file and link that no ignored or `.msync` component hides; nothing stored before changes |
| TreeCheckout.CheckoutTree | internal/object/tree.go:190-292 | computes the directory the tree stands for, cleaning included |
| TreeCheckout.CleanedExactly | internal/object/tree.go:251-292 | cleaning removes exactly the names the tree does not have, `.msync` excepted |
| TreeCheckout.CheckoutRestores | internal/object/tree.go:190-292 | a stored directory is checked out as it was: names, contents, exec bits and links |
| TreeCheckout.ModesExactly | internal/object/tree.go:15-22 | which mode number stands for which kind of node when building and checking out |
| TreeCheckout.BuildAndCheckout | internal/object/tree.go:106-292 | building a directory and checking its root out gives at every path the file with content and exec bit, link or directory that is there, unless a component on the way is `.msync` or ignored, and nothing else |
| TreeCheckout.SameRootSameContents | internal/object/tree.go:106-187 | two directories get the same root hash if and only if at every path they show the same file, link or directory, or both nothing |
| PackFormat.EntryRoundTrip | internal/object/pack.go:111-117 | a table entry is read back from its 45 bytes |
| PackFormat.EntryLayout | internal/object/pack.go:111-117 | where hash, type, offset and lengths of a table entry lie |
| PackFormat.FileLayout | internal/object/pack.go:101-148 | a pack says MPAK, version 1 and its number of entries, holds table and body, and ends in the checksum of the table |
| PackFormat.OpenPack | internal/object/pack.go:158-243 | accepts exactly files with magic, version and a whole table, and reads each entry from its own place |
| PackFormat.OpenableExactly | internal/object/pack.go:158-243 | a file opens exactly if it is MPAK, version 1, a number, that many entries' bytes and anything behind |
| PackFormat.OpenedLayout | internal/object/pack.go:205-243 | the entries of an opened file are those its table spells out |
| PackFormat.OpensWritten | internal/object/pack.go:101-243 | opening a written pack gives back its table and the start of its body |
| PackFile.PackWriter.AddObject | internal/object/pack.go:70-98 | refuses unreadable headers and failed compression; otherwise the entry describes the object's own range of the body |
| PackFile.EntryDescribes | internal/object/pack.go:70-98 | the entry of a formatted object has its hash, its type number and the size of its content |
| PackFile.PackWriter.Close | internal/object/pack.go:101-148 | the file is header with count, hash-sorted permutation of the entries, body and checksum |
| PackFile.BodySplit | internal/object/pack.go:82-96 | the entries tile the body: each object's compressed bytes lie at its recorded start |
| PackFile.EntryReadsExactly | internal/object/pack.go:246-283 | at any size, an object reads back through its entry exactly if the bytes at its start and length modulo 2^32 decompress to it |
| PackLimits.WrappedOffsetLoses | internal/object/pack.go:85-95 | a concrete pack whose first object takes 2^32 bytes, and whose second cannot be read back |
| PackFile.ReadObject | internal/object/pack.go:246-283 | whatever the file, returned bytes have the hash asked for; on a sorted table binary search finds what a linear scan finds |
| PackFile.WrittenIsRead | internal/object/pack.go:70-283 | scanning a written pack for any hash gives exactly the bytes added under it, or nothing |
| PackFile.WriteThenRead | internal/object/pack.go:70-283 | objects added in any order, with repeats and rejects, are read back exactly after closing and opening |
| PackFile.UnpackObjects | internal/object/pack.go:305-325 | whatever the file, the store only gains objects under their own hashes; a sorted pack unpacks exactly when all its objects are readable, and then all of them are stored and nothing else |
| PackFile.WriteThenUnpack | internal/object/pack.go:70-325 | a written pack carries its objects into another store, each under its hash, without touching what is there |
| Postings.CountTerms | internal/search/index.go:113-123 | one pass finds each term of a document with its frequency and its positions |
| Postings.OccurrencesAre | internal/search/index.go:113-123 | the positions of a term are, in ascending order, exactly the places where the document has it |
| Postings.IntersectPostings | internal/search/index.go:195-226 | for every map order: exactly the documents in all lists, each once, with the summed frequency |
| Postings.SortResults | internal/search/index.go:229-239 | the in-place selection sort gives a permutation in descending order of score |
| SearchSpec.CombinedOf | internal/search/index.go:142-226 | intersecting the lists of all query terms finds a document exactly when it contains them all, with their total count |
| SearchSpec.IndexableExactly | internal/search/index.go:256-270 | a path is indexed exactly if it ends in one of the extensions |
| SearchSpec.LowerExactly | internal/search/index.go:272-283 | lowering gives the one string without ASCII capitals that agrees with the given one up to case |
| SearchSpec.CaseIsIgnored | internal/search/index.go:149-153 | case-insensitive queries whose terms agree up to case have the same answers |
| SearchSpec.AnswersMean | internal/search/index.go:142-192 | the answers are documents that have, for every term, the token asked for: the term itself, or without case sensitivity the one without capitals that agrees with it; the score is the number of places where they are found |
| SearchSpec.HitsAreMatches | internal/search/index.go:167-182 | the scored intersection is a permutation of the matching documents with their scores |
| SearchSpec.KeptAreBest | internal/search/index.go:184-191 | a matching document cut off by MaxResults never scores higher than one that was kept, and the cut has the right length |
| SearchIndex.Index.Update | internal/search/index.go:80-139 | after any earlier state the documents are those of exactly the indexable, readable files the walk visits, each once and in order |
| SearchIndex.Index.Search | internal/search/index.go:142-192 | every result is the path of a document that has every token asked for, with the number of places in 32 bits; every such document is a result unless the results are full with none scoring lower; best first, cut to MaxResults |

## Left out

- LocalRepository.LocalRepo.Push: the server's answers are a parameter.
- LocalRepository.LocalRepo.Commit: messages, authors and timestamps are one string, because the text form of commits is not modelled.
- LocalRepository.Session: runs of staging, unstaging, commits and pushes, with fewer than 2^64 commands where sequence numbers matter; a fetch moves the tracking ref without storing objects, so it is modelled in the session part only.
- Gc.Repository.Collect: the number of recovered bytes is not counted, and file removals are taken to succeed.
- TreeCheckout.CheckoutTree: descends at most a given number of levels, because a store with hash collisions may hold a cyclic tree; names out of order or repeated are an error, the source overwrites.
- TreeCheckout.BuildAndCheckout: flat names that contain a slash, as commits of the staging index produce, are outside the claim, because `cleanDir` compares one level of names.
- TreeFormat.ParseTree: header sizes and modes are read as plain digit strings, the source's scanning also accepts signs, leading spaces and trailing bytes.
- TreeFormat.EntryExactly: modes are plain octal digits; the source's scanning accepts more, as for `TreeFormat.ParseTree`.
- ObjectFormat.HeaderExactly: sizes are plain digit strings; the source's scanning also accepts a sign, further spaces and bytes behind the number.
- IndexFile.Load: the checksum is not verified by the source either, so it constrains nothing.
- PackFile.WriteThenRead: reads everything back when counts, starts and lengths fit 32 bits; beyond that `PackFile.EntryReadsExactly` says which objects are found, and `PackFile.ReadObject` never returns wrong bytes.
- PackFormat.OpenPack: the checksum is not verified by the source either.
- SearchIndex.Index.Search: claims nothing for more than 2^32 documents, whose numbers repeat; line, column and text of a result are never filled in by the source.
- SearchIndex.Index.Update: the tree walk is the list of files it visits, up to its end or its failure; the error it then returns is left out.
- Chunking.FindChunkBoundary: data and sizes below 2^62, so that offsets do not overflow a signed 64-bit length.
- Locality.ConflictExactly: where more bits are tested than the largest chunk has bytes, whether leading bytes can turn the test depends on single values of the table; `Locality.LocalExactly` covers that case in terms of the table.
- Splitting.Resynchronises: when both points lie before 64 - `MinSize` and differ, later chunks may or may not fall on different sides; `Splitting.PiecesMove` covers it chunk by chunk.
- Session.FetchSettles: payloads always decode and connections do not break; authentication and the search request's content are not modelled.
- Hunks.BuildHunks: the start and count a hunk gives for the new file are not modelled, because the source counts context lines there twice; the context length is taken to be non-negative, and printing is left out.
- Merging (`ThreeWay`, `applyEdits`): unfinished in the source, it skips inserted content.
- Reading and saving ignore files, and the matcher's own `Add`, `Remove` and `List`: only easy members.
- SHA-256, zstd and CRC-32 themselves, tokenizing, Unicode: function parameters.
- Commands, configuration, sockets, TLS, temporary files and renames: plumbing around the modelled steps.
- Pack index files, tags and the text of commits.
- DeltaEncoder.CompactOps: with a wrapped copy length the target's bytes may change and only the length of the result is stated.
- StoredGraph.DirReachSet: the text of commits and tags is read by a function parameter.
