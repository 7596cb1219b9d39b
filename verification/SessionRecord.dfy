/** What the two sides of a session have been told by its end, message by message. */
module SessionRecord {
  import opened Common
  import opened Codec
  import opened Session
  import G = ObjectGraph
  import Marking
  import P = Pushing

  /** The messages the server takes along a run, in order. */
  ghost function ServerTook(st: State, run: seq<Action>, cap: nat): seq<Msg>
    requires Possible(st, run, cap)
    decreases |run|
  {
    if run == [] then []
    else (if run[0].ServerTakes? then [st.up[0]] else []) + ServerTook(Step(st, run[0], cap), run[1..], cap)
  }

  ghost function ClientTook(st: State, run: seq<Action>, cap: nat): seq<Msg>
    requires Possible(st, run, cap)
    decreases |run|
  {
    if run == [] then []
    else (if run[0].ClientTakes? then [st.down[0]] else []) + ClientTook(Step(st, run[0], cap), run[1..], cap)
  }

  // ---------------------------------------------------------------------------------------------
  // What is still to be taken
  // ---------------------------------------------------------------------------------------------

  /** The advertised HEADs, in order. */
  ghost function Heads(refs: seq<Ref>): seq<Hash>
    decreases |refs|
  {
    if refs == [] then []
    else (if refs[0].name == "HEAD" then [refs[0].hash] else []) + Heads(refs[1..])
  }

  /** One request for each HEAD that differs from what was known before it: the HEAD wanted, and what is
      had, zero if nothing. What is known before a later HEAD is the HEAD before it. */
  ghost function Asks(known: Option<Hash>, heads: seq<Hash>): seq<Msg>
    decreases |heads|
  {
    if heads == [] then []
    else
      (if known == Some(heads[0]) then []
       else [FetchRequest, Wanted(heads[0]), Have(if known.Some? then known.value else ZERO), FetchDone]) +
      Asks(Some(heads[0]), heads[1..])
  }

  /** An empty pack in answer to each request. */
  ghost function Answers(known: Option<Hash>, heads: seq<Hash>): seq<Msg>
    decreases |heads|
  {
    if heads == [] then []
    else
      (if known == Some(heads[0]) then [] else [PackHeader(0), StreamEnd]) + Answers(Some(heads[0]), heads[1..])
  }

  /** What the server will yet take. */
  ghost function ServerOwed(st: State): seq<Msg> {
    Upward(st) +
    match st.client.mode
    case AwaitRefs(_) => Asks(st.client.tracking, Heads(st.server.refs))
    case AwaitPack(want, rest) => Asks(Some(want), Heads(rest))
    case AwaitPushReply => PackMessages(st.client.header, st.client.pack)
    case AwaitAck => []
    case Finished => []
  }

  /** What the client will yet take; first comes the answer to what the server has not taken yet. */
  ghost function ClientOwed(st: State): seq<Msg> {
    var now := Downward(st);
    match st.client.mode
    case AwaitRefs(_) =>
      (if Upward(st) == [] then now else RefMessages(st.server.refs) + [StreamEnd]) +
      Answers(st.client.tracking, Heads(st.server.refs))
    case AwaitPack(want, rest) =>
      (if Upward(st) == [] then now else [PackHeader(0), StreamEnd]) + Answers(Some(want), Heads(rest))
    case AwaitPushReply => (if Upward(st) == [] then now else [WantPack]) + [Okay]
    case AwaitAck => if Upward(st) == [] then now else [Okay]
    case Finished => now
  }

  ghost predicate Owes(st: State, a: Action, cap: nat)
    requires Enabled(st, a, cap)
  {
    var st' := Step(st, a, cap);
    ServerOwed(st) == (if a.ServerTakes? then [st.up[0]] else []) + ServerOwed(st') &&
    ClientOwed(st) == (if a.ClientTakes? then [st.down[0]] else []) + ClientOwed(st')
  }

  lemma {:induction false} NextRefAsks(c: Client, refs: seq<Ref>)
    requires c.outbox == []
    ensures var c' := NextRef(c, refs);
            c'.header == c.header && c'.pack == c.pack &&
            match c'.mode
            case Finished =>
              c'.outbox == [] && Asks(c.tracking, Heads(refs)) == [] && Answers(c.tracking, Heads(refs)) == []
            case AwaitPack(want, rest) =>
              c'.outbox != [] && Asks(c.tracking, Heads(refs)) == c'.outbox + Asks(Some(want), Heads(rest)) &&
              Answers(c.tracking, Heads(refs)) == [PackHeader(0), StreamEnd] + Answers(Some(want), Heads(rest))
            case AwaitRefs(_) => false
            case AwaitPushReply => false
            case AwaitAck => false
    decreases |refs|
  {
    if refs != [] {
      hide Heads, Asks, Answers;
      HeadsStep(c.tracking, refs);
      if refs[0].name != "HEAD" || c.tracking == Some(refs[0].hash) {
        NextRefAsks(c, refs[1..]);
      }
    } else {
      assert Heads(refs) == [];
    }
  }

  lemma HeadsStep(known: Option<Hash>, refs: seq<Ref>)
    requires refs != []
    ensures var h, hs, rest := refs[0].hash, Heads(refs), Heads(refs[1..]);
            if refs[0].name != "HEAD" then hs == rest
            else if known == Some(h) then
              Asks(known, hs) == Asks(known, rest) && Answers(known, hs) == Answers(known, rest)
            else
              Asks(known, hs) == [FetchRequest, Wanted(h), Have(if known.Some? then known.value else ZERO), FetchDone] +
                                 Asks(Some(h), rest) &&
              Answers(known, hs) == [PackHeader(0), StreamEnd] + Answers(Some(h), rest)
  {
    var hs, rest := Heads(refs), Heads(refs[1..]);
    if refs[0].name == "HEAD" {
      assert hs[0] == refs[0].hash && hs[1..] == rest;
      NothingBefore(Asks(Some(refs[0].hash), rest));
      NothingBefore(Answers(Some(refs[0].hash), rest));
    }
  }

  lemma SendOwes(st: State, a: Action, cap: nat, goal: Option<Hash>)
    requires Enabled(st, a, cap) && OnTrack(st, goal) && (a.ClientSends? || a.ServerSends?)
    ensures Owes(st, a, cap)
  {
    hide Asks, Answers, Heads, OnTrack, RefMessages, PackMessages;
    SendKeeps(st, a, cap, goal);
    assert [] + ServerOwed(st) == ServerOwed(st) && [] + ClientOwed(st) == ClientOwed(st);
  }

  lemma Regroup(x: seq<Msg>, y: seq<Msg>, z: seq<Msg>)
    ensures x + (y + z) == x + y + z
  {
  }

  lemma NothingBefore(x: seq<Msg>)
    ensures [] + x == x && x + [] == x
  {
  }

  /** A message is taken off the front of what is under way. */
  lemma FrontTaken(whole: seq<Msg>, rest: seq<Msg>)
    requires whole != []
    ensures whole + rest == [whole[0]] + (whole[1..] + rest)
  {
  }

  lemma ClientOwesRef(st: State, cap: nat, goal: Option<Hash>)
    requires Enabled(st, ClientTakes, cap) && OnTrack(st, goal) && st.client.mode.AwaitRefs?
    ensures Owes(st, ClientTakes, cap)
  {
    hide Asks, Answers, Heads, PackTail, FetchTail, Followed, RefMessages, NextRef, PackMessages;
    var c, s, got := st.client, st.server, st.client.mode.got;
    var st' := Step(st, ClientTakes, cap);
    TakenDown(st);
    PopRefs(s.refs, |got|);
    assert Upward(st) == [];
    assert Downward(st') == Downward(st)[1..];
    assert Upward(st') == st'.client.outbox;
    FrontTaken(Downward(st), Answers(c.tracking, Heads(s.refs)));
    if |got| == |s.refs| {
      assert got == s.refs;
      NextRefAsks(c, got);
      assert RefMessages(s.refs[|got|..]) == [];
      assert Downward(st) == [StreamEnd];
    }
  }

  lemma ClientOwesPack(st: State, cap: nat, goal: Option<Hash>)
    requires Enabled(st, ClientTakes, cap) && OnTrack(st, goal) && st.client.mode.AwaitPack?
    ensures Owes(st, ClientTakes, cap)
  {
    hide Asks, Answers, Heads, FetchTail, Followed, RefMessages, NextRef, PackMessages;
    var c := st.client;
    var st' := Step(st, ClientTakes, cap);
    TakenDown(st);
    PopPack(Downward(st));
    hide PackTail;
    assert Upward(st) == [];
    assert Downward(st') == Downward(st)[1..];
    assert Upward(st') == st'.client.outbox;
    FrontTaken(Downward(st), Answers(Some(c.mode.want), Heads(c.mode.rest)));
    NextRefAsks(c.(tracking := Some(c.mode.want)), c.mode.rest);
  }

  lemma ClientOwesReply(st: State, cap: nat, goal: Option<Hash>)
    requires Enabled(st, ClientTakes, cap) && OnTrack(st, goal)
    requires st.client.mode.AwaitPushReply? || st.client.mode.AwaitAck?
    ensures Owes(st, ClientTakes, cap)
  {
    hide Asks, Answers, Heads, PackTail, FetchTail, Followed, RefMessages, NextRef;
    var c := st.client;
    var st' := Step(st, ClientTakes, cap);
    TakenDown(st);
    assert Upward(st) == [];
    assert Downward(st') == Downward(st)[1..];
    assert Upward(st') == st'.client.outbox;
    assert PackMessages(c.header, c.pack) != [];
  }

  /** The one message a client that awaits refs may have under way. */
  lemma RefsAsked(st: State, cap: nat, goal: Option<Hash>)
    requires Enabled(st, ServerTakes, cap) && OnTrack(st, goal) && st.client.mode.AwaitRefs?
    ensures st.up == [ListRefs] && st.client.outbox == [] && st.down == [] && st.server.mode.Idle?
  {
    hide PackTail, FetchTail, Followed, RefMessages;
    assert Upward(st) != [];
    assert st.up[0] == Upward(st)[0] && |st.up| <= |Upward(st)|;
    assert |Downward(st)| == 0;
  }

  lemma ServerOwesRefs(st: State, cap: nat, goal: Option<Hash>)
    requires Enabled(st, ServerTakes, cap) && OnTrack(st, goal) && st.client.mode.AwaitRefs?
    ensures Owes(st, ServerTakes, cap)
  {
    RefsAsked(st, cap, goal);
    hide OnTrack, Asks, Answers, Heads, RefMessages;
    var st' := Step(st, ServerTakes, cap);
    assert Upward(st) == [ListRefs] && Upward(st') == [];
    assert Downward(st') == RefMessages(st.server.refs) + [StreamEnd];
    NothingBefore(Asks(st.client.tracking, Heads(st.server.refs)));
    NothingBefore(ClientOwed(st'));
  }

  lemma ServerOwesFetch(st: State, cap: nat, goal: Option<Hash>)
    requires Enabled(st, ServerTakes, cap) && OnTrack(st, goal) && st.client.mode.AwaitPack?
    ensures Owes(st, ServerTakes, cap)
  {
    hide Asks, Answers, Heads, FetchTail, PackTail, Followed, RefMessages, NextRef, PackMessages;
    var st' := Step(st, ServerTakes, cap);
    TakenUp(st);
    if st.server.mode.InFetch? {
      PopFetch(Upward(st));
    }
    assert Upward(st') == Upward(st)[1..];
    FetchNotEmpty(Upward(st)[1..]);
    FrontTaken(Upward(st), Asks(Some(st.client.mode.want), Heads(st.client.mode.rest)));
  }

  lemma FetchNotEmpty(ms: seq<Msg>)
    ensures FetchTail(ms) ==> ms != []
  {
  }

  lemma ServerOwesPush(st: State, cap: nat, goal: Option<Hash>)
    requires Enabled(st, ServerTakes, cap) && OnTrack(st, goal)
    requires !st.client.mode.AwaitRefs? && !st.client.mode.AwaitPack?
    ensures Owes(st, ServerTakes, cap)
  {
    hide Asks, Answers, Heads, FetchTail, Followed, RefMessages, NextRef, PackMessages;
    var st' := Step(st, ServerTakes, cap);
    TakenUp(st);
    if st.server.mode.InPack? {
      PopPack(Upward(st));
    }
    hide PackTail;
    assert Upward(st') == Upward(st)[1..];
    FrontTaken(Upward(st), ServerOwed(st)[|Upward(st)|..]);
  }

  lemma StepOwes(st: State, a: Action, cap: nat, goal: Option<Hash>)
    requires Enabled(st, a, cap) && OnTrack(st, goal)
    ensures Owes(st, a, cap)
  {
    hide OnTrack, Owes;
    match a
    case ClientSends => SendOwes(st, a, cap, goal);
    case ServerSends => SendOwes(st, a, cap, goal);
    case ClientTakes =>
      match st.client.mode {
        case AwaitRefs(_) => ClientOwesRef(st, cap, goal);
        case AwaitPack(_, _) => ClientOwesPack(st, cap, goal);
        case _ => ClientOwesReply(st, cap, goal);
      }
    case ServerTakes =>
      match st.client.mode {
        case AwaitRefs(_) => ServerOwesRefs(st, cap, goal);
        case AwaitPack(_, _) => ServerOwesFetch(st, cap, goal);
        case _ => ServerOwesPush(st, cap, goal);
      }
  }

  lemma TakesSomething(st: State, a: Action, cap: nat)
    requires Enabled(st, a, cap)
    ensures a.ServerTakes? ==> st.up != []
    ensures a.ClientTakes? ==> st.down != []
  {
  }

  /** Along every run, what each side has taken and what it will yet take is what it was owed at first. */
  lemma {:induction false} RunOwes(st: State, run: seq<Action>, cap: nat, goal: Option<Hash>)
    requires OnTrack(st, goal) && Possible(st, run, cap)
    ensures ServerTook(st, run, cap) + ServerOwed(After(st, run, cap)) == ServerOwed(st)
    ensures ClientTook(st, run, cap) + ClientOwed(After(st, run, cap)) == ClientOwed(st)
    decreases |run|
  {
    hide OnTrack, Enabled, Step, ServerOwed, ClientOwed;
    if run == [] {
      NothingBefore(ServerOwed(st));
      NothingBefore(ClientOwed(st));
    } else {
      var st' := Step(st, run[0], cap);
      TakesSomething(st, run[0], cap);
      StepOwes(st, run[0], cap, goal);
      StepGoal(st, run[0], cap, goal);
      RunOwes(st', run[1..], cap, goal);
      var last := After(st', run[1..], cap);
      var up: seq<Msg> := if run[0].ServerTakes? then [st.up[0]] else [];
      var down: seq<Msg> := if run[0].ClientTakes? then [st.down[0]] else [];
      Regroup(up, ServerTook(st', run[1..], cap), ServerOwed(last));
      Regroup(down, ClientTook(st', run[1..], cap), ClientOwed(last));
    }
  }

  lemma NothingOwed(st: State)
    requires Done(st)
    ensures ServerOwed(st) == [] && ClientOwed(st) == []
  {
  }

  /** What both sides have taken by the end of a conversation on track. */
  lemma SettledRecord(st: State, run: seq<Action>, cap: nat, goal: Option<Hash>)
    requires OnTrack(st, goal) && Possible(st, run, cap)
    ensures ServerTook(st, run, cap) <= ServerOwed(st) && ClientTook(st, run, cap) <= ClientOwed(st)
    ensures Done(After(st, run, cap)) ==>
              ServerTook(st, run, cap) == ServerOwed(st) && ClientTook(st, run, cap) == ClientOwed(st)
  {
    hide OnTrack, Possible, Done, After, ServerOwed, ClientOwed, ServerTook, ClientTook;
    RunOwes(st, run, cap, goal);
    if Done(After(st, run, cap)) {
      NothingOwed(After(st, run, cap));
    }
  }

  // ---------------------------------------------------------------------------------------------
  // Whole sessions
  // ---------------------------------------------------------------------------------------------

  /** The server's record of a push: the request, the tracking ref or zero and the new commit, the
      announced count, the pack's objects in order, and the end of the stream. */
  ghost predicate PushTold(ms: seq<Msg>, tracking: Option<Hash>, header: nat, pack: seq<Hash>, newHash: Hash) {
    |ms| == |pack| + 4 && ms[0] == PushRequest &&
    ms[1] == UpdateRef(if tracking.Some? then tracking.value else ZERO, newHash) &&
    ms[2] == PackHeader(header) && ms[|pack| + 3] == StreamEnd &&
    forall i :: 0 <= i < |pack| ==> ms[i + 3] == PackObject(pack[i])
  }

  lemma PushOwes(tracking: Option<Hash>, header: nat, pack: seq<Hash>, newHash: Hash, refs: seq<Ref>)
    ensures var st := PushStart(tracking, header, pack, newHash, refs);
            OnTrack(st, Some(newHash)) && PushTold(ServerOwed(st), tracking, header, pack, newHash) &&
            ClientOwed(st) == [WantPack, Okay]
  {
    var st := PushStart(tracking, header, pack, newHash, refs);
    assert ServerOwed(st) == st.client.outbox + PackMessages(header, pack);
    assert ClientOwed(st) == [WantPack] + [Okay];
  }

  /** In every interleaving of a push the server is told exactly this, and the client that the pack is
      wanted and that it arrived. At any point before, each side has taken the beginning of it. */
  lemma PushRecord(tracking: Option<Hash>, header: nat, pack: seq<Hash>, newHash: Hash, refs: seq<Ref>,
                   run: seq<Action>, cap: nat)
    requires Possible(PushStart(tracking, header, pack, newHash, refs), run, cap)
    ensures var st := PushStart(tracking, header, pack, newHash, refs);
            exists ms :: PushTold(ms, tracking, header, pack, newHash) && ServerTook(st, run, cap) <= ms &&
                         ClientTook(st, run, cap) <= [WantPack, Okay] &&
                         (Done(After(st, run, cap)) ==>
                            ServerTook(st, run, cap) == ms && ClientTook(st, run, cap) == [WantPack, Okay])
  {
    hide Possible, After, Done, ServerTook, ClientTook, PushTold, ServerOwed, ClientOwed, OnTrack, PushStart;
    PushOwes(tracking, header, pack, newHash, refs);
    SettledRecord(PushStart(tracking, header, pack, newHash, refs), run, cap, Some(newHash));
  }

  /** In every interleaving of a fetch the client is told every ref in order and gets one empty pack per
      request, and the server is asked for each advertised HEAD that is news, with what is had then. */
  lemma FetchRecord(tracking: Option<Hash>, refs: seq<Ref>, run: seq<Action>, cap: nat)
    requires Possible(FetchStart(tracking, refs), run, cap)
    ensures var st := FetchStart(tracking, refs);
            var asked := [ListRefs] + Asks(tracking, Heads(refs));
            ServerTook(st, run, cap) <= asked && (Done(After(st, run, cap)) ==> ServerTook(st, run, cap) == asked)
    ensures var st := FetchStart(tracking, refs);
            exists ms: seq<Msg> ::
              |ms| == |refs| && (forall i :: 0 <= i < |refs| ==> ms[i] == RefLine(refs[i])) &&
              ClientTook(st, run, cap) <= ms + [StreamEnd] + Answers(tracking, Heads(refs)) &&
              (Done(After(st, run, cap)) ==>
                 ClientTook(st, run, cap) == ms + [StreamEnd] + Answers(tracking, Heads(refs)))
  {
    hide Possible, After, Done, ServerTook, ClientTook, Asks, Answers, Heads;
    var st := FetchStart(tracking, refs);
    assert OnTrack(st, Followed(tracking, refs));
    SettledRecord(st, run, cap, Followed(tracking, refs));
    var ms := RefMessages(refs);
    assert ClientOwed(st) == ms + [StreamEnd] + Answers(tracking, Heads(refs));
  }

  /** The hashes of the pack objects among the messages. */
  ghost function ObjectsTold(ms: seq<Msg>): set<Hash> {
    set m | m in ms && m.PackObject? :: m.h
  }

  /** A settled push of a computed pack: the server was told of exactly the stored objects that the new
      commit reaches and the old one does not, each once, and of the size of that difference. */
  lemma PushDelivers(store: G.Store, tracking: Option<Hash>, pack: P.Pack, newHash: Hash, refs: seq<Ref>,
                     run: seq<Action>, cap: nat)
    requires P.IsPackFor(store, if tracking.Some? then tracking.value else ZERO, newHash, pack)
    requires Possible(PushStart(tracking, pack.header, P.HashesOf(pack.objects), newHash, refs), run, cap)
    requires Done(After(PushStart(tracking, pack.header, P.HashesOf(pack.objects), newHash, refs), run, cap))
    ensures var old_ := if tracking.Some? then tracking.value else ZERO;
            var d := G.ReachSet(store, {newHash}) - Marking.Known(store, old_);
            var ms := ServerTook(PushStart(tracking, pack.header, P.HashesOf(pack.objects), newHash, refs), run, cap);
            |ms| == |d * store.Keys| + 4 && ms[2] == PackHeader(|d| % P32) && ObjectsTold(ms) == d * store.Keys
  {
    hide Possible, After, Done, ServerTook, ClientTook, P.IsPackFor, G.ReachSet, Marking.Known;
    var old_ := if tracking.Some? then tracking.value else ZERO;
    var hs := P.HashesOf(pack.objects);
    P.PackCarries(store, old_, newHash, pack);
    PushRecord(tracking, pack.header, hs, newHash, refs, run, cap);
    var ms := ServerTook(PushStart(tracking, pack.header, hs, newHash, refs), run, cap);
    ToldObjects(ms, tracking, pack.header, hs, newHash);
  }

  lemma ToldAt(ms: seq<Msg>, tracking: Option<Hash>, header: nat, pack: seq<Hash>, newHash: Hash, k: nat)
    requires PushTold(ms, tracking, header, pack, newHash) && k < |ms|
    ensures ms[k].PackObject? <==> 3 <= k < |pack| + 3
    ensures 3 <= k < |pack| + 3 ==> ms[k] == PackObject(pack[k - 3])
  {
    if 3 <= k < |pack| + 3 {
      var i := k - 3;
      assert ms[i + 3] == PackObject(pack[i]);
    } else if k < 3 {
      assert k == 0 || k == 1 || k == 2;
    } else {
      assert k == |pack| + 3;
    }
  }

  lemma ToldObjects(ms: seq<Msg>, tracking: Option<Hash>, header: nat, pack: seq<Hash>, newHash: Hash)
    requires PushTold(ms, tracking, header, pack, newHash)
    ensures ObjectsTold(ms) == P.Elements(pack)
  {
    assert |ms| == |pack| + 4;
    hide PushTold;
    forall h | h in pack
      ensures h in ObjectsTold(ms)
    {
      var i :| 0 <= i < |pack| && pack[i] == h;
      ToldAt(ms, tracking, header, pack, newHash, i + 3);
      assert ms[i + 3] in ms;
    }
    forall h | h in ObjectsTold(ms)
      ensures h in pack
    {
      var k :| 0 <= k < |ms| && ms[k] == PackObject(h);
      ToldAt(ms, tracking, header, pack, newHash, k);
      assert pack[k - 3] in pack;
    }
  }

  // ---------------------------------------------------------------------------------------------
  // A server that answers anything
  // ---------------------------------------------------------------------------------------------

  /** The client after taking the messages, its own sends going out in between. */
  ghost function Fed(c: Client, ms: seq<Msg>): Client {
    if ms == [] then c.(outbox := [])
    else ClientReceives(Fed(c, ms[..|ms| - 1]), ms[|ms| - 1]).(outbox := [])
  }

  /** Whatever a server answers, a push moves the tracking ref exactly if the pack was asked for first
      and acknowledged next. */
  lemma {:induction false} PushTrusts(tracking: Option<Hash>, header: nat, pack: seq<Hash>, newHash: Hash,
                                      ms: seq<Msg>)
    ensures var c := Fed(PushClient(tracking, header, pack, newHash), ms);
            c.tracking == (if |ms| >= 2 && ms[0].WantPack? && ms[1].Okay? then Some(newHash) else tracking) &&
            c.newHash == newHash &&
            (if ms == [] then c.mode.AwaitPushReply?
             else if |ms| == 1 && ms[0].WantPack? then c.mode.AwaitAck?
             else c.mode.Finished?)
  {
    if ms != [] {
      PushTrusts(tracking, header, pack, newHash, ms[..|ms| - 1]);
    }
  }

  /** The HEADs among the ref lines taken. */
  ghost function HeadsTold(ms: seq<Msg>): set<Hash> {
    set m | m in ms && m.RefLine? && m.r.name == "HEAD" :: m.r.hash
  }

  ghost predicate OnlyTold(refs: seq<Ref>, told: set<Hash>) {
    forall i :: 0 <= i < |refs| && refs[i].name == "HEAD" ==> refs[i].hash in told
  }

  /** The tracking ref is the old one or told, and so is what the client waits for. */
  ghost predicate TrackingTold(c: Client, tracking: Option<Hash>, told: set<Hash>) {
    (c.tracking == tracking || (c.tracking.Some? && c.tracking.value in told)) &&
    match c.mode
    case AwaitRefs(got) => OnlyTold(got, told)
    case AwaitPack(want, rest) => want in told && OnlyTold(rest, told)
    case Finished => true
    case AwaitPushReply => false
    case AwaitAck => false
  }

  lemma {:induction false} NextRefTold(c: Client, refs: seq<Ref>, tracking: Option<Hash>, told: set<Hash>)
    requires OnlyTold(refs, told) && (c.tracking == tracking || (c.tracking.Some? && c.tracking.value in told))
    ensures TrackingTold(NextRef(c, refs), tracking, told)
    decreases |refs|
  {
    if refs != [] && (refs[0].name != "HEAD" || c.tracking == Some(refs[0].hash)) {
      NextRefTold(c, refs[1..], tracking, told);
    }
  }

  /** Whatever a server answers, a fetch leaves the tracking ref as it was or at a HEAD the server told. */
  lemma {:induction false} FetchTrusts(tracking: Option<Hash>, ms: seq<Msg>)
    ensures TrackingTold(Fed(FetchClient(tracking), ms), tracking, HeadsTold(ms))
  {
    hide NextRef;
    if ms != [] {
      var init, m := ms[..|ms| - 1], ms[|ms| - 1];
      FetchTrusts(tracking, init);
      assert ms == init + [m];
      var c := Fed(FetchClient(tracking), init);
      assert HeadsTold(init) <= HeadsTold(ms);
      assert m.RefLine? && m.r.name == "HEAD" ==> m.r.hash in HeadsTold(ms);
      match c.mode {
        case AwaitRefs(got) =>
          NextRefTold(c, got, tracking, HeadsTold(ms));
        case AwaitPack(want, rest) =>
          NextRefTold(c.(tracking := Some(want)), rest, tracking, HeadsTold(ms));
        case _ =>
      }
    }
  }

  // ---------------------------------------------------------------------------------------------
  // A client that sends anything
  // ---------------------------------------------------------------------------------------------

  /** The server after taking the messages, its own sends going out in between. */
  ghost function Served(refs: seq<Ref>, ms: seq<Msg>): Server {
    if ms == [] then Server(Idle, [], refs)
    else ServerReceives(Served(refs, ms[..|ms| - 1]), ms[|ms| - 1]).(outbox := [])
  }

  /** What it sent. */
  ghost function Replies(refs: seq<Ref>, ms: seq<Msg>): seq<Msg> {
    if ms == [] then []
    else Replies(refs, ms[..|ms| - 1]) + ServerReceives(Served(refs, ms[..|ms| - 1]), ms[|ms| - 1]).outbox
  }

  /** Messages that end an answer. */
  predicate Final(m: Msg) { m.StreamEnd? || m.Okay? || m.Error? }

  ghost function Finals(ms: seq<Msg>): nat {
    if ms == [] then 0 else Finals(ms[..|ms| - 1]) + if Final(ms[|ms| - 1]) then 1 else 0
  }

  ghost function Errors(ms: seq<Msg>): nat {
    if ms == [] then 0 else Errors(ms[..|ms| - 1]) + if ms[|ms| - 1].Error? then 1 else 0
  }

  /** How many messages reached the main loop. */
  ghost function Requests(refs: seq<Ref>, ms: seq<Msg>): nat {
    if ms == [] then 0
    else Requests(refs, ms[..|ms| - 1]) + if Served(refs, ms[..|ms| - 1]).mode.Idle? then 1 else 0
  }

  /** How many messages came where they make no sense: no request in the main loop, or no update after
      a push request. */
  ghost function Blunders(refs: seq<Ref>, ms: seq<Msg>): nat {
    if ms == [] then 0
    else
      var before, m := Served(refs, ms[..|ms| - 1]).mode, ms[|ms| - 1];
      Blunders(refs, ms[..|ms| - 1]) +
      if (before.Idle? || before.InPush?) && !ServerExpects(before, m) then 1 else 0
  }

  lemma {:induction false} CountsAppend(x: seq<Msg>, y: seq<Msg>)
    ensures Finals(x + y) == Finals(x) + Finals(y) && Errors(x + y) == Errors(x) + Errors(y)
    decreases |y|
  {
    if y == [] {
      assert x + y == x;
    } else {
      assert (x + y)[..|x + y| - 1] == x + y[..|y| - 1];
      CountsAppend(x, y[..|y| - 1]);
    }
  }

  lemma {:induction false} RefsCount(refs: seq<Ref>)
    ensures Finals(RefMessages(refs)) == 0 && Errors(RefMessages(refs)) == 0
  {
    if refs != [] {
      RefsCount(refs[..|refs| - 1]);
      assert RefMessages(refs)[..|refs| - 1] == RefMessages(refs[..|refs| - 1]);
    }
  }

  lemma OneCount(m: Msg)
    ensures Finals([m]) == (if Final(m) then 1 else 0) && Errors([m]) == (if m.Error? then 1 else 0)
  {
    assert [m][..0] == [];
  }

  lemma AnswerCounts(refs: seq<Ref>)
    ensures Finals([]) == 0 && Errors([]) == 0
    ensures Finals([StreamEnd]) == 1 && Errors([StreamEnd]) == 0 && Finals([Okay]) == 1 && Errors([Okay]) == 0
    ensures Finals([Error]) == 1 && Errors([Error]) == 1 && Finals([WantPack]) == 0 && Errors([WantPack]) == 0
    ensures Finals([PackHeader(0), StreamEnd]) == 1 && Errors([PackHeader(0), StreamEnd]) == 0
    ensures Finals(RefMessages(refs) + [StreamEnd]) == 1 && Errors(RefMessages(refs) + [StreamEnd]) == 0
  {
    OneCount(StreamEnd);
    OneCount(PackHeader(0));
    OneCount(Error);
    OneCount(Okay);
    OneCount(WantPack);
    RefsCount(refs);
    assert Finals([]) == 0 && Errors([]) == 0;
    hide Finals, Errors, RefMessages;
    CountsAppend(RefMessages(refs), [StreamEnd]);
    CountsAppend([PackHeader(0)], [StreamEnd]);
    assert [PackHeader(0)] + [StreamEnd] == [PackHeader(0), StreamEnd];
  }

  lemma ReplyCounts(s: Server, m: Msg)
    requires s.outbox == []
    ensures var s' := ServerReceives(s, m);
            Finals(s'.outbox) + (if s'.mode.Idle? then 0 else 1) == 1 &&
            Errors(s'.outbox) == if (s.mode.Idle? || s.mode.InPush?) && !ServerExpects(s.mode, m) then 1 else 0
  {
    AnswerCounts(s.refs);
    hide Finals, Errors, RefMessages;
  }

  /** Whatever a client sends, the server gives one final answer to each message that reaches its main
      loop, the last one's perhaps still to come, and an error exactly where the message makes no sense. */
  lemma {:induction false} ServerAnswersEach(refs: seq<Ref>, ms: seq<Msg>)
    ensures Finals(Replies(refs, ms)) + (if Served(refs, ms).mode.Idle? then 0 else 1) == Requests(refs, ms)
    ensures Errors(Replies(refs, ms)) == Blunders(refs, ms)
    ensures Served(refs, ms).outbox == []
  {
    hide ServerReceives, ServerExpects;
    if ms != [] {
      var init, m := ms[..|ms| - 1], ms[|ms| - 1];
      ServerAnswersEach(refs, init);
      ReplyCounts(Served(refs, init), m);
      CountsAppend(Replies(refs, init), ServerReceives(Served(refs, init), m).outbox);
    }
  }
}
