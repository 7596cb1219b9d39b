/** A client that fetches or pushes and the server's connection loop, as a two-party step system
    over two FIFO channels of any positive capacity. */
module Session {
  import opened Common

  datatype Ref = Ref(name: string, hash: Hash)

  datatype Msg =
    | ListRefs | RefLine(r: Ref) | FetchRequest | Wanted(h: Hash) | Have(h: Hash) | FetchDone
    | PackHeader(count: nat) | PackObject(h: Hash) | PushRequest | UpdateRef(oldHash: Hash, newHash: Hash)
    | WantPack | Okay | Error | SearchReq | StreamEnd

  /** What each side does once its pending sends are out: wait for a message in some state of its code. */
  datatype ClientMode =
    | AwaitRefs(got: seq<Ref>)
    | AwaitPack(want: Hash, rest: seq<Ref>)
    | AwaitPushReply
    | AwaitAck
    | Finished

  datatype ServerMode = Idle | InFetch | InPush | InPack

  /** header, pack and newHash are what a push would send: the announced count, the objects and the
      commit; outbox holds sends not yet made, in order. */
  datatype Client = Client(
    mode: ClientMode, outbox: seq<Msg>, tracking: Option<Hash>, header: nat, pack: seq<Hash>, newHash: Hash)

  datatype Server = Server(mode: ServerMode, outbox: seq<Msg>, refs: seq<Ref>)

  datatype State = State(client: Client, server: Server, up: seq<Msg>, down: seq<Msg>)

  // ---------------------------------------------------------------------------------------------
  // The two programs
  // ---------------------------------------------------------------------------------------------

  function FetchClient(tracking: Option<Hash>): Client {
    Client(AwaitRefs([]), [ListRefs], tracking, 0, [], ZERO)
  }

  function PushClient(tracking: Option<Hash>, header: nat, pack: seq<Hash>, newHash: Hash): Client {
    Client(AwaitPushReply, [PushRequest, UpdateRef(if tracking.Some? then tracking.value else ZERO, newHash)],
           tracking, header, pack, newHash)
  }

  /** The loop over advertised refs, up to the next HEAD that differs from the tracking ref. */
  function NextRef(c: Client, refs: seq<Ref>): Client
    decreases |refs|
  {
    if refs == [] then c.(mode := Finished)
    else if refs[0].name != "HEAD" || c.tracking == Some(refs[0].hash) then NextRef(c, refs[1..])
    else
      var local := if c.tracking.Some? then c.tracking.value else ZERO;
      c.(mode := AwaitPack(refs[0].hash, refs[1..]),
         outbox := [FetchRequest, Wanted(refs[0].hash), Have(local), FetchDone])
  }

  function PackMessages(header: nat, pack: seq<Hash>): (ms: seq<Msg>)
    ensures |ms| == |pack| + 2
  {
    [PackHeader(header)] + seq(|pack|, i requires 0 <= i < |pack| => PackObject(pack[i])) + [StreamEnd]
  }

  function ClientReceives(c: Client, m: Msg): Client {
    match c.mode
    case AwaitRefs(got) =>
      if m.StreamEnd? then NextRef(c, got)
      else if m.RefLine? then c.(mode := AwaitRefs(got + [m.r]))
      else c
    case AwaitPack(want, rest) =>
      if m.StreamEnd? then NextRef(c.(tracking := Some(want)), rest) else c
    case AwaitPushReply =>
      if m.WantPack? then c.(mode := AwaitAck, outbox := PackMessages(c.header, c.pack)) else c.(mode := Finished)
    case AwaitAck =>
      if m.Okay? then c.(mode := Finished, tracking := Some(c.newHash)) else c.(mode := Finished)
    case Finished => c
  }

  function RefMessages(refs: seq<Ref>): (ms: seq<Msg>)
    ensures |ms| == |refs| && forall i :: 0 <= i < |ms| ==> ms[i] == RefLine(refs[i])
  {
    seq(|refs|, i requires 0 <= i < |refs| => RefLine(refs[i]))
  }

  function ServerReceives(s: Server, m: Msg): Server {
    match s.mode
    case Idle =>
      (match m
       case ListRefs => s.(outbox := RefMessages(s.refs) + [StreamEnd])
       case FetchRequest => s.(mode := InFetch)
       case PushRequest => s.(mode := InPush)
       case SearchReq => s.(outbox := [StreamEnd])
       case _ => s.(outbox := [Error]))
    case InFetch =>
      if m.FetchDone? then s.(mode := Idle, outbox := [PackHeader(0), StreamEnd]) else s
    case InPush =>
      if m.UpdateRef? then s.(mode := InPack, outbox := [WantPack]) else s.(mode := Idle, outbox := [Error])
    case InPack =>
      if m.StreamEnd? then s.(mode := Idle, outbox := [Okay]) else s
  }

  // ---------------------------------------------------------------------------------------------
  // Interleaved steps
  // ---------------------------------------------------------------------------------------------

  datatype Action = ClientSends | ClientTakes | ServerSends | ServerTakes

  /** A party sends while it has something to send and the channel has room; it receives only when
      all its sends are out. */
  predicate Enabled(st: State, a: Action, cap: nat) {
    match a
    case ClientSends => st.client.outbox != [] && |st.up| < cap
    case ClientTakes => st.client.outbox == [] && !st.client.mode.Finished? && st.down != []
    case ServerSends => st.server.outbox != [] && |st.down| < cap
    case ServerTakes => st.server.outbox == [] && st.up != []
  }

  function Step(st: State, a: Action, cap: nat): State
    requires Enabled(st, a, cap)
  {
    match a
    case ClientSends =>
      st.(client := st.client.(outbox := st.client.outbox[1..]), up := st.up + [st.client.outbox[0]])
    case ClientTakes => st.(client := ClientReceives(st.client, st.down[0]), down := st.down[1..])
    case ServerSends =>
      st.(server := st.server.(outbox := st.server.outbox[1..]), down := st.down + [st.server.outbox[0]])
    case ServerTakes => st.(server := ServerReceives(st.server, st.up[0]), up := st.up[1..])
  }

  /** The messages a state of the client's code is written for. */
  predicate ClientExpects(mode: ClientMode, m: Msg) {
    match mode
    case AwaitRefs(_) => m.RefLine? || m.StreamEnd?
    case AwaitPack(_, _) => m.PackHeader? || m.PackObject? || m.StreamEnd?
    case AwaitPushReply => m.WantPack? || m.Okay? || m.Error?
    case AwaitAck => m.Okay? || m.Error?
    case Finished => false
  }

  predicate ServerExpects(mode: ServerMode, m: Msg) {
    match mode
    case Idle => m.ListRefs? || m.FetchRequest? || m.PushRequest? || m.SearchReq?
    case InFetch => m.Wanted? || m.Have? || m.FetchDone?
    case InPush => m.UpdateRef?
    case InPack => m.PackHeader? || m.PackObject? || m.StreamEnd?
  }

  ghost predicate Done(st: State) {
    st.client.mode.Finished? && st.client.outbox == [] && st.server.mode.Idle? && st.server.outbox == [] &&
    st.up == [] && st.down == []
  }

  // ---------------------------------------------------------------------------------------------
  // The invariant: who is owed what
  // ---------------------------------------------------------------------------------------------

  /** Everything on its way to the server, sent or about to be. */
  function Upward(st: State): seq<Msg> { st.up + st.client.outbox }

  function Downward(st: State): seq<Msg> { st.down + st.server.outbox }

  /** The tracking ref after fetching every advertised HEAD in turn. */
  function Followed(tracking: Option<Hash>, refs: seq<Ref>): Option<Hash>
    decreases |refs|
  {
    if refs == [] then tracking
    else Followed(if refs[0].name == "HEAD" then Some(refs[0].hash) else tracking, refs[1..])
  }

  /** A suffix of the pack stream that still has its end. */
  ghost predicate PackTail(ms: seq<Msg>) {
    ms != [] && ms[|ms| - 1].StreamEnd? &&
    forall i :: 0 <= i < |ms| - 1 ==> ms[i].PackHeader? || ms[i].PackObject?
  }

  ghost predicate FetchTail(ms: seq<Msg>) {
    ms != [] && ms[|ms| - 1].FetchDone? && forall i :: 0 <= i < |ms| - 1 ==> ms[i].Wanted? || ms[i].Have?
  }

  /** The conversation is at some point of the protocol; goal is the tracking ref it will end with. */
  ghost predicate OnTrack(st: State, goal: Option<Hash>) {
    var c, s, up, down := st.client, st.server, Upward(st), Downward(st);
    match c.mode
    case AwaitRefs(got) =>
      s.mode.Idle? && goal == Followed(c.tracking, s.refs) &&
      ((up == [ListRefs] && down == [] && got == []) ||
       (up == [] && |got| <= |s.refs| && got == s.refs[..|got|] && down == RefMessages(s.refs[|got|..]) + [StreamEnd]))
    case AwaitPack(want, rest) =>
      goal == Followed(Some(want), rest) &&
      ((s.mode.Idle? && down == [] && up != [] && up[0].FetchRequest? && FetchTail(up[1..])) ||
       (s.mode.InFetch? && down == [] && FetchTail(up)) ||
       (s.mode.Idle? && up == [] && PackTail(down)))
    case AwaitPushReply =>
      goal == Some(c.newHash) &&
      ((s.mode.Idle? && down == [] && |up| == 2 && up[0].PushRequest? && up[1].UpdateRef?) ||
       (s.mode.InPush? && down == [] && |up| == 1 && up[0].UpdateRef?) ||
       (s.mode.InPack? && up == [] && down == [WantPack]))
    case AwaitAck =>
      goal == Some(c.newHash) &&
      ((s.mode.InPack? && down == [] && PackTail(up)) ||
       (s.mode.Idle? && up == [] && down == [Okay]))
    case Finished =>
      goal == c.tracking && s.mode.Idle? && up == [] && down == []
  }

  lemma {:induction false} NextRefGoal(c: Client, refs: seq<Ref>)
    requires c.outbox == []
    ensures var c' := NextRef(c, refs);
            c'.pack == c.pack && c'.newHash == c.newHash &&
            match c'.mode
            case Finished => c'.outbox == [] && c'.tracking == Followed(c.tracking, refs)
            case AwaitPack(want, rest) =>
              Followed(Some(want), rest) == Followed(c.tracking, refs) && |rest| < |refs| &&
              |c'.outbox| == 4 && c'.outbox[0].FetchRequest? && FetchTail(c'.outbox[1..])
            case AwaitRefs(_) => false
            case AwaitPushReply => false
            case AwaitAck => false
    decreases |refs|
  {
    if refs != [] && (refs[0].name != "HEAD" || c.tracking == Some(refs[0].hash)) {
      NextRefGoal(c, refs[1..]);
    }
  }

  // ---------------------------------------------------------------------------------------------
  // Every step keeps the conversation on track
  // ---------------------------------------------------------------------------------------------

  lemma SendKeeps(st: State, a: Action, cap: nat, goal: Option<Hash>)
    requires Enabled(st, a, cap) && OnTrack(st, goal) && (a.ClientSends? || a.ServerSends?)
    ensures OnTrack(Step(st, a, cap), goal)
    ensures Upward(Step(st, a, cap)) == Upward(st) && Downward(Step(st, a, cap)) == Downward(st)
  {
    hide PackTail, FetchTail, Followed, RefMessages, NextRef, PackMessages;
    var st' := Step(st, a, cap);
    assert Upward(st') == Upward(st);
    assert Downward(st') == Downward(st);
  }

  lemma PopPack(ms: seq<Msg>)
    requires PackTail(ms)
    ensures ms[0].StreamEnd? <==> |ms| == 1
    ensures ms[0].PackHeader? || ms[0].PackObject? || ms[0].StreamEnd?
    ensures |ms| > 1 ==> PackTail(ms[1..])
  {
  }

  lemma PopFetch(ms: seq<Msg>)
    requires FetchTail(ms)
    ensures ms[0].FetchDone? <==> |ms| == 1
    ensures ms[0].Wanted? || ms[0].Have? || ms[0].FetchDone?
    ensures |ms| > 1 ==> FetchTail(ms[1..])
  {
  }

  lemma PopRefs(refs: seq<Ref>, k: nat)
    requires k <= |refs|
    ensures var ms := RefMessages(refs[k..]) + [StreamEnd];
            ms[0].StreamEnd? <==> k == |refs|
    ensures k < |refs| ==>
              var ms := RefMessages(refs[k..]) + [StreamEnd];
              ms[0] == RefLine(refs[k]) && ms[1..] == RefMessages(refs[k + 1..]) + [StreamEnd] &&
              refs[..k] + [refs[k]] == refs[..k + 1]
  {
    if k < |refs| {
      assert (RefMessages(refs[k..]) + [StreamEnd])[1..] == RefMessages(refs[k + 1..]) + [StreamEnd];
    }
  }

  lemma PackIsTail(header: nat, pack: seq<Hash>)
    ensures PackTail(PackMessages(header, pack))
  {
  }

  // ---------------------------------------------------------------------------------------------
  // A measure: messages still to be sent count twice, messages on the way once
  // ---------------------------------------------------------------------------------------------

  /** Sends and receipts the conversation will still cause, beyond those already queued. */
  function Ahead(mode: ClientMode, n: nat, k: nat, answered: bool): nat {
    match mode
    case AwaitRefs(_) => 13 * n + (if answered then 0 else 2 * n + 2)
    case AwaitPack(_, rest) => 13 * |rest| + (if answered then 0 else 5)
    case AwaitPushReply => 2 * k + 6 + (if answered then 0 else 2)
    case AwaitAck => if answered then 0 else 2
    case Finished => 0
  }

  function Measure(st: State): nat {
    2 * |st.client.outbox| + 2 * |st.server.outbox| + |st.up| + |st.down| +
    Ahead(st.client.mode, |st.server.refs|, |st.client.pack|, Upward(st) == [])
  }

  lemma TakenDown(st: State)
    requires st.client.outbox == [] && st.down != []
    ensures Upward(st) == st.up
    ensures Downward(st) != [] && Downward(st)[0] == st.down[0]
    ensures Downward(st)[1..] == st.down[1..] + st.server.outbox
  {
  }

  lemma TakenUp(st: State)
    requires st.server.outbox == [] && st.up != []
    ensures Downward(st) == st.down
    ensures Upward(st) != [] && Upward(st)[0] == st.up[0]
    ensures Upward(st)[1..] == st.up[1..] + st.client.outbox
  {
  }

  /** What a step that takes a message must achieve. */
  ghost predicate TakeGoal(st: State, a: Action, cap: nat, goal: Option<Hash>)
    requires Enabled(st, a, cap)
  {
    OnTrack(Step(st, a, cap), goal) && Measure(Step(st, a, cap)) < Measure(st) &&
    (a.ClientTakes? ==> ClientExpects(st.client.mode, st.down[0])) &&
    (a.ServerTakes? ==> ServerExpects(st.server.mode, st.up[0]))
  }

  lemma ClientTakesRef(st: State, cap: nat, goal: Option<Hash>)
    requires Enabled(st, ClientTakes, cap) && OnTrack(st, goal) && st.client.mode.AwaitRefs?
    ensures TakeGoal(st, ClientTakes, cap, goal)
  {
    hide PackTail, FetchTail, Followed, RefMessages, NextRef, PackMessages;
    var c, s, got := st.client, st.server, st.client.mode.got;
    TakenDown(st);
    var st' := Step(st, ClientTakes, cap);
    assert Downward(st') == Downward(st)[1..];
    assert st.up == [] ==> Upward(st') == st'.client.outbox;
    PopRefs(s.refs, |got|);
    if |got| == |s.refs| {
      assert got == s.refs;
      NextRefGoal(c, got);
      assert RefMessages(s.refs[|got|..]) == [];
      assert st.down[1..] + s.outbox == [];
    }
  }

  lemma ClientTakesPack(st: State, cap: nat, goal: Option<Hash>)
    requires Enabled(st, ClientTakes, cap) && OnTrack(st, goal) && st.client.mode.AwaitPack?
    ensures TakeGoal(st, ClientTakes, cap, goal)
  {
    hide PackTail, FetchTail, Followed, RefMessages, NextRef, PackMessages;
    TakenDown(st);
    var st' := Step(st, ClientTakes, cap);
    assert Downward(st') == Downward(st)[1..];
    assert st.up == [] ==> Upward(st') == st'.client.outbox;
    PopPack(Downward(st));
    NextRefGoal(st.client.(tracking := Some(st.client.mode.want)), st.client.mode.rest);
  }

  lemma ClientTakesReply(st: State, cap: nat, goal: Option<Hash>)
    requires Enabled(st, ClientTakes, cap) && OnTrack(st, goal)
    requires st.client.mode.AwaitPushReply? || st.client.mode.AwaitAck?
    ensures TakeGoal(st, ClientTakes, cap, goal)
  {
    hide PackTail, FetchTail, Followed, RefMessages, NextRef, PackMessages;
    TakenDown(st);
    var st' := Step(st, ClientTakes, cap);
    assert Downward(st') == Downward(st)[1..];
    assert st.up == [] ==> Upward(st') == st'.client.outbox;
    PackIsTail(st.client.header, st.client.pack);
  }

  lemma ServerTakesFetch(st: State, cap: nat, goal: Option<Hash>)
    requires Enabled(st, ServerTakes, cap) && OnTrack(st, goal)
    requires st.client.mode.AwaitRefs? || st.client.mode.AwaitPack?
    ensures TakeGoal(st, ServerTakes, cap, goal)
  {
    hide FetchTail, Followed, RefMessages, NextRef, PackMessages;
    TakenUp(st);
    if st.server.mode.InFetch? {
      PopFetch(Upward(st));
    }
  }

  lemma ServerTakesPush(st: State, cap: nat, goal: Option<Hash>)
    requires Enabled(st, ServerTakes, cap) && OnTrack(st, goal)
    requires !st.client.mode.AwaitRefs? && !st.client.mode.AwaitPack?
    ensures TakeGoal(st, ServerTakes, cap, goal)
  {
    hide PackTail, FetchTail, Followed, RefMessages, NextRef, PackMessages;
    TakenUp(st);
    if st.server.mode.InPack? {
      PopPack(Upward(st));
    }
  }

  /** Every step of either side, in any interleaving, keeps the conversation on track, takes only a
      message its receiver is written for, and brings the end nearer. */
  lemma StepGoal(st: State, a: Action, cap: nat, goal: Option<Hash>)
    requires Enabled(st, a, cap) && OnTrack(st, goal)
    ensures TakeGoal(st, a, cap, goal)
  {
    hide OnTrack;
    match a
    case ClientSends => SendKeeps(st, a, cap, goal);
    case ServerSends => SendKeeps(st, a, cap, goal);
    case ClientTakes =>
      match st.client.mode {
        case AwaitRefs(_) => ClientTakesRef(st, cap, goal);
        case AwaitPack(_, _) => ClientTakesPack(st, cap, goal);
        case _ => ClientTakesReply(st, cap, goal);
      }
    case ServerTakes =>
      match st.client.mode {
        case AwaitRefs(_) => ServerTakesFetch(st, cap, goal);
        case AwaitPack(_, _) => ServerTakesFetch(st, cap, goal);
        case _ => ServerTakesPush(st, cap, goal);
      }
  }

  /** No deadlock: short of the end, some side can move. */
  lemma SomeoneMoves(st: State, cap: nat, goal: Option<Hash>)
    requires cap > 0 && OnTrack(st, goal) && (forall a :: !Enabled(st, a, cap))
    ensures Done(st) && st.client.tracking == goal
  {
    hide Followed, RefMessages, NextRef, PackMessages;
    assert !Enabled(st, ClientSends, cap) && !Enabled(st, ClientTakes, cap);
    assert !Enabled(st, ServerSends, cap) && !Enabled(st, ServerTakes, cap);
  }

  // ---------------------------------------------------------------------------------------------
  // Whole sessions
  // ---------------------------------------------------------------------------------------------

  predicate Possible(st: State, run: seq<Action>, cap: nat)
    decreases |run|
  {
    run == [] || (Enabled(st, run[0], cap) && Possible(Step(st, run[0], cap), run[1..], cap))
  }

  function After(st: State, run: seq<Action>, cap: nat): State
    requires Possible(st, run, cap)
    decreases |run|
  {
    if run == [] then st else After(Step(st, run[0], cap), run[1..], cap)
  }

  /** No side ever takes a message its code is not waiting for. */
  predicate Understood(st: State, run: seq<Action>, cap: nat)
    requires Possible(st, run, cap)
    decreases |run|
  {
    run == [] ||
    ((run[0].ClientTakes? ==> ClientExpects(st.client.mode, st.down[0])) &&
     (run[0].ServerTakes? ==> ServerExpects(st.server.mode, st.up[0])) &&
     Understood(Step(st, run[0], cap), run[1..], cap))
  }

  /** The run is no longer than the bound, every message was understood, and if nobody can move any
      more the client is finished with its tracking ref at the goal and the server is idle. */
  ghost predicate Settles(st: State, run: seq<Action>, cap: nat, bound: nat, goal: Option<Hash>)
    requires Possible(st, run, cap)
  {
    |run| <= bound && Understood(st, run, cap) &&
    var last := After(st, run, cap);
    ((forall a :: !Enabled(last, a, cap)) <==> Done(last)) && (Done(last) ==> last.client.tracking == goal)
  }

  lemma {:induction false} RunSettles(st: State, run: seq<Action>, cap: nat, goal: Option<Hash>)
    requires cap > 0 && OnTrack(st, goal) && Possible(st, run, cap)
    ensures Settles(st, run, cap, Measure(st), goal)
    decreases |run|
  {
    hide OnTrack, Measure, Enabled, Step;
    if run == [] {
      if Done(st) {
        DoneIsStill(st, cap, goal);
      }
      if forall a :: !Enabled(st, a, cap) {
        SomeoneMoves(st, cap, goal);
      }
    } else {
      StepGoal(st, run[0], cap, goal);
      RunSettles(Step(st, run[0], cap), run[1..], cap, goal);
    }
  }

  lemma DoneIsStill(st: State, cap: nat, goal: Option<Hash>)
    requires OnTrack(st, goal) && Done(st)
    ensures st.client.tracking == goal && forall a :: !Enabled(st, a, cap)
  {
  }

  function FetchStart(tracking: Option<Hash>, refs: seq<Ref>): State {
    State(FetchClient(tracking), Server(Idle, [], refs), [], [])
  }

  function PushStart(tracking: Option<Hash>, header: nat, pack: seq<Hash>, newHash: Hash, refs: seq<Ref>): State {
    State(PushClient(tracking, header, pack, newHash), Server(Idle, [], refs), [], [])
  }

  /** A fetch, for any advertised refs, channel capacity and interleaving: it ends, and the tracking
      ref follows the advertised HEADs. */
  lemma FetchSettles(tracking: Option<Hash>, refs: seq<Ref>, run: seq<Action>, cap: nat)
    requires cap > 0 && Possible(FetchStart(tracking, refs), run, cap)
    ensures Settles(FetchStart(tracking, refs), run, cap, 15 * |refs| + 4, Followed(tracking, refs))
  {
    hide Possible, After, Understood, Done;
    var st := FetchStart(tracking, refs);
    assert OnTrack(st, Followed(tracking, refs));
    assert Measure(st) == 15 * |refs| + 4;
    RunSettles(st, run, cap, Followed(tracking, refs));
  }

  /** A push, for any pack and announced count: it ends, and the tracking ref is the pushed commit. */
  lemma PushSettles(tracking: Option<Hash>, header: nat, pack: seq<Hash>, newHash: Hash, refs: seq<Ref>,
                    run: seq<Action>, cap: nat)
    requires cap > 0 && Possible(PushStart(tracking, header, pack, newHash, refs), run, cap)
    ensures Settles(PushStart(tracking, header, pack, newHash, refs), run, cap, 2 * |pack| + 12, Some(newHash))
  {
    hide Possible, After, Understood, Done;
    var st := PushStart(tracking, header, pack, newHash, refs);
    assert OnTrack(st, Some(newHash));
    assert Measure(st) == 2 * |pack| + 12;
    RunSettles(st, run, cap, Some(newHash));
  }

  ghost predicate LastHead(refs: seq<Ref>, i: int) {
    -1 <= i < |refs| && (i >= 0 ==> refs[i].name == "HEAD") && forall j :: i < j < |refs| ==> refs[j].name != "HEAD"
  }

  /** What a fetch leaves behind: the last HEAD advertised, or the old tracking ref if there was none. */
  lemma {:induction false} FollowedIsLastHead(tracking: Option<Hash>, refs: seq<Ref>, i: int)
    requires LastHead(refs, i)
    ensures Followed(tracking, refs) == if i >= 0 then Some(refs[i].hash) else tracking
    decreases |refs|
  {
    if refs != [] {
      var t := if refs[0].name == "HEAD" then Some(refs[0].hash) else tracking;
      var k := if i <= 0 then -1 else i - 1;
      assert forall j :: 0 <= j < |refs| - 1 ==> refs[1..][j] == refs[j + 1];
      FollowedIsLastHead(t, refs[1..], k);
    }
  }
}
