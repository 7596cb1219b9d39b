/** `Split`, what its chunks make up, and what two versions of a file share. */
module Splitting {
  import opened Common
  import opened Codec
  import opened GearHash
  import opened FastCdc
  import opened Chunking
  import opened Locality

  datatype Chunk = Chunk(offset: nat, length: nat, hash: Hash, data: Bytes)

  function Pieces(gear: seq<nat>, cfg: Config, data: Bytes, offset: nat): seq<Bytes>
    requires |gear| == 256 && Sized(cfg) && Addressable(data)
    requires offset <= |data| && Advances(cfg, |data| - offset)
    decreases |data| - offset
  {
    if offset == |data| then []
    else
      BoundaryRange(gear, cfg, data, offset);
      var end := Boundary(gear, cfg, data, offset);
      [data[offset..end]] + Pieces(gear, cfg, data, end)
  }

  ghost function Concat(pieces: seq<Bytes>): Bytes {
    if pieces == [] then [] else pieces[0] + Concat(pieces[1..])
  }

  ghost function Described(hashOf: Bytes -> Hash, pieces: seq<Bytes>, offset: nat): seq<Chunk> {
    if pieces == [] then []
    else [Chunk(offset, |pieces[0]| % P32, hashOf(pieces[0]), pieces[0])] +
         Described(hashOf, pieces[1..], offset + |pieces[0]|)
  }

  /** Where the loop stands after n iterations. */
  function OffsetAfter(gear: seq<nat>, cfg: Config, data: Bytes, n: nat): (o: nat)
    requires |gear| == 256 && Sized(cfg) && Addressable(data)
    ensures o <= |data|
  {
    if n == 0 then 0
    else
      var o := OffsetAfter(gear, cfg, data, n - 1);
      if o == |data| then o
      else
        BoundaryRange(gear, cfg, data, o);
        Boundary(gear, cfg, data, o)
  }

  /** The loop reaches the end of the data exactly when the maximum is not zero or the minimum covers
      the data; otherwise it stays at the start, adding empty chunks. */
  lemma {:induction false} SplitStopsExactly(gear: seq<nat>, cfg: Config, data: Bytes)
    requires |gear| == 256 && Sized(cfg) && Addressable(data)
    ensures (exists n: nat :: OffsetAfter(gear, cfg, data, n) == |data|) <==> Advances(cfg, |data|)
    ensures !Advances(cfg, |data|) ==> forall n: nat :: OffsetAfter(gear, cfg, data, n) == 0
  {
    if Advances(cfg, |data|) {
      OffsetGrows(gear, cfg, data, |data|);
    } else {
      forall n: nat
        ensures OffsetAfter(gear, cfg, data, n) == 0
      {
        OffsetStays(gear, cfg, data, n);
      }
    }
  }

  lemma {:induction false} OffsetGrows(gear: seq<nat>, cfg: Config, data: Bytes, n: nat)
    requires |gear| == 256 && Sized(cfg) && Addressable(data) && Advances(cfg, |data|)
    ensures OffsetAfter(gear, cfg, data, n) == |data| || OffsetAfter(gear, cfg, data, n) >= n
  {
    hide Boundary;
    if n > 0 {
      OffsetGrows(gear, cfg, data, n - 1);
      var o := OffsetAfter(gear, cfg, data, n - 1);
      if o < |data| {
        BoundaryRange(gear, cfg, data, o);
      }
    }
  }

  lemma {:induction false} OffsetStays(gear: seq<nat>, cfg: Config, data: Bytes, n: nat)
    requires |gear| == 256 && Sized(cfg) && Addressable(data) && !Advances(cfg, |data|)
    ensures OffsetAfter(gear, cfg, data, n) == 0
  {
    hide Boundary;
    if n > 0 {
      OffsetStays(gear, cfg, data, n - 1);
      BoundaryRange(gear, cfg, data, 0);
    }
  }

  /** Chunk i starts at its offset, ends at the next boundary and says what lies between. */
  ghost predicate ChunkAt(gear: seq<nat>, cfg: Config, data: Bytes, hashOf: Bytes -> Hash, chunks: seq<Chunk>, i: nat)
    requires |gear| == 256 && Sized(cfg) && Addressable(data) && i < |chunks|
  {
    var c := chunks[i];
    c.offset < |data| &&
    var end := Boundary(gear, cfg, data, c.offset);
    c.offset <= end <= |data| && c.data == data[c.offset..end] && c.length == (end - c.offset) % P32 &&
    c.hash == hashOf(c.data) && (if i + 1 < |chunks| then chunks[i + 1].offset == end else end == |data|)
  }

  /** The chunks follow one another from the start of the data to its end, each up to the boundary. */
  ghost predicate Follows(gear: seq<nat>, cfg: Config, data: Bytes, hashOf: Bytes -> Hash, chunks: seq<Chunk>)
    requires |gear| == 256 && Sized(cfg) && Addressable(data)
  {
    (chunks == [] <==> data == []) && (chunks != [] ==> chunks[0].offset == 0) &&
    forall i: nat :: i < |chunks| ==> ChunkAt(gear, cfg, data, hashOf, chunks, i)
  }

  lemma {:induction false} DescribedFollow(gear: seq<nat>, cfg: Config, data: Bytes, hashOf: Bytes -> Hash, offset: nat)
    requires |gear| == 256 && Sized(cfg) && Addressable(data)
    requires offset <= |data| && Advances(cfg, |data| - offset)
    ensures var chunks := Described(hashOf, Pieces(gear, cfg, data, offset), offset);
            (chunks == [] <==> offset == |data|) && (chunks != [] ==> chunks[0].offset == offset) &&
            forall i: nat :: i < |chunks| ==> ChunkAt(gear, cfg, data, hashOf, chunks, i)
    decreases |data| - offset
  {
    hide Boundary;
    if offset < |data| {
      BoundaryRange(gear, cfg, data, offset);
      var end := Boundary(gear, cfg, data, offset);
      DescribedFollow(gear, cfg, data, hashOf, end);
      var pieces, rest := Pieces(gear, cfg, data, offset), Pieces(gear, cfg, data, end);
      assert pieces[1..] == rest;
      var chunks, later := Described(hashOf, pieces, offset), Described(hashOf, rest, end);
      assert chunks == [chunks[0]] + later;
      forall i: nat | i < |chunks|
        ensures ChunkAt(gear, cfg, data, hashOf, chunks, i)
      {
        if i > 0 {
          assert ChunkAt(gear, cfg, data, hashOf, later, i - 1);
        }
      }
    }
  }

  method Split(gear: array<nat>, cfg: Config, data: Bytes, hashOf: Bytes -> Hash) returns (chunks: seq<Chunk>)
    requires gear.Length == 256 && Sized(cfg) && Addressable(data) && Advances(cfg, |data|)
    ensures Follows(gear[..], cfg, data, hashOf, chunks)
    ensures chunks == Described(hashOf, Pieces(gear[..], cfg, data, 0), 0)
  {
    hide Boundary;
    DescribedFollow(gear[..], cfg, data, hashOf, 0);
    chunks := [];
    var offset := 0;
    while offset < |data|
      invariant offset <= |data|
      invariant Described(hashOf, Pieces(gear[..], cfg, data, 0), 0) ==
                chunks + Described(hashOf, Pieces(gear[..], cfg, data, offset), offset)
      decreases |data| - offset
    {
      BoundaryRange(gear[..], cfg, data, offset);
      var end := FindChunkBoundary(gear, cfg, data, offset);
      var chunkData := data[offset..end];
      var rest := Pieces(gear[..], cfg, data, end);
      assert ([chunkData] + rest)[1..] == rest;
      chunks := chunks + [Chunk(offset, |chunkData| % P32, hashOf(chunkData), chunkData)];
      offset := end;
    }
    assert chunks + [] == chunks;
  }

  /** The pieces are contiguous and make up the data; none is empty or too long, and all but the
      last exceed the minimum. */
  lemma {:induction false} PiecesTile(gear: seq<nat>, cfg: Config, data: Bytes, offset: nat)
    requires |gear| == 256 && Sized(cfg) && Addressable(data)
    requires offset <= |data| && Advances(cfg, |data| - offset)
    ensures var p := Pieces(gear, cfg, data, offset);
            Concat(p) == data[offset..] &&
            (forall i :: 0 <= i < |p| ==> 0 < |p[i]| <= Max(cfg.minSize, cfg.maxSize)) &&
            (cfg.minSize < cfg.maxSize ==> forall i :: 0 <= i < |p| - 1 ==> |p[i]| > cfg.minSize)
    decreases |data| - offset
  {
    hide Boundary;
    if offset < |data| {
      BoundaryRange(gear, cfg, data, offset);
      var end := Boundary(gear, cfg, data, offset);
      PiecesTile(gear, cfg, data, end);
      var rest := Pieces(gear, cfg, data, end);
      assert ([data[offset..end]] + rest)[1..] == rest;
      assert data[offset..] == data[offset..end] + data[end..];
    }
  }

  /** The chunks say where their piece lies in the data. */
  lemma {:induction false} DescribedAt(hashOf: Bytes -> Hash, pieces: seq<Bytes>, offset: nat, i: nat)
    requires i < |pieces|
    ensures var c := Described(hashOf, pieces, offset);
            |c| == |pieces| &&
            c[i] == Chunk(offset + |Concat(pieces[..i])|, |pieces[i]| % P32, hashOf(pieces[i]), pieces[i])
    decreases |pieces|
  {
    if i > 0 {
      DescribedAt(hashOf, pieces[1..], offset + |pieces[0]|, i - 1);
      assert pieces[..i][1..] == pieces[1..][..i - 1];
    } else if |pieces| > 1 {
      DescribedAt(hashOf, pieces[1..], offset + |pieces[0]|, 0);
    }
  }

  // ---------------------------------------------------------------------------------------------
  // Locality of whole chunk lists
  // ---------------------------------------------------------------------------------------------

  /** Every chunk of a list starts at offsets that are local to each other. */
  ghost predicate LocalAlong(gear: seq<nat>, cfg: Config, p: seq<Bytes>, o: nat, o': nat)
    requires |gear| == 256
  {
    p == [] || (LocalAt(gear, cfg, o, o') && LocalAlong(gear, cfg, p[1..], o + |p[0]|, o' + |p[0]|))
  }

  lemma {:induction false} PiecesMove(gear: seq<nat>, cfg: Config, d: Bytes, d': Bytes, o: nat, o': nat)
    requires |gear| == 256 && Sized(cfg) && SameFrom(cfg, d, o, d', o')
    requires LocalAlong(gear, cfg, Pieces(gear, cfg, d, o), o, o')
    ensures Pieces(gear, cfg, d, o) == Pieces(gear, cfg, d', o')
    decreases |d| - o
  {
    hide Boundary, LocalAt;
    assert |d| - o == |d'| - o';
    if o < |d| {
      var p := Pieces(gear, cfg, d, o);
      BoundaryMoves(gear, cfg, d, d', o, o');
      BoundaryRange(gear, cfg, d, o);
      BoundaryRange(gear, cfg, d', o');
      var n := Boundary(gear, cfg, d, o) - o;
      assert d[o..o + n] == d[o..][..n] && d'[o'..o' + n] == d'[o'..][..n];
      assert d[o + n..] == d[o..][n..] && d'[o' + n..] == d'[o'..][n..];
      assert p[1..] == Pieces(gear, cfg, d, o + n);
      PiecesMove(gear, cfg, d, d', o + n, o' + n);
    }
  }

  /** The same bytes behind two offsets, and splitting can go on there. */
  ghost predicate SameFrom(cfg: Config, d: Bytes, o: nat, d': Bytes, o': nat) {
    Addressable(d) && Addressable(d') && o <= |d| && o' <= |d'| && d[o..] == d'[o'..] && Advances(cfg, |d| - o)
  }

  /** Local at the two offsets and at all later ones. */
  ghost predicate LocalFrom(gear: seq<nat>, cfg: Config, o: nat, o': nat)
    requires |gear| == 256
  {
    o == o' || (Primed(cfg, o) && Primed(cfg, o')) || !Conflict(gear, cfg)
  }

  lemma {:induction false} LocalStays(gear: seq<nat>, cfg: Config, p: seq<Bytes>, o: nat, o': nat)
    requires |gear| == 256 && LocalFrom(gear, cfg, o, o')
    ensures LocalAlong(gear, cfg, p, o, o')
    decreases |p|
  {
    hide Conflict;
    if p != [] {
      LocalStays(gear, cfg, p[1..], o + |p[0]|, o' + |p[0]|);
    }
  }

  lemma {:induction false} PiecesBehind(gear: seq<nat>, cfg: Config, d: Bytes, o: nat, k: nat)
    requires |gear| == 256 && Sized(cfg) && Addressable(d) && o <= |d| && Advances(cfg, |d| - o)
    requires k <= |Pieces(gear, cfg, d, o)|
    ensures var p := Pieces(gear, cfg, d, o);
            var end := o + |Concat(p[..k])|;
            end <= |d| && p[k..] == Pieces(gear, cfg, d, end)
    decreases k
  {
    hide Boundary;
    var p := Pieces(gear, cfg, d, o);
    if k > 0 {
      BoundaryRange(gear, cfg, d, o);
      var end := Boundary(gear, cfg, d, o);
      assert p[1..] == Pieces(gear, cfg, d, end);
      assert p[..k][1..] == p[1..][..k - 1];
      PiecesBehind(gear, cfg, d, end, k - 1);
    }
  }

  /** From offset on, the first k chunks cover exactly n bytes. */
  ghost predicate Covering(gear: seq<nat>, cfg: Config, d: Bytes, offset: nat, k: nat, n: nat)
    requires |gear| == 256 && Sized(cfg) && Addressable(d) && offset <= |d| && Advances(cfg, |d| - offset)
  {
    var p := Pieces(gear, cfg, d, offset);
    k <= |p| && |Concat(p[..k])| == n
  }

  /** Once both inputs have a boundary at the same point of a common suffix, all later chunks agree. */
  lemma Resynchronises(gear: seq<nat>, cfg: Config, d: Bytes, d': Bytes, k: nat, cut: nat,
                                          k': nat, cut': nat)
    requires |gear| == 256 && Sized(cfg) && SameFrom(cfg, d, cut, d', cut') && LocalFrom(gear, cfg, cut, cut')
    requires Advances(cfg, |d|) && Advances(cfg, |d'|)
    requires Covering(gear, cfg, d, 0, k, cut) && Covering(gear, cfg, d', 0, k', cut')
    ensures Pieces(gear, cfg, d, 0)[k..] == Pieces(gear, cfg, d', 0)[k'..]
  {
    hide Pieces, LocalFrom;
    PiecesBehind(gear, cfg, d, 0, k);
    PiecesBehind(gear, cfg, d', 0, k');
    LocalStays(gear, cfg, Pieces(gear, cfg, d, cut), cut, cut');
    PiecesMove(gear, cfg, d, d', cut, cut');
  }

  /** Inputs with a common prefix have the same chunks as long as the largest chunk stays inside it. */
  lemma {:induction false} CommonPieces(gear: seq<nat>, cfg: Config, d: Bytes, d': Bytes, o: nat, common: nat,
                                        i: nat, n: nat)
    requires |gear| == 256 && Sized(cfg) && cfg.minSize <= cfg.maxSize && Addressable(d) && Addressable(d')
    requires common <= |d| && common <= |d'| && d[..common] == d'[..common]
    requires o <= |d| && o <= |d'| && Advances(cfg, |d| - o) && Advances(cfg, |d'| - o)
    requires i < |Pieces(gear, cfg, d, o)|
    requires Covering(gear, cfg, d, o, i, n) && o + n + cfg.maxSize <= common
    ensures i < |Pieces(gear, cfg, d', o)|
    ensures Pieces(gear, cfg, d, o)[..i + 1] == Pieces(gear, cfg, d', o)[..i + 1]
    decreases i
  {
    hide Boundary;
    var p := Pieces(gear, cfg, d, o);
    BoundaryInPrefix(gear, cfg, d, d', o, common);
    BoundaryRange(gear, cfg, d, o);
    BoundaryRange(gear, cfg, d', o);
    var end := Boundary(gear, cfg, d, o);
    SubSlice(d, 0, common, o, end);
    SubSlice(d', 0, common, o, end);
    assert d[0..0 + common] == d[..common] && d'[0..0 + common] == d'[..common];
    if i > 0 {
      assert p[1..] == Pieces(gear, cfg, d, end);
      assert p[..i][1..] == p[1..][..i - 1];
      CommonPieces(gear, cfg, d, d', end, common, i - 1, n - (end - o));
      var p' := Pieces(gear, cfg, d', o);
      assert p[..i + 1] == [p[0]] + p[1..][..i] && p'[..i + 1] == [p'[0]] + p'[1..][..i];
    }
  }

  lemma DoubleModFour(h: nat, g: nat)
    ensures (2 * h + g) % 4 == (2 * (h % 4) + g) % 4
  {
  }

  lemma RollModFour(gear: seq<nat>, h: nat, b: Byte)
    requires |gear| == 256
    ensures Roll(gear, h, b) % 4 == (2 * (h % 4) + gear[b]) % 4
  {
    ModOfMultiple(2 * h + gear[b], P62, 4);
    DoubleModFour(h, gear[b]);
  }

  lemma CutsOnFour(h: nat)
    requires h < P64
    ensures CutsAt(h, Masks(32)) <==> h % 4 == 0
  {
    assert AvgBits(4) == 2;
    assert AvgBits(32) == 5 && CutBits(32) == 2 && Pow2(2) == 4;
    AnyMaskIsSmallest(h, 32);
  }

  /** Below 64 the first chunk of a file has no window yet, and locality fails: the same three bytes
      are cut differently at the start of a file and behind 64 other bytes. */
  lemma ShortMinimumIsNotLocal(gear: seq<nat>, d: Bytes, d': Bytes)
    requires |gear| == 256 && Generated(gear)
    requires d == [0, 3, 0] && |d'| == 67 && d'[64..] == d
    ensures Boundary(gear, Config(1, 32, 100), d, 0) == 2
    ensures Boundary(gear, Config(1, 32, 100), d', 64) == 64 + 3
  {
    hide CutsAt, Masks, StateAfter, Roll;
    FirstStates();
    assert gear[0] % 4 == 3 && gear[3] % 4 == 0;
    assert d[1..2] == [3] && d'[64..66] == [0, 3] && d'[64..67] == [0, 3, 0];
    var h0, h1 := Rolled(gear, [3]), Rolled(gear, [0]);
    var h2, h3 := Rolled(gear, [0, 3]), Rolled(gear, [0, 3, 0]);
    assert [3][..0] == [] && [0][..0] == [] && Rolled(gear, []) == 0;
    assert [0, 3][..1] == [0] && [0, 3, 0][..2] == [0, 3];
    assert h0 == Roll(gear, 0, 3) && h1 == Roll(gear, 0, 0) && h2 == Roll(gear, h1, 3) && h3 == Roll(gear, h2, 0);
    RollModFour(gear, 0, 3);
    RollModFour(gear, 0, 0);
    RollModFour(gear, h1, 3);
    RollModFour(gear, h2, 0);
    RolledBelow(gear, [3]);
    RolledBelow(gear, [0, 3]);
    RolledBelow(gear, [0, 3, 0]);
    CutsOnFour(h0);
    CutsOnFour(h2);
    CutsOnFour(h3);
    var m := Masks(32);
    assert WindowStart(64, 65) == 64;
    assert FirstCut(gear, m, d', 64, 66, 67) == FirstCut(gear, m, d', 64, 67, 67) == 67;
    assert FirstCut(gear, m, d', 64, 65, 67) == 67;
  }

  // ---------------------------------------------------------------------------------------------
  // The sync plan
  // ---------------------------------------------------------------------------------------------

  datatype SyncPlan = SyncPlan(missing: seq<Chunk>, total: nat, reused: nat)

  function Lacking(chunks: seq<Chunk>, remote: seq<Hash>): seq<Chunk> {
    if chunks == [] then []
    else
      var last := chunks[|chunks| - 1];
      Lacking(chunks[..|chunks| - 1], remote) + if last.hash in remote then [] else [last]
  }

  /** The places name, in order, exactly the chunks whose hash was not advertised. */
  ghost predicate Places(chunks: seq<Chunk>, remote: seq<Hash>, at: seq<nat>) {
    (forall i, j :: 0 <= i < j < |at| ==> at[i] < at[j]) &&
    (forall i :: 0 <= i < |at| ==> at[i] < |chunks| && chunks[at[i]].hash !in remote) &&
    (forall p: nat :: p < |chunks| && chunks[p].hash !in remote ==> p in at)
  }

  lemma PlacesNext(chunks: seq<Chunk>, remote: seq<Hash>, at: seq<nat>)
    requires chunks != [] && Places(chunks[..|chunks| - 1], remote, at)
    ensures var n := |chunks| - 1; Places(chunks, remote, if chunks[n].hash in remote then at else at + [n])
  {
    var n := |chunks| - 1;
    var init, at' := chunks[..n], if chunks[n].hash in remote then at else at + [n];
    assert forall i :: 0 <= i < n ==> init[i] == chunks[i];
    forall p: nat | p < |chunks| && chunks[p].hash !in remote
      ensures p in at'
    {
      if p < n {
        assert init[p].hash !in remote && p in at;
      } else {
        assert at'[|at|] == n;
      }
    }
  }

  ghost predicate Selected(chunks: seq<Chunk>, missing: seq<Chunk>, at: seq<nat>) {
    |missing| == |at| && forall i :: 0 <= i < |at| ==> at[i] < |chunks| && missing[i] == chunks[at[i]]
  }

  lemma SelectedNext(chunks: seq<Chunk>, missing: seq<Chunk>, at: seq<nat>)
    requires chunks != [] && Selected(chunks[..|chunks| - 1], missing, at)
    ensures Selected(chunks, missing, at)
    ensures var n := |chunks| - 1; Selected(chunks, missing + [chunks[n]], at + [n])
  {
  }

  lemma {:induction false} LackingAt(chunks: seq<Chunk>, remote: seq<Hash>) returns (at: seq<nat>)
    ensures Places(chunks, remote, at) && Selected(chunks, Lacking(chunks, remote), at)
  {
    at := [];
    if chunks != [] {
      hide Places, Selected;
      var n := |chunks| - 1;
      at := LackingAt(chunks[..n], remote);
      PlacesNext(chunks, remote, at);
      SelectedNext(chunks, Lacking(chunks[..n], remote), at);
      if chunks[n].hash in remote {
        assert Lacking(chunks, remote) == Lacking(chunks[..n], remote);
      } else {
        at := at + [n];
      }
    }
  }

  /** The missing chunks are those not advertised, in order. */
  ghost predicate Selects(chunks: seq<Chunk>, remote: seq<Hash>, missing: seq<Chunk>) {
    exists at :: Places(chunks, remote, at) && Selected(chunks, missing, at)
  }

  method BuildSyncPlan(chunks: seq<Chunk>, remote: seq<Hash>) returns (plan: SyncPlan)
    ensures Selects(chunks, remote, plan.missing)
    ensures plan.missing == Lacking(chunks, remote)
    ensures plan.total == |chunks| && plan.reused + |plan.missing| == plan.total
  {
    var remoteSet := set h | h in remote;
    var missing, reused := [], 0;
    for i := 0 to |chunks|
      invariant missing == Lacking(chunks[..i], remote) && reused + |missing| == i
    {
      assert chunks[..i + 1][..i] == chunks[..i];
      if chunks[i].hash in remoteSet {
        reused := reused + 1;
      } else {
        missing := missing + [chunks[i]];
      }
    }
    assert chunks[..|chunks|] == chunks;
    ghost var at := LackingAt(chunks, remote);
    plan := SyncPlan(missing, |chunks|, reused);
  }

  /** The chunk store of the receiver after it has added what it was sent. */
  ghost function Extended(have: map<Hash, Bytes>, sent: seq<Chunk>): map<Hash, Bytes> {
    if sent == [] then have
    else Extended(have, sent[..|sent| - 1])[sent[|sent| - 1].hash := sent[|sent| - 1].data]
  }

  ghost function Assembled(store: map<Hash, Bytes>, hashes: seq<Hash>): Option<Bytes> {
    if hashes == [] then Some([])
    else
      var rest := Assembled(store, hashes[1..]);
      if hashes[0] in store && rest.Some? then Some(store[hashes[0]] + rest.value) else None
  }

  /** The chunks and the receiver's store mean the same bytes by the same hash. */
  ghost predicate NoCollisions(chunks: seq<Chunk>, have: map<Hash, Bytes>) {
    (forall i, j :: 0 <= i < |chunks| && 0 <= j < |chunks| && chunks[i].hash == chunks[j].hash ==>
                      chunks[i].data == chunks[j].data) &&
    (forall i :: 0 <= i < |chunks| && chunks[i].hash in have ==> have[chunks[i].hash] == chunks[i].data)
  }

  lemma {:induction false} ExtendedHas(chunks: seq<Chunk>, remote: seq<Hash>, have: map<Hash, Bytes>, i: nat, n: nat)
    requires NoCollisions(chunks, have) && i < |chunks| && n <= |chunks|
    requires chunks[i].hash in have || i < n
    requires forall h :: h in remote ==> h in have
    ensures var store := Extended(have, Lacking(chunks[..n], remote));
            chunks[i].hash in store && store[chunks[i].hash] == chunks[i].data
    decreases n
  {
    hide Lacking, Extended;
    if n == 0 {
      NothingExtended(have, remote, chunks);
    } else {
      var last := chunks[n - 1];
      ExtendedStep(chunks, remote, have, n);
      assert chunks[i].hash == last.hash ==> chunks[i].data == last.data;
      if i != n - 1 || chunks[i].hash in have {
        ExtendedHas(chunks, remote, have, i, n - 1);
      }
    }
  }

  lemma NothingExtended(have: map<Hash, Bytes>, remote: seq<Hash>, chunks: seq<Chunk>)
    ensures Extended(have, Lacking(chunks[..0], remote)) == have
  {
  }

  lemma ExtendedStep(chunks: seq<Chunk>, remote: seq<Hash>, have: map<Hash, Bytes>, n: nat)
    requires 0 < n <= |chunks|
    ensures var last, before := chunks[n - 1], Extended(have, Lacking(chunks[..n - 1], remote));
            Extended(have, Lacking(chunks[..n], remote)) ==
            if last.hash in remote then before else before[last.hash := last.data]
  {
    assert chunks[..n][..n - 1] == chunks[..n - 1];
    var before, last := Lacking(chunks[..n - 1], remote), chunks[n - 1];
    assert (before + [last])[..|before|] == before;
    assert before + [] == before;
  }

  ghost function Hashes(chunks: seq<Chunk>): seq<Hash> {
    if chunks == [] then [] else [chunks[0].hash] + Hashes(chunks[1..])
  }

  ghost function Joined(chunks: seq<Chunk>): Bytes {
    if chunks == [] then [] else chunks[0].data + Joined(chunks[1..])
  }

  lemma {:induction false} AssemblesTail(chunks: seq<Chunk>, store: map<Hash, Bytes>)
    requires forall i :: 0 <= i < |chunks| ==> chunks[i].hash in store && store[chunks[i].hash] == chunks[i].data
    ensures Assembled(store, Hashes(chunks)) == Some(Joined(chunks))
    decreases |chunks|
  {
    if chunks != [] {
      AssemblesTail(chunks[1..], store);
    }
  }

  /** A receiver that has the advertised chunks and adds the missing ones can assemble them all. */
  lemma ReceiverAssembles(chunks: seq<Chunk>, remote: seq<Hash>, have: map<Hash, Bytes>)
    requires NoCollisions(chunks, have) && forall h :: h in remote ==> h in have
    ensures Assembled(Extended(have, Lacking(chunks, remote)), Hashes(chunks)) == Some(Joined(chunks))
  {
    var store := Extended(have, Lacking(chunks, remote));
    assert chunks[..|chunks|] == chunks;
    forall i | 0 <= i < |chunks|
      ensures chunks[i].hash in store && store[chunks[i].hash] == chunks[i].data
    {
      ExtendedHas(chunks, remote, have, i, |chunks|);
    }
    AssemblesTail(chunks, store);
  }

  lemma {:induction false} JoinedDescribed(hashOf: Bytes -> Hash, pieces: seq<Bytes>, offset: nat)
    ensures Joined(Described(hashOf, pieces, offset)) == Concat(pieces)
    decreases |pieces|
  {
    if pieces != [] {
      JoinedDescribed(hashOf, pieces[1..], offset + |pieces[0]|);
    }
  }

  /** End to end: splitting, advertising, sending what is missing, and assembling give the data. */
  lemma {:induction false} SyncRestoresData(gear: seq<nat>, cfg: Config, data: Bytes, hashOf: Bytes -> Hash,
                         chunks: seq<Chunk>, remote: seq<Hash>, have: map<Hash, Bytes>)
    requires |gear| == 256 && Sized(cfg) && Addressable(data) && Advances(cfg, |data|)
    requires chunks == Described(hashOf, Pieces(gear, cfg, data, 0), 0)
    requires NoCollisions(chunks, have) && forall h :: h in remote ==> h in have
    ensures Assembled(Extended(have, Lacking(chunks, remote)), Hashes(chunks)) == Some(data)
  {
    ReceiverAssembles(chunks, remote, have);
    JoinedDescribed(hashOf, Pieces(gear, cfg, data, 0), 0);
    PiecesTile(gear, cfg, data, 0);
    assert data[0..] == data;
  }
}
