/** Binary deltas by value: matching, operations, and what applying them gives. */
module Delta {
  import opened Common
  import opened Codec

  const CHUNK := 16

  datatype DeltaOp = Copy(srcOffset: nat, length: nat) | Insert(length: nat, data: Bytes)

  /** How applying a delta can end: a copy whose end wraps around 2^64 makes Go's slicing panic. */
  datatype Outcome = Done(bytes: Bytes) | Failed | Panics

  function RollingHash32(w: Bytes): nat {
    if w == [] then 0 else (RollingHash32(w[..|w| - 1]) * 31 + w[|w| - 1]) % P32
  }

  /** Window starts below n whose hash is h, in ascending order. */
  function Candidates(base: Bytes, h: nat, n: nat): (c: seq<nat>)
    requires n == 0 || n + CHUNK <= |base| + 1
    ensures forall i :: 0 <= i < |c| ==> c[i] + CHUNK <= |base| && RollingHash32(base[c[i]..c[i] + CHUNK]) == h
  {
    if n == 0 then []
    else Candidates(base, h, n - 1) + if RollingHash32(base[n - 1..n - 1 + CHUNK]) == h then [n - 1] else []
  }

  function WindowCount(base: Bytes): nat {
    if |base| < CHUNK then 0 else |base| - CHUNK + 1
  }

  /** How far the bytes behind the window go on agreeing. */
  function Extent(base: Bytes, target: Bytes, off: nat, t: nat, length: nat): (n: nat)
    requires off + length <= |base| && t + length <= |target|
    ensures length <= n && off + n <= |base| && t + n <= |target|
    decreases |target| - t - length
  {
    if off + length < |base| && t + length < |target| && base[off + length] == target[t + length] then
      Extent(base, target, off, t, length + 1)
    else length
  }

  lemma {:induction false} ExtentAgrees(base: Bytes, target: Bytes, off: nat, t: nat, length: nat)
    requires off + length <= |base| && t + length <= |target|
    ensures var n := Extent(base, target, off, t, length);
            base[off + length..off + n] == target[t + length..t + n] &&
            !(off + n < |base| && t + n < |target| && base[off + n] == target[t + n])
    decreases |target| - t - length
  {
    if off + length < |base| && t + length < |target| && base[off + length] == target[t + length] {
      ExtentAgrees(base, target, off, t, length + 1);
      var n := Extent(base, target, off, t, length);
      assert base[off + length..off + n] == [base[off + length]] + base[off + length + 1..off + n];
      assert target[t + length..t + n] == [target[t + length]] + target[t + length + 1..t + n];
    }
  }

  datatype Match = Match(offset: nat, length: nat)

  /** The first candidate of greatest extent. */
  function Best(base: Bytes, target: Bytes, t: nat, cands: seq<nat>): (m: Match)
    requires t + CHUNK <= |target| && forall i :: 0 <= i < |cands| ==> cands[i] + CHUNK <= |base|
    ensures cands == [] ==> m.length == 0
    ensures cands != [] ==> m.offset in cands && m.length == Extent(base, target, m.offset, t, CHUNK)
    ensures forall i :: 0 <= i < |cands| ==> Extent(base, target, cands[i], t, CHUNK) <= m.length
  {
    if cands == [] then Match(0, 0)
    else
      var m := Best(base, target, t, cands[..|cands| - 1]);
      var off := cands[|cands| - 1];
      var n := Extent(base, target, off, t, CHUNK);
      if n > m.length then Match(off, n) else m
  }

  /** What the encoder finds at target position t; length zero if nothing. */
  function MatchAt(base: Bytes, target: Bytes, t: nat): (m: Match)
    requires t <= |target|
    ensures m.length == 0 || (CHUNK <= m.length && m.offset + m.length <= |base| && t + m.length <= |target|)
  {
    if t + CHUNK > |target| then Match(0, 0)
    else Best(base, target, t, Candidates(base, RollingHash32(target[t..t + CHUNK]), WindowCount(base)))
  }

  /** A match has the window's hash and agrees with the target behind the window. */
  lemma MatchAgrees(base: Bytes, target: Bytes, t: nat)
    requires t <= |target| && MatchAt(base, target, t).length > 0
    ensures var m := MatchAt(base, target, t);
            RollingHash32(base[m.offset..m.offset + CHUNK]) == RollingHash32(target[t..t + CHUNK]) &&
            base[m.offset + CHUNK..m.offset + m.length] == target[t + CHUNK..t + m.length]
  {
    hide RollingHash32, Candidates, Best, Extent;
    var m := MatchAt(base, target, t);
    var cands := Candidates(base, RollingHash32(target[t..t + CHUNK]), WindowCount(base));
    var i :| 0 <= i < |cands| && cands[i] == m.offset;
    ExtentAgrees(base, target, m.offset, t, CHUNK);
  }

  ghost predicate AscendBelow(c: seq<nat>, n: nat) {
    (forall i, j :: 0 <= i < j < |c| ==> c[i] < c[j]) && forall i :: 0 <= i < |c| ==> c[i] < n
  }

  lemma {:induction false} CandidatesAscend(base: Bytes, h: nat, n: nat)
    requires n == 0 || n + CHUNK <= |base| + 1
    ensures AscendBelow(Candidates(base, h, n), n)
    decreases n
  {
    hide RollingHash32;
    if n > 0 {
      CandidatesAscend(base, h, n - 1);
    }
  }

  /** Of candidates in ascending order the first of greatest extent is taken. */
  lemma {:induction false} BestIsFirst(base: Bytes, target: Bytes, t: nat, cands: seq<nat>, i: nat)
    requires t + CHUNK <= |target| && forall i :: 0 <= i < |cands| ==> cands[i] + CHUNK <= |base|
    requires forall i, j :: 0 <= i < j < |cands| ==> cands[i] < cands[j]
    requires i < |cands| && Extent(base, target, cands[i], t, CHUNK) >= Best(base, target, t, cands).length
    ensures Best(base, target, t, cands).offset <= cands[i]
    decreases |cands|
  {
    hide Extent;
    var n := |cands| - 1;
    if i < n {
      BestIsFirst(base, target, t, cands[..n], i);
    } else {
      var k :| 0 <= k < |cands| && cands[k] == Best(base, target, t, cands).offset;
    }
  }

  lemma {:induction false} CandidatesAre(base: Bytes, h: nat, n: nat, off: nat)
    requires n == 0 || n + CHUNK <= |base| + 1
    ensures off in Candidates(base, h, n) <==> off < n && RollingHash32(base[off..off + CHUNK]) == h
    decreases n
  {
    hide RollingHash32;
    if n > 0 {
      CandidatesAre(base, h, n - 1, off);
    }
  }

  /** The 16 bytes of the base at off have the hash of those of the target at t. */
  predicate SameWindowHash(base: Bytes, target: Bytes, off: nat, t: nat) {
    off + CHUNK <= |base| && t + CHUNK <= |target| &&
    RollingHash32(base[off..off + CHUNK]) == RollingHash32(target[t..t + CHUNK])
  }

  /** From there on n bytes pass for equal: the first 16 by their hash, the others byte by byte. */
  predicate Alike(base: Bytes, target: Bytes, off: nat, t: nat, n: nat) {
    SameWindowHash(base, target, off, t) && CHUNK <= n && off + n <= |base| && t + n <= |target| &&
    base[off + CHUNK..off + n] == target[t + CHUNK..t + n]
  }

  /** At every target position the encoder finds a longest match: nothing only where no window of the
      base has the hash of the target's window, and otherwise the first one that no other exceeds. */
  lemma MatchIsLongest(base: Bytes, target: Bytes, t: nat)
    requires t <= |target|
    ensures var m := MatchAt(base, target, t);
            (m.length == 0 <==> forall off: nat :: !SameWindowHash(base, target, off, t)) &&
            (m.length > 0 ==> Alike(base, target, m.offset, t, m.length)) &&
            forall off: nat, n: nat :: Alike(base, target, off, t, n) ==>
              n <= m.length && (n == m.length ==> m.offset <= off)
  {
    hide RollingHash32, Candidates, Best, Extent;
    var m := MatchAt(base, target, t);
    if t + CHUNK <= |target| {
      var h := RollingHash32(target[t..t + CHUNK]);
      var cands := Candidates(base, h, WindowCount(base));
      forall off: nat
        ensures off in cands <==> SameWindowHash(base, target, off, t)
      {
        CandidatesAre(base, h, WindowCount(base), off);
      }
      assert cands != [] ==> cands[0] in cands;
      if m.length > 0 {
        MatchAgrees(base, target, t);
      }
      forall off: nat, n: nat | Alike(base, target, off, t, n)
        ensures n <= m.length && (n == m.length ==> m.offset <= off)
      {
        var i :| 0 <= i < |cands| && cands[i] == off;
        ExtentReaches(base, target, off, t, CHUNK, n);
        if n == m.length {
          CandidatesAscend(base, h, WindowCount(base));
          BestIsFirst(base, target, t, cands, i);
        }
      }
    }
  }

  /** Agreeing bytes are all counted. */
  lemma {:induction false} ExtentReaches(base: Bytes, target: Bytes, off: nat, t: nat, length: nat, n: nat)
    requires length <= n && off + n <= |base| && t + n <= |target|
    requires base[off + length..off + n] == target[t + length..t + n]
    ensures n <= Extent(base, target, off, t, length)
    decreases n - length
  {
    if length < n {
      var x, y := base[off + length..off + n], target[t + length..t + n];
      assert x[0] == base[off + length] && y[0] == target[t + length];
      assert base[off + length + 1..off + n] == x[1..] && target[t + length + 1..t + n] == y[1..];
      ExtentReaches(base, target, off, t, length + 1, n);
    }
  }

  /** The operations before merging, from target position t on. Lengths are uint32 and wrap. */
  function RawOps(base: Bytes, target: Bytes, t: nat): seq<DeltaOp>
    requires t <= |target|
    decreases |target| - t
  {
    if t == |target| then []
    else
      var m := MatchAt(base, target, t);
      if m.length >= CHUNK then [Copy(m.offset, m.length % P32)] + RawOps(base, target, t + m.length)
      else [Insert(1, target[t..t + 1])] + RawOps(base, target, t + 1)
  }

  /** Appends one operation, merging an insertion into an insertion before it. */
  function Push(ops: seq<DeltaOp>, op: DeltaOp): seq<DeltaOp> {
    if op.length == 0 then ops
    else if ops != [] && ops[|ops| - 1].Insert? && op.Insert? then
      var last := ops[|ops| - 1];
      ops[..|ops| - 1] + [Insert((last.length + op.length) % P32, last.data + op.data)]
    else ops + [op]
  }

  function PushAll(ops: seq<DeltaOp>, more: seq<DeltaOp>): seq<DeltaOp>
    decreases |more|
  {
    if more == [] then ops else PushAll(Push(ops, more[0]), more[1..])
  }

  /** A single operation is left as it is, even if it is empty. */
  function Merged(ops: seq<DeltaOp>): seq<DeltaOp> {
    if |ops| <= 1 then ops else PushAll([], ops)
  }

  function DeltaOf(base: Bytes, target: Bytes): seq<DeltaOp> {
    if base == [] then [Insert(|target| % P32, target)] else Merged(RawOps(base, target, 0))
  }

  function ApplyOp(base: Bytes, op: DeltaOp): Outcome {
    match op
    case Copy(src, length) =>
      var end := (src + length) % P64;
      if end > |base| then Failed else if src > end then Panics else Done(base[src..end])
    case Insert(_, data) => Done(data)
  }

  function ApplyTo(base: Bytes, ops: seq<DeltaOp>): Outcome {
    if ops == [] then Done([])
    else match ApplyOp(base, ops[0])
      case Done(first) =>
        (match ApplyTo(base, ops[1..])
         case Done(rest) => Done(first + rest)
         case Failed => Failed
         case Panics => Panics)
      case Failed => Failed
      case Panics => Panics
  }

  // ---------------------------------------------------------------------------------------------
  // What a computed delta rebuilds
  // ---------------------------------------------------------------------------------------------

  /** Every window the encoder copies really is the target's; it compared only its hash. */
  ghost predicate WindowsAgree(base: Bytes, target: Bytes, t: nat)
    requires t <= |target|
    decreases |target| - t
  {
    t < |target| ==>
      var m := MatchAt(base, target, t);
      if m.length >= CHUNK then
        base[m.offset..m.offset + CHUNK] == target[t..t + CHUNK] && WindowsAgree(base, target, t + m.length)
      else WindowsAgree(base, target, t + 1)
  }

  /** Every match the encoder takes is short enough for its 32-bit length. */
  ghost predicate MatchesFit(base: Bytes, target: Bytes, t: nat)
    requires t <= |target|
    decreases |target| - t
  {
    t < |target| ==>
      var m := MatchAt(base, target, t);
      if m.length >= CHUNK then m.length < P32 && MatchesFit(base, target, t + m.length)
      else MatchesFit(base, target, t + 1)
  }

  lemma CopyApplies(base: Bytes, offset: nat, length: nat)
    requires offset + length <= |base| < P64
    ensures ApplyOp(base, Copy(offset, length)) == Done(base[offset..offset + length])
  {
  }

  /** How any copy whose fields fit the wire form ends: it gives the bytes if they lie in the base, fails
      if they do not, and panics if its end is that far behind 2^64 that it seems to. */
  lemma CopyOutcome(base: Bytes, src: nat, length: nat)
    requires |base| < P64 && src < P64 && length < P32
    ensures src + length <= |base| ==> ApplyOp(base, Copy(src, length)) == Done(base[src..src + length])
    ensures |base| < src + length < P64 ==> ApplyOp(base, Copy(src, length)) == Failed
    ensures P64 <= src + length <= P64 + |base| ==> ApplyOp(base, Copy(src, length)) == Panics
    ensures src + length > P64 + |base| ==> ApplyOp(base, Copy(src, length)) == Failed
  {
  }

  lemma CopiedAgrees(base: Bytes, target: Bytes, t: nat)
    requires t <= |target| && MatchAt(base, target, t).length >= CHUNK
    ensures var m := MatchAt(base, target, t);
            base[m.offset..m.offset + m.length] == target[t..t + m.length] <==>
            base[m.offset..m.offset + CHUNK] == target[t..t + CHUNK]
  {
    hide MatchAt;
    var m := MatchAt(base, target, t);
    MatchAgrees(base, target, t);
    var x, y := base[m.offset..m.offset + CHUNK], base[m.offset + CHUNK..m.offset + m.length];
    var x', y' := target[t..t + CHUNK], target[t + CHUNK..t + m.length];
    assert base[m.offset..m.offset + m.length] == x + y;
    assert target[t..t + m.length] == x' + y';
    assert (x + y)[..CHUNK] == x && (x' + y')[..CHUNK] == x';
  }

  ghost predicate Rebuilds(base: Bytes, target: Bytes, t: nat, ops: seq<DeltaOp>)
    requires t <= |target|
  {
    var r := ApplyTo(base, ops);
    r.Done? && |r.bytes| <= |target| - t && (|r.bytes| == |target| - t <==> MatchesFit(base, target, t)) &&
    (r.bytes == target[t..] <==> WindowsAgree(base, target, t) && MatchesFit(base, target, t))
  }

  lemma RebuildsStep(base: Bytes, target: Bytes, t: nat, op: DeltaOp, ops: seq<DeltaOp>, n: nat, piece: Bytes)
    requires t < t + n <= |target| && Rebuilds(base, target, t + n, ops)
    requires ApplyOp(base, op) == Done(piece) && |piece| <= n
    requires MatchesFit(base, target, t) <==> |piece| == n && MatchesFit(base, target, t + n)
    requires |piece| == n ==>
               (WindowsAgree(base, target, t) <==> piece == target[t..t + n] && WindowsAgree(base, target, t + n))
    ensures Rebuilds(base, target, t, [op] + ops)
  {
    hide ApplyOp, WindowsAgree, MatchesFit;
    assert ([op] + ops)[1..] == ops;
    var rest := ApplyTo(base, ops).bytes;
    assert ApplyTo(base, [op] + ops) == Done(piece + rest);
    if |piece| == n && |rest| == |target| - t - n {
      SameParts(piece, rest, target, t, n);
    }
  }

  /** The operations always apply. They give as many bytes as the target has exactly when no match is too
      long for its length field, and the target exactly when also every copied window agrees. */
  lemma {:induction false} RawOpsRebuild(base: Bytes, target: Bytes, t: nat)
    requires t <= |target| && |base| < P64
    ensures Rebuilds(base, target, t, RawOps(base, target, t))
    decreases |target| - t
  {
    hide MatchAt, ApplyOp;
    if t < |target| {
      var m := MatchAt(base, target, t);
      if m.length >= CHUNK {
        RawOpsRebuild(base, target, t + m.length);
        var n := m.length % P32;
        CopyApplies(base, m.offset, n);
        CopiedAgrees(base, target, t);
        RebuildsStep(base, target, t, Copy(m.offset, n), RawOps(base, target, t + m.length), m.length,
                     base[m.offset..m.offset + n]);
      } else {
        RawOpsRebuild(base, target, t + 1);
        InsertApplies(base, 1, target[t..t + 1]);
        RebuildsStep(base, target, t, Insert(1, target[t..t + 1]), RawOps(base, target, t + 1), 1, target[t..t + 1]);
      }
    }
  }

  lemma InsertApplies(base: Bytes, n: nat, data: Bytes)
    ensures ApplyOp(base, Insert(n, data)) == Done(data)
  {
  }

  lemma SameParts(x: Bytes, y: Bytes, target: Bytes, t: nat, n: nat)
    requires t + n <= |target| && |x| == n && |y| == |target| - t - n
    ensures x + y == target[t..] <==> x == target[t..t + n] && y == target[t + n..]
  {
    assert target[t..] == target[t..t + n] + target[t + n..];
    if x + y == target[t..] {
      assert x == (x + y)[..n] && y == (x + y)[n..];
    }
  }

  function Then(x: Outcome, y: Outcome): Outcome {
    match x
    case Done(b) => (match y case Done(c) => Done(b + c) case Failed => Failed case Panics => Panics)
    case Failed => Failed
    case Panics => Panics
  }

  lemma ThenAssociates(x: Outcome, y: Outcome, z: Outcome)
    ensures Then(Then(x, y), z) == Then(x, Then(y, z))
  {
    if x.Done? && y.Done? && z.Done? {
      assert x.bytes + y.bytes + z.bytes == x.bytes + (y.bytes + z.bytes);
    }
  }

  lemma {:induction false} ApplyConcat(base: Bytes, a: seq<DeltaOp>, b: seq<DeltaOp>)
    ensures ApplyTo(base, a + b) == Then(ApplyTo(base, a), ApplyTo(base, b))
    decreases |a|
  {
    hide ApplyOp;
    if a == [] {
      assert a + b == b;
      assert ApplyTo(base, b).Done? ==> [] + ApplyTo(base, b).bytes == ApplyTo(base, b).bytes;
    } else {
      assert (a + b)[1..] == a[1..] + b;
      ApplyConcat(base, a[1..], b);
      ThenAssociates(ApplyOp(base, a[0]), ApplyTo(base, a[1..]), ApplyTo(base, b));
    }
  }

  lemma ApplySingle(base: Bytes, op: DeltaOp)
    ensures ApplyTo(base, [op]) == ApplyOp(base, op)
  {
    hide ApplyOp;
    assert ApplyTo(base, [op]) == Then(ApplyOp(base, op), ApplyTo(base, []));
    assert ApplyOp(base, op).Done? ==> ApplyOp(base, op).bytes + [] == ApplyOp(base, op).bytes;
  }

  /** An operation before merging: a copy within the base, or an insertion of one byte. */
  predicate Raw(op: DeltaOp, n: nat) {
    match op
    case Copy(src, length) => src + length <= n
    case Insert(length, data) => length == 1 == |data|
  }

  ghost predicate AllRaw(ops: seq<DeltaOp>, n: nat) {
    forall i :: 0 <= i < |ops| ==> Raw(ops[i], n)
  }

  lemma PushApplies(base: Bytes, ops: seq<DeltaOp>, op: DeltaOp)
    requires Raw(op, |base|) && |base| < P64
    ensures ApplyTo(base, Push(ops, op)) == Then(ApplyTo(base, ops), ApplyOp(base, op))
  {
    hide ApplyTo;
    ApplySingle(base, op);
    ApplyConcat(base, ops, [op]);
    if op.length == 0 {
      ApplyConcat(base, ops, []);
      assert ops + [] == ops && ApplyTo(base, []) == Done([]) by { EmptyApplies(base); }
      CopyApplies(base, op.srcOffset, 0);
    } else if ops != [] && ops[|ops| - 1].Insert? && op.Insert? {
      var init, last := ops[..|ops| - 1], ops[|ops| - 1];
      var merged := Insert((last.length + op.length) % P32, last.data + op.data);
      assert ops == init + [last];
      ApplyConcat(base, init, [last]);
      ApplyConcat(base, init, [merged]);
      ApplySingle(base, last);
      ApplySingle(base, merged);
      ThenAssociates(ApplyTo(base, init), ApplyOp(base, last), ApplyOp(base, op));
    }
  }

  lemma EmptyApplies(base: Bytes)
    ensures ApplyTo(base, []) == Done([])
  {
  }

  lemma {:induction false} PushAllApplies(base: Bytes, ops: seq<DeltaOp>, more: seq<DeltaOp>)
    requires AllRaw(more, |base|) && |base| < P64
    ensures ApplyTo(base, PushAll(ops, more)) == Then(ApplyTo(base, ops), ApplyTo(base, more))
    decreases |more|
  {
    hide ApplyOp, Push;
    if more == [] {
      ApplyConcat(base, ops, []);
      assert ops + [] == ops;
    } else {
      PushApplies(base, ops, more[0]);
      PushAllApplies(base, Push(ops, more[0]), more[1..]);
      ThenAssociates(ApplyTo(base, ops), ApplyOp(base, more[0]), ApplyTo(base, more[1..]));
    }
  }

  lemma MergedApplies(base: Bytes, ops: seq<DeltaOp>)
    requires AllRaw(ops, |base|) && |base| < P64
    ensures ApplyTo(base, Merged(ops)) == ApplyTo(base, ops)
  {
    hide ApplyTo, PushAll;
    if |ops| > 1 {
      PushAllApplies(base, [], ops);
      EmptyApplies(base);
      assert ApplyTo(base, ops).Done? ==> [] + ApplyTo(base, ops).bytes == ApplyTo(base, ops).bytes;
    }
  }

  lemma {:induction false} RawOpsRaw(base: Bytes, target: Bytes, t: nat)
    requires t <= |target|
    ensures AllRaw(RawOps(base, target, t), |base|)
    decreases |target| - t
  {
    hide MatchAt;
    if t < |target| {
      var m := MatchAt(base, target, t);
      RawOpsRaw(base, target, if m.length >= CHUNK then t + m.length else t + 1);
    }
  }

  /** No insertion stands next to another. */
  ghost predicate NoNeighbours(ops: seq<DeltaOp>) {
    forall i :: 0 < i < |ops| && ops[i].Insert? ==> ops[i - 1].Copy?
  }

  ghost predicate NoEmptyCopy(ops: seq<DeltaOp>) {
    forall i :: 0 <= i < |ops| && ops[i].Copy? ==> ops[i].length > 0
  }

  lemma PushSeparates(ops: seq<DeltaOp>, op: DeltaOp)
    requires NoNeighbours(ops) && NoEmptyCopy(ops)
    ensures NoNeighbours(Push(ops, op)) && NoEmptyCopy(Push(ops, op))
  {
  }

  lemma {:induction false} PushAllSeparates(ops: seq<DeltaOp>, more: seq<DeltaOp>)
    requires NoNeighbours(ops) && NoEmptyCopy(ops)
    ensures NoNeighbours(PushAll(ops, more)) && NoEmptyCopy(PushAll(ops, more))
    decreases |more|
  {
    hide Push;
    if more != [] {
      PushSeparates(ops, more[0]);
      PushAllSeparates(Push(ops, more[0]), more[1..]);
    }
  }

  /** In a delta no two insertions are neighbours, and no copy is empty unless it is the only operation. */
  lemma DeltaIsMerged(base: Bytes, target: Bytes)
    ensures var ops := DeltaOf(base, target);
            NoNeighbours(ops) && (|ops| > 1 ==> NoEmptyCopy(ops))
  {
    hide RawOps, PushAll;
    if base != [] {
      PushAllSeparates([], RawOps(base, target, 0));
    }
  }

  /** The operation stands for target[r..q]: a copy of a longest match there, the first of them in the
      base, or inserted bytes at none of which a match starts. */
  ghost predicate Covers(base: Bytes, target: Bytes, op: DeltaOp, r: nat, q: nat) {
    r < q <= |target| &&
    match op
    case Copy(src, length) =>
      length == q - r && Alike(base, target, src, r, length) &&
      forall off: nat, n: nat :: Alike(base, target, off, r, n) ==> n <= length && (n == length ==> src <= off)
    case Insert(_, data) =>
      data == target[r..q] &&
      forall p: nat, off: nat :: r <= p < q ==> !SameWindowHash(base, target, off, p)
  }

  /** The operations stand for the target's first q bytes, one after another. */
  ghost predicate CoverUpTo(base: Bytes, target: Bytes, ops: seq<DeltaOp>, q: nat)
    decreases |ops|
  {
    if ops == [] then q == 0
    else
      var last := ops[|ops| - 1];
      var n := if last.Copy? then last.length else |last.data|;
      n <= q && Covers(base, target, last, q - n, q) && CoverUpTo(base, target, ops[..|ops| - 1], q - n)
  }

  lemma PushCovers(base: Bytes, target: Bytes, ops: seq<DeltaOp>, op: DeltaOp, q: nat, q': nat)
    requires CoverUpTo(base, target, ops, q) && Covers(base, target, op, q, q') && op.length > 0
    requires op.Insert? ==> |op.data| == q' - q
    ensures CoverUpTo(base, target, Push(ops, op), q')
  {
    hide SameWindowHash, Alike;
    if ops != [] && ops[|ops| - 1].Insert? && op.Insert? {
      var last := ops[|ops| - 1];
      var r := q - |last.data|;
      var merged := Insert((last.length + op.length) % P32, last.data + op.data);
      assert target[r..q] + target[q..q'] == target[r..q'];
      assert Covers(base, target, merged, r, q');
      var ops' := Push(ops, op);
      assert ops'[..|ops'| - 1] == ops[..|ops| - 1] && ops'[|ops'| - 1] == merged;
    } else {
      assert Push(ops, op)[..|ops|] == ops;
    }
  }

  /** The first raw operation stands for its stretch of the target. */
  lemma RawOpCovers(base: Bytes, target: Bytes, t: nat)
    requires t < |target| && MatchesFit(base, target, t)
    ensures var m := MatchAt(base, target, t);
            var op := RawOps(base, target, t)[0];
            var n := if m.length >= CHUNK then m.length else 1;
            t + n <= |target| && Covers(base, target, op, t, t + n) && op.length > 0 &&
            (op.Insert? ==> |op.data| == 1) && RawOps(base, target, t)[1..] == RawOps(base, target, t + n) &&
            MatchesFit(base, target, t + n)
  {
    hide MatchAt, SameWindowHash, Alike;
    MatchIsLongest(base, target, t);
  }

  lemma {:induction false} PushAllCovers(base: Bytes, target: Bytes, ops: seq<DeltaOp>, t: nat)
    requires t <= |target| && MatchesFit(base, target, t) && CoverUpTo(base, target, ops, t)
    ensures CoverUpTo(base, target, PushAll(ops, RawOps(base, target, t)), |target|)
    decreases |target| - t
  {
    hide MatchAt, Covers, CoverUpTo, Push, MatchesFit;
    if t < |target| {
      var raw := RawOps(base, target, t);
      var m := MatchAt(base, target, t);
      var n := if m.length >= CHUNK then m.length else 1;
      RawOpCovers(base, target, t);
      PushCovers(base, target, ops, raw[0], t, t + n);
      PushAllCovers(base, target, Push(ops, raw[0]), t + n);
    }
  }

  /** What a delta consists of, unless a match is too long for its field: from the start of the target on,
      wherever some window of the base has the hash of the target's next 16 bytes, a copy of the longest
      match, and insertions of exactly the bytes in between. */
  lemma DeltaCovers(base: Bytes, target: Bytes)
    requires base != [] && MatchesFit(base, target, 0)
    ensures CoverUpTo(base, target, DeltaOf(base, target), |target|)
  {
    hide RawOps, Covers, MatchesFit;
    var raw := RawOps(base, target, 0);
    PushAllCovers(base, target, [], 0);
    if |raw| <= 1 {
      SingleCovers(base, target);
    }
  }

  lemma SingleCovers(base: Bytes, target: Bytes)
    requires |RawOps(base, target, 0)| <= 1 && MatchesFit(base, target, 0)
    ensures PushAll([], RawOps(base, target, 0)) == RawOps(base, target, 0)
  {
    hide MatchAt, MatchesFit, Covers;
    if target != [] {
      RawOpCovers(base, target, 0);
    }
  }

  /** No copied window is a mere collision of hashes, and no copied length wraps; an empty base is
      never matched. */
  ghost predicate Faithful(base: Bytes, target: Bytes) {
    base == [] || (WindowsAgree(base, target, 0) && MatchesFit(base, target, 0))
  }

  /** Applying the computed delta gives the target exactly when it is faithful; it always succeeds, and
      its result is no longer than the target, and shorter exactly when a copied length wrapped. */
  lemma DeltaRebuilds(base: Bytes, target: Bytes)
    requires |base| < P64
    ensures var r := ApplyTo(base, DeltaOf(base, target));
            r.Done? && |r.bytes| <= |target| && (r.bytes == target <==> Faithful(base, target)) &&
            (|r.bytes| == |target| <==> base == [] || MatchesFit(base, target, 0))
  {
    hide RawOps, ApplyTo, Merged, WindowsAgree, MatchesFit;
    if base == [] {
      ApplySingle(base, Insert(|target| % P32, target));
    } else {
      RawOpsRaw(base, target, 0);
      RawOpsRebuild(base, target, 0);
      MergedApplies(base, RawOps(base, target, 0));
      assert target[0..] == target;
    }
  }

  lemma {:induction false} ShortMatchesFit(base: Bytes, target: Bytes, t: nat)
    requires t <= |target| && (|base| < P32 || |target| < P32)
    ensures MatchesFit(base, target, t)
    decreases |target| - t
  {
    hide MatchAt;
    if t < |target| {
      var m := MatchAt(base, target, t);
      ShortMatchesFit(base, target, if m.length >= CHUNK then t + m.length else t + 1);
    }
  }

  /** From 2^32 bytes on a file cannot be patched to itself: its one match does not fit. */
  lemma LongMatchIsLost(base: Bytes)
    requires P32 <= |base| < P64
    ensures !Faithful(base, base) && ApplyTo(base, DeltaOf(base, base)) != Done(base)
  {
    hide ApplyTo, DeltaOf, RollingHash32, Candidates, Extent, WindowsAgree;
    var h := RollingHash32(base[0..0 + CHUNK]);
    FirstCandidate(base, h, WindowCount(base));
    WholeExtent(base, CHUNK);
    DeltaRebuilds(base, base);
  }

  lemma {:induction false} FirstCandidate(base: Bytes, h: nat, n: nat)
    requires 0 < n && n + CHUNK <= |base| + 1 && h == RollingHash32(base[0..0 + CHUNK])
    ensures Candidates(base, h, n) != [] && Candidates(base, h, n)[0] == 0
    decreases n
  {
    hide RollingHash32;
    if n > 1 {
      FirstCandidate(base, h, n - 1);
    } else {
      assert Candidates(base, h, 0) == [];
    }
  }

  lemma {:induction false} WholeExtent(base: Bytes, length: nat)
    requires length <= |base|
    ensures Extent(base, base, 0, 0, length) == |base|
    decreases |base| - length
  {
    if length < |base| {
      WholeExtent(base, length + 1);
    }
  }

  function Window(s: Bytes, i: nat): Bytes
    requires i + CHUNK <= |s|
  {
    s[i..i + CHUNK]
  }

  /** Equal hashes of 16-byte windows mean equal windows. */
  ghost predicate NoWindowCollision(base: Bytes, target: Bytes) {
    forall i: nat, t: nat :: i + CHUNK <= |base| && t + CHUNK <= |target| &&
                             RollingHash32(Window(base, i)) == RollingHash32(Window(target, t)) ==>
                               Window(base, i) == Window(target, t)
  }

  lemma {:induction false} NoCollisionIsFaithful(base: Bytes, target: Bytes, t: nat)
    requires NoWindowCollision(base, target) && t <= |target|
    ensures WindowsAgree(base, target, t)
    decreases |target| - t
  {
    hide MatchAt, RollingHash32;
    if t < |target| {
      var m := MatchAt(base, target, t);
      if m.length >= CHUNK {
        MatchAgrees(base, target, t);
        assert Window(base, m.offset) == Window(target, t);
        NoCollisionIsFaithful(base, target, t + m.length);
      } else {
        NoCollisionIsFaithful(base, target, t + 1);
      }
    }
  }

  lemma {:induction false} SameHashAppend(x: Bytes, y: Bytes, z: Bytes)
    requires RollingHash32(x) == RollingHash32(y)
    ensures RollingHash32(x + z) == RollingHash32(y + z)
    decreases |z|
  {
    if z == [] {
      assert x + z == x && y + z == y;
    } else {
      var init := z[..|z| - 1];
      SameHashAppend(x, y, init);
      assert (x + z)[..|x + z| - 1] == x + init && (y + z)[..|y + z| - 1] == y + init;
    }
  }

  /** The one candidate in a base of one window. */
  lemma {:induction false} OnlyCandidate(base: Bytes, target: Bytes)
    requires |base| == CHUNK == |target| && RollingHash32(base) == RollingHash32(target)
    ensures MatchAt(base, target, 0) == Match(0, CHUNK)
  {
    hide RollingHash32;
    var h := RollingHash32(target);
    assert base[0..16] == base && target[0..16] == target;
    assert Candidates(base, h, 0) == [];
    assert Candidates(base, h, 1) == [] + [0];
    assert [0][..0] == [];
  }

  lemma CollidingPair()
    ensures RollingHash32([1, 0]) == RollingHash32([0, 31])
  {
    var x, y: Bytes := [1, 0], [0, 31];
    assert x[..1] == [1] && y[..1] == [0] && x[..1][..0] == [] && y[..1][..0] == [];
    assert RollingHash32(x[..1]) == 1 && RollingHash32(y[..1]) == 0;
  }

  /** Two windows that differ in their first bytes collide, and the delta rebuilds the base instead
      of the target. */
  lemma CollisionCorrupts(tail: Bytes)
    requires |tail| == 14
    ensures var base, target := [1, 0] + tail, [0, 31] + tail;
            !Faithful(base, target) && ApplyTo(base, DeltaOf(base, target)) != Done(target)
  {
    hide ApplyTo, DeltaOf, RollingHash32, MatchAt;
    var base, target: Bytes := [1, 0] + tail, [0, 31] + tail;
    CollidingPair();
    SameHashAppend([1, 0], [0, 31], tail);
    OnlyCandidate(base, target);
    assert base[0..CHUNK][0] == 1 && target[0..CHUNK][0] == 0;
    DeltaRebuilds(base, target);
  }
}
