/** `ComputeDelta` as it runs: insertions hold slices of the target, and merging them appends in
    place to the target's own array. */
module DeltaEncoder {
  import opened Common
  import opened Codec
  import opened Delta

  /** The data of an insertion is target[lo..lo + len]; its capacity reaches to the target's end. */
  datatype SliceOp = CopyOp(srcOffset: nat, length: U32) | InsertOp(length: U32, lo: nat, len: nat)

  predicate Within(op: SliceOp, n: nat) {
    op.InsertOp? ==> op.lo + op.len <= n
  }

  ghost predicate AllWithin(ops: seq<SliceOp>, n: nat) {
    forall i :: 0 <= i < |ops| ==> Within(ops[i], n)
  }

  ghost function Value(op: SliceOp, target: Bytes): DeltaOp
    requires Within(op, |target|)
  {
    match op
    case CopyOp(src, length) => Copy(src, length)
    case InsertOp(length, lo, len) => Insert(length, target[lo..lo + len])
  }

  ghost function Values(ops: seq<SliceOp>, target: Bytes): (v: seq<DeltaOp>)
    requires AllWithin(ops, |target|)
    ensures |v| == |ops| && forall i :: 0 <= i < |v| ==> v[i] == Value(ops[i], target)
  {
    seq(|ops|, i requires 0 <= i < |ops| => Value(ops[i], target))
  }

  method BuildHashIndex(data: Bytes) returns (index: map<nat, seq<nat>>)
    ensures forall h :: h in index ==> index[h] == Candidates(data, h, WindowCount(data)) && index[h] != []
    ensures forall h: nat :: h !in index ==> Candidates(data, h, WindowCount(data)) == []
  {
    hide RollingHash32;
    index := map[];
    if |data| < CHUNK {
      return;
    }
    var i := 0;
    while i <= |data| - CHUNK
      invariant 0 <= i <= WindowCount(data)
      invariant forall h :: h in index ==> index[h] == Candidates(data, h, i) && index[h] != []
      invariant forall h: nat :: h !in index ==> Candidates(data, h, i) == []
    {
      var h := RollingHash32(data[i..i + CHUNK]);
      index := index[h := (if h in index then index[h] else []) + [i]];
      i := i + 1;
    }
  }

  method FindBestMatch(base: Bytes, target: Bytes, t: nat, index: map<nat, seq<nat>>) returns (best: Match)
    requires t <= |target|
    requires forall h :: h in index ==> index[h] == Candidates(base, h, WindowCount(base)) && index[h] != []
    requires forall h: nat :: h !in index ==> Candidates(base, h, WindowCount(base)) == []
    ensures best == MatchAt(base, target, t)
  {
    hide RollingHash32, Candidates, Extent;
    best := Match(0, 0);
    if |target| - t < CHUNK {
      return;
    }
    var h := RollingHash32(target[t..t + CHUNK]);
    if h !in index {
      return;
    }
    var offsets := index[h];
    for i := 0 to |offsets|
      invariant best == Best(base, target, t, offsets[..i])
    {
      assert offsets[..i + 1][..i] == offsets[..i];
      var length := ExtendMatch(base, target, offsets[i], t);
      if length > best.length {
        best := Match(offsets[i], length);
      }
    }
    assert offsets[..|offsets|] == offsets;
  }

  /** Extends the match as far as possible. */
  method ExtendMatch(base: Bytes, target: Bytes, off: nat, t: nat) returns (length: nat)
    requires off + CHUNK <= |base| && t + CHUNK <= |target|
    ensures length == Extent(base, target, off, t, CHUNK)
  {
    length := CHUNK;
    while off + length < |base| && t + length < |target| && base[off + length] == target[t + length]
      invariant off + length <= |base| && t + length <= |target|
      invariant Extent(base, target, off, t, length) == Extent(base, target, off, t, CHUNK)
      decreases |target| - t - length
    {
      length := length + 1;
    }
  }

  /** Each insertion is one byte of the target, and they come in the target's order. */
  ghost predicate Ordered(ops: seq<SliceOp>, n: nat) {
    (forall i :: 0 <= i < |ops| && ops[i].InsertOp? ==> ops[i].length == 1 == ops[i].len && ops[i].lo < n) &&
    forall i, j :: 0 <= i < j < |ops| && ops[i].InsertOp? && ops[j].InsertOp? ==> ops[i].lo < ops[j].lo
  }

  /** No copy is empty, and neighbouring insertions are neighbours in the target. */
  ghost predicate Tight(ops: seq<SliceOp>) {
    (forall i :: 0 <= i < |ops| ==> ops[i].length > 0) &&
    forall i, j :: 0 <= i && j == i + 1 < |ops| && ops[i].InsertOp? && ops[j].InsertOp? ==> ops[j].lo == ops[i].lo + 1
  }

  /** How many bytes applying the operations gives. */
  ghost function LengthOf(ops: seq<SliceOp>): nat {
    if ops == [] then 0
    else LengthOf(ops[..|ops| - 1]) + (if ops[|ops| - 1].InsertOp? then ops[|ops| - 1].len else ops[|ops| - 1].length)
  }

  lemma LengthAppend(ops: seq<SliceOp>, op: SliceOp)
    ensures LengthOf(ops + [op]) == LengthOf(ops) + if op.InsertOp? then op.len else op.length
  {
    assert (ops + [op])[..|ops|] == ops;
  }

  /** Go's `append(target[lo:lo+len], target[from:from+k]...)` while it fits: writes into the array. */
  method AppendInPlace(target: array<Byte>, lo: nat, len: nat, from: nat, k: nat)
    requires lo + len + k <= target.Length && from + k <= target.Length
    modifies target
    ensures forall i :: 0 <= i < target.Length ==>
              target[i] == if lo + len <= i < lo + len + k then old(target[i - lo - len + from])
                           else old(target[i])
  {
    ghost var before := target[..];
    var copied := target[from..from + k];
    for i := 0 to k
      invariant forall j :: 0 <= j < target.Length ==>
                              target[j] == if lo + len <= j < lo + len + i then copied[j - lo - len] else before[j]
    {
      target[lo + len + i] := copied[i];
    }
  }

  /** Where the data of the last operation ends, if it is an insertion. */
  function LastEnd(ops: seq<SliceOp>): nat {
    if ops != [] && ops[|ops| - 1].InsertOp? then ops[|ops| - 1].lo + ops[|ops| - 1].len else 0
  }

  /** The last insertion with k more bytes. */
  function Extended(ops: seq<SliceOp>, op: SliceOp): seq<SliceOp>
    requires ops != [] && ops[|ops| - 1].InsertOp? && op.InsertOp?
  {
    var last := ops[|ops| - 1];
    ops[|ops| - 1 := InsertOp((last.length + op.length) % P32, last.lo, last.len + op.len)]
  }

  /** Merging into the last insertion, by value. */
  lemma MergedValues(ops: seq<SliceOp>, op: SliceOp, target: Bytes)
    requires AllWithin(ops, |target|) && ops != [] && ops[|ops| - 1].InsertOp? && op.InsertOp?
    requires op.lo == LastEnd(ops) && op.length > 0 && op.lo + op.len <= |target|
    ensures AllWithin(Extended(ops, op), |target|)
    ensures Values(Extended(ops, op), target) == Push(Values(ops, target), Value(op, target))
  {
    var last := ops[|ops| - 1];
    assert target[last.lo..last.lo + last.len + op.len] == target[last.lo..op.lo] + target[op.lo..op.lo + op.len];
  }

  lemma ExtendedLength(ops: seq<SliceOp>, op: SliceOp)
    requires ops != [] && ops[|ops| - 1].InsertOp? && op.InsertOp?
    ensures LengthOf(Extended(ops, op)) == LengthOf(ops) + op.len
  {
    assert Extended(ops, op)[..|ops| - 1] == ops[..|ops| - 1];
  }

  lemma AppendedValues(ops: seq<SliceOp>, op: SliceOp, target: Bytes)
    requires AllWithin(ops, |target|) && Within(op, |target|) && op.length > 0
    requires ops == [] || ops[|ops| - 1].CopyOp? || op.CopyOp?
    ensures AllWithin(ops + [op], |target|)
    ensures Values(ops + [op], target) == Push(Values(ops, target), Value(op, target))
  {
  }

  /** The insertions from the i-th operation on lie behind the position. */
  ghost predicate RoomBehind(ops: seq<SliceOp>, i: nat, end: nat) {
    forall j :: i <= j < |ops| && ops[j].InsertOp? ==> end <= ops[j].lo
  }

  /** The last merged operation ends with the data of the operation before the i-th. */
  ghost predicate EndsWith(result: seq<SliceOp>, ops: seq<SliceOp>, i: nat)
    requires i <= |ops|
  {
    if i == 0 then result == []
    else
      result != [] && (result[|result| - 1].InsertOp? <==> ops[i - 1].InsertOp?) &&
      (ops[i - 1].InsertOp? ==> LastEnd(result) == ops[i - 1].lo + 1)
  }

  /** One operation of the merging loop. */
  method CompactStep(target: array<Byte>, ops: seq<SliceOp>, i: nat, result: seq<SliceOp>)
    returns (result': seq<SliceOp>)
    requires i < |ops| && Ordered(ops, target.Length) && AllWithin(result, target.Length)
    requires RoomBehind(ops, i, LastEnd(result)) && (Tight(ops) ==> EndsWith(result, ops, i))
    modifies target
    ensures AllWithin(result', target.Length) && RoomBehind(ops, i + 1, LastEnd(result'))
    ensures LengthOf(result') == LengthOf(result) + if ops[i].InsertOp? then ops[i].len else ops[i].length
    ensures Tight(ops) ==> target[..] == old(target[..]) && EndsWith(result', ops, i + 1)
    ensures Tight(ops) ==> Values(result', target[..]) == Push(Values(result, target[..]), Value(ops[i], target[..]))
  {
    hide LengthOf, Push, Value;
    ghost var bytes := target[..];
    var op := ops[i];
    result' := result;
    if op.length == 0 {
      return;
    }
    if |result| > 0 && result[|result| - 1].InsertOp? && op.InsertOp? {
      var last := result[|result| - 1];
      AppendInPlace(target, last.lo, last.len, op.lo, op.len);
      result' := Extended(result, op);
      ExtendedLength(result, op);
      if Tight(ops) {
        assert ops[i - 1].InsertOp? && op.lo == ops[i - 1].lo + 1;
        assert target[..] == bytes;
        MergedValues(result, op, bytes);
      }
    } else {
      result' := result + [op];
      LengthAppend(result, op);
      AppendedValues(result, op, target[..]);
    }
  }

  /** Merges consecutive insertions. The appends write into the target. If no copy is empty they only
      write bytes that are already there, because the next insertion's data lies right behind the last
      one's; in any case as many bytes are copied and inserted as before. */
  method CompactOps(target: array<Byte>, ops: seq<SliceOp>) returns (result: seq<SliceOp>)
    requires Ordered(ops, target.Length) && AllWithin(ops, target.Length)
    modifies target
    ensures AllWithin(result, target.Length) && LengthOf(result) == LengthOf(ops)
    ensures Tight(ops) ==> target[..] == old(target[..])
    ensures Tight(ops) ==> Values(result, target[..]) == Merged(Values(ops, target[..]))
  {
    hide Value, Push, LengthOf, Ordered, Tight, EndsWith;
    ghost var bytes := target[..];
    ghost var values := Values(ops, bytes);
    if |ops| <= 1 {
      return ops;
    }
    result := [];
    NothingMerged(ops);
    for i := 0 to |ops|
      invariant AllWithin(result, target.Length) && LengthOf(result) == LengthOf(ops[..i])
      invariant RoomBehind(ops, i, LastEnd(result)) && (Tight(ops) ==> EndsWith(result, ops, i))
      invariant Tight(ops) ==>
        target[..] == bytes && PushAll(Values(result, bytes), values[i..]) == PushAll([], values)
    {
      assert ops[..i + 1] == ops[..i] + [ops[i]];
      LengthAppend(ops[..i], ops[i]);
      assert values[i..][0] == Value(ops[i], bytes) && values[i..][1..] == values[i + 1..];
      result := CompactStep(target, ops, i, result);
    }
    assert ops[..|ops|] == ops;
  }

  lemma NothingMerged(ops: seq<SliceOp>)
    ensures ops[..0] == [] && LengthOf([]) == 0 && LastEnd([]) == 0 && RoomBehind(ops, 0, 0) && EndsWith([], ops, 0)
  {
  }

  /** Without a wrapped length the target is unchanged and the operations, read through the slices they
      hold, are the delta; with one, applying them gives fewer bytes than the target has. */
  method ComputeDelta(base: Bytes, target: array<Byte>) returns (ops: seq<SliceOp>)
    modifies target
    ensures AllWithin(ops, target.Length) && LengthOf(ops) <= target.Length
    ensures LengthOf(ops) == target.Length <==> base == [] || MatchesFit(base, old(target[..]), 0)
    ensures base == [] || MatchesFit(base, old(target[..]), 0) ==>
              target[..] == old(target[..]) && Values(ops, target[..]) == DeltaOf(base, target[..])
  {
    hide RawOps, Merged, MatchAt, MatchesFit;
    ghost var bytes := target[..];
    if base == [] {
      ops := [InsertOp(target.Length % P32, 0, target.Length)];
      assert bytes[0..0 + target.Length] == bytes;
      assert ops[..0] == [];
      return;
    }
    var raw := EncodeRaw(base, target);
    ops := CompactOps(target, raw);
  }

  method EncodeRaw(base: Bytes, target: array<Byte>) returns (ops: seq<SliceOp>)
    ensures Ordered(ops, target.Length) && AllWithin(ops, target.Length)
    ensures LengthOf(ops) <= target.Length
    ensures LengthOf(ops) == target.Length <==> MatchesFit(base, target[..], 0)
    ensures MatchesFit(base, target[..], 0) ==> Tight(ops)
    ensures Values(ops, target[..]) == RawOps(base, target[..], 0)
  {
    hide MatchAt, LengthOf, Tight, Ordered, RawOps, MatchesFit;
    ops := [];
    var tPos := 0;
    var baseIndex := BuildHashIndex(base);
    ghost var bytes := target[..];
    NothingEncoded(base, bytes);
    while tPos < target.Length
      invariant tPos <= target.Length
      invariant Encoding(ops, tPos, target.Length) && AllWithin(ops, target.Length)
      invariant LengthOf(ops) <= tPos
      invariant MatchesFit(base, bytes, 0) <==> LengthOf(ops) == tPos && MatchesFit(base, bytes, tPos)
      invariant LengthOf(ops) == tPos ==> Tight(ops)
      invariant Values(ops, bytes) + RawOps(base, bytes, tPos) == RawOps(base, bytes, 0)
      decreases target.Length - tPos
    {
      var bestMatch := FindBestMatch(base, target[..], tPos, baseIndex);
      var op, n := InsertOp(1, tPos, 1), 1;
      if bestMatch.length >= CHUNK {
        op, n := CopyOp(bestMatch.offset, bestMatch.length % P32), bestMatch.length;
      }
      EncodedStep(base, bytes, tPos, ops, op, n);
      EncodedFit(base, bytes, tPos, n);
      EncodingStep(ops, tPos, target.Length, op, n);
      LengthAppend(ops, op);
      ops := ops + [op];
      tPos := tPos + n;
    }
    EndFits(base, bytes);
  }

  /** The operations so far stand for the bytes before p. */
  ghost predicate Encoding(ops: seq<SliceOp>, p: nat, n: nat) {
    Ordered(ops, n) && (forall i :: 0 <= i < |ops| && ops[i].InsertOp? ==> ops[i].lo < p) &&
    (ops != [] && ops[|ops| - 1].InsertOp? ==> LastEnd(ops) == p)
  }

  lemma EncodingStep(ops: seq<SliceOp>, p: nat, n: nat, op: SliceOp, k: nat)
    requires Encoding(ops, p, n) && p + k <= n && k > 0
    requires op.InsertOp? ==> op == InsertOp(1, p, 1) && k == 1
    ensures Encoding(ops + [op], p + k, n)
    ensures Tight(ops) && op.length > 0 ==> Tight(ops + [op])
  {
  }

  lemma EncodedStep(base: Bytes, bytes: Bytes, t: nat, ops: seq<SliceOp>, op: SliceOp, n: nat)
    requires t < |bytes| && AllWithin(ops, |bytes|)
    requires var m := MatchAt(base, bytes, t);
             if m.length >= CHUNK then op == CopyOp(m.offset, m.length % P32) && n == m.length
             else op == InsertOp(1, t, 1) && n == 1
    ensures t + n <= |bytes| && AllWithin(ops + [op], |bytes|)
    ensures Values(ops + [op], bytes) + RawOps(base, bytes, t + n) == Values(ops, bytes) + RawOps(base, bytes, t)
  {
    hide MatchAt;
    assert RawOps(base, bytes, t) == [Value(op, bytes)] + RawOps(base, bytes, t + n);
    assert Values(ops + [op], bytes) == Values(ops, bytes) + [Value(op, bytes)];
  }

  lemma EncodedFit(base: Bytes, bytes: Bytes, t: nat, n: nat)
    requires t < |bytes|
    requires var m := MatchAt(base, bytes, t); n == if m.length >= CHUNK then m.length else 1
    ensures t + n <= |bytes|
    ensures MatchesFit(base, bytes, t) <==>
            (MatchAt(base, bytes, t).length >= CHUNK ==> n < P32) && MatchesFit(base, bytes, t + n)
  {
    hide MatchAt;
  }

  lemma NothingEncoded(base: Bytes, bytes: Bytes)
    ensures Encoding([], 0, |bytes|) && Tight([]) && LengthOf([]) == 0
  {
  }

  lemma EndFits(base: Bytes, bytes: Bytes)
    ensures RawOps(base, bytes, |bytes|) == [] && MatchesFit(base, bytes, |bytes|)
  {
  }

  /** What applying the operations gives has their common length. */
  lemma {:induction false} AppliedLength(base: Bytes, ops: seq<SliceOp>, target: Bytes)
    requires AllWithin(ops, |target|) && |base| < P64
    requires ApplyTo(base, Values(ops, target)).Done?
    ensures |ApplyTo(base, Values(ops, target)).bytes| == LengthOf(ops)
    decreases |ops|
  {
    hide ApplyOp;
    if ops != [] {
      var init, last := ops[..|ops| - 1], ops[|ops| - 1];
      assert Values(ops, target) == Values(init, target) + [Value(last, target)];
      ApplyConcat(base, Values(init, target), [Value(last, target)]);
      ApplySingle(base, Value(last, target));
      AppliedLength(base, init, target);
      OpLength(base, Value(last, target));
    }
  }

  lemma OpLength(base: Bytes, op: DeltaOp)
    requires ApplyOp(base, op).Done? && |base| < P64 && (op.Copy? ==> op.length < P64)
    ensures |ApplyOp(base, op).bytes| == if op.Copy? then op.length else |op.data|
  {
  }
}
