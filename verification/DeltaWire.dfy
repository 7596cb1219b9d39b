/** The wire form of deltas, and patching. */
module DeltaWire {
  import opened Common
  import opened Codec
  import opened Delta

  predicate InRange(op: DeltaOp) {
    match op
    case Copy(src, length) => src < P64 && length < P32
    case Insert(length, data) => length == |data| < P32
  }

  ghost predicate AllInRange(ops: seq<DeltaOp>) {
    forall i :: 0 <= i < |ops| ==> InRange(ops[i])
  }

  function EncodeOp(op: DeltaOp): (b: Bytes)
    ensures |b| > 0
  {
    match op
    case Copy(src, length) => [0] + PutBE(src, 8) + PutBE(length, 4)
    case Insert(_, data) => [1] + PutBE(|data|, 4) + data
  }

  function Encoded(ops: seq<DeltaOp>): Bytes {
    if ops == [] then [] else EncodeOp(ops[0]) + Encoded(ops[1..])
  }

  datatype Front = Front(op: DeltaOp, size: nat)

  /** The operation at the front; None for an unknown type or bytes that end too early. */
  function DecodeOp(d: Bytes): (r: Option<Front>)
    requires d != []
    ensures r.Some? ==> 0 < r.value.size <= |d|
  {
    if d[0] == 0 then
      if |d| < 13 then None else Some(Front(Copy(GetBE(d[1..9]), GetBE(d[9..13])), 13))
    else if d[0] == 1 then
      if |d| < 5 then None
      else
        var n := GetBE(d[1..5]);
        if 5 + n > |d| then None else Some(Front(Insert(n, d[5..5 + n]), 5 + n))
    else None
  }

  function Decoded(d: Bytes): Result<seq<DeltaOp>>
    decreases |d|
  {
    if d == [] then Ok([])
    else match DecodeOp(d)
      case None => Err
      case Some(f) => match Decoded(d[f.size..])
        case Err => Err
        case Ok(rest) => Ok([f.op] + rest)
  }

  lemma OpRoundTrip(op: DeltaOp, tail: Bytes)
    requires InRange(op)
    ensures DecodeOp(EncodeOp(op) + tail) == Some(Front(op, |EncodeOp(op)|))
  {
    hide PutBE, GetBE;
    Widths();
    var d := EncodeOp(op) + tail;
    match op
    case Copy(src, length) =>
      GetPut(src, 8);
      GetPut(length, 4);
      assert d[1..9] == PutBE(src, 8) && d[9..13] == PutBE(length, 4);
    case Insert(length, data) =>
      GetPut(length, 4);
      assert d[1..5] == PutBE(length, 4) && d[5..5 + length] == data;
  }

  lemma OpCanonical(d: Bytes)
    requires d != [] && DecodeOp(d).Some?
    ensures var f := DecodeOp(d).value; InRange(f.op) && EncodeOp(f.op) == d[..f.size]
  {
    hide PutBE, GetBE;
    Widths();
    if d[0] == 0 {
      PutGet(d[1..9]);
      PutGet(d[9..13]);
      assert d[..13] == [d[0]] + d[1..9] + d[9..13];
    } else {
      PutGet(d[1..5]);
      var n := GetBE(d[1..5]);
      assert d[..5 + n] == [d[0]] + d[1..5] + d[5..5 + n];
    }
  }

  /** Where the fields of an operation lie: a type byte, then an eight-byte offset and a four-byte length,
      or a four-byte length and the data. */
  lemma OpLayout(op: DeltaOp)
    ensures var b := EncodeOp(op);
            match op
            case Copy(src, length) => |b| == 13 && b[0] == 0 && b[1..9] == PutBE(src, 8) && b[9..] == PutBE(length, 4)
            case Insert(_, data) => |b| == 5 + |data| && b[0] == 1 && b[1..5] == PutBE(|data|, 4) && b[5..] == data
  {
    hide PutBE;
    match op
    case Copy(src, length) =>
      assert EncodeOp(op) == [0] + (PutBE(src, 8) + PutBE(length, 4));
    case Insert(_, data) =>
      assert EncodeOp(op) == [1] + (PutBE(|data|, 4) + data);
  }

  /** Decoding an encoding returns the operations. */
  lemma {:induction false} DecodeEncoded(ops: seq<DeltaOp>)
    requires AllInRange(ops)
    ensures Decoded(Encoded(ops)) == Ok(ops)
    decreases |ops|
  {
    hide EncodeOp, DecodeOp;
    if ops != [] {
      var enc, rest := EncodeOp(ops[0]), Encoded(ops[1..]);
      OpRoundTrip(ops[0], rest);
      assert (enc + rest)[|enc|..] == rest;
      DecodeEncoded(ops[1..]);
      var d := enc + rest;
      assert d != [] && DecodeOp(d) == Some(Front(ops[0], |enc|));
      assert Decoded(d[|enc|..]) == Ok(ops[1..]);
      assert ops == [ops[0]] + ops[1..];
    }
  }

  /** Re-encoding whatever is accepted returns the accepted bytes: the form is canonical. */
  lemma {:induction false} EncodeDecoded(d: Bytes)
    requires Decoded(d).Ok?
    ensures AllInRange(Decoded(d).value) && Encoded(Decoded(d).value) == d
    decreases |d|
  {
    hide EncodeOp, DecodeOp;
    if d != [] {
      OpCanonical(d);
      var f := DecodeOp(d).value;
      EncodeDecoded(d[f.size..]);
      var rest := Decoded(d[f.size..]).value;
      assert ([f.op] + rest)[1..] == rest;
      assert d == d[..f.size] + d[f.size..];
    }
  }

  method EncodeDelta(ops: seq<DeltaOp>) returns (buf: Bytes)
    ensures buf == Encoded(ops)
  {
    hide EncodeOp;
    buf := [];
    for i := 0 to |ops|
      invariant buf + Encoded(ops[i..]) == Encoded(ops)
    {
      assert ops[i..][0] == ops[i] && ops[i..][1..] == ops[i + 1..];
      buf := buf + EncodeOp(ops[i]);
    }
  }

  method DecodeDelta(data: Bytes) returns (r: Result<seq<DeltaOp>>)
    ensures r == Decoded(data)
  {
    hide DecodeOp;
    var ops := [];
    var pos := 0;
    assert data[0..] == data;
    BehindNone(Decoded(data));
    while pos < |data|
      invariant pos <= |data|
      invariant Decoded(data) == Behind(ops, Decoded(data[pos..]))
      decreases |data| - pos
    {
      match DecodeOp(data[pos..])
      case None =>
        return Err;
      case Some(f) =>
        var d := data[pos..];
        assert d[f.size..] == data[pos + f.size..];
        assert Decoded(d) == Behind([f.op], Decoded(d[f.size..]));
        BehindTwice(ops, [f.op], Decoded(d[f.size..]));
        ops := ops + [f.op];
        pos := pos + f.size;
    }
    assert data[pos..] == [] && ops + [] == ops;
    r := Ok(ops);
  }

  method ApplyDelta(base: Bytes, ops: seq<DeltaOp>) returns (r: Outcome)
    ensures r == ApplyTo(base, ops)
  {
    hide ApplyOp;
    var result := [];
    for i := 0 to |ops|
      invariant Then(Done(result), ApplyTo(base, ops[i..])) == ApplyTo(base, ops)
    {
      assert ops[i..][0] == ops[i] && ops[i..][1..] == ops[i + 1..];
      assert ApplyTo(base, ops[i..]) == Then(ApplyOp(base, ops[i]), ApplyTo(base, ops[i + 1..]));
      ThenAssociates(Done(result), ApplyOp(base, ops[i]), ApplyTo(base, ops[i + 1..]));
      match ApplyOp(base, ops[i])
      case Done(piece) => result := result + piece;
      case Failed => return Failed;
      case Panics => return Panics;
    }
    assert result + [] == result;
    r := Done(result);
  }

  function Patched(base: Bytes, delta: Bytes): Outcome {
    match Decoded(delta)
    case Err => Failed
    case Ok(ops) => ApplyTo(base, ops)
  }

  method Patch(base: Bytes, delta: Bytes) returns (r: Outcome)
    ensures r == Patched(base, delta)
  {
    var ops := DecodeDelta(delta);
    match ops
    case Err => r := Failed;
    case Ok(o) => r := ApplyDelta(base, o);
  }

  function PatchedBy(base: Bytes, deltas: seq<Bytes>): Outcome
    decreases |deltas|
  {
    if deltas == [] then Done(base)
    else match Patched(base, deltas[0])
      case Done(next) => PatchedBy(next, deltas[1..])
      case Failed => Failed
      case Panics => Panics
  }

  method PatchMultiple(base: Bytes, deltas: seq<Bytes>) returns (r: Outcome)
    ensures r == PatchedBy(base, deltas)
  {
    hide Patched;
    var current := base;
    for i := 0 to |deltas|
      invariant PatchedBy(current, deltas[i..]) == PatchedBy(base, deltas)
    {
      assert deltas[i..][0] == deltas[i] && deltas[i..][1..] == deltas[i + 1..];
      var next := Patch(current, deltas[i]);
      match next
      case Done(bytes) => current := bytes;
      case Failed => return Failed;
      case Panics => return Panics;
    }
    r := Done(current);
  }

  // ---------------------------------------------------------------------------------------------
  // Computed deltas fit the wire form
  // ---------------------------------------------------------------------------------------------

  /** Insertions say their own length, and copies start within n. */
  ghost predicate CopiesFit(ops: seq<DeltaOp>, n: nat) {
    forall i :: 0 <= i < |ops| ==> if ops[i].Copy? then ops[i].srcOffset <= n else ops[i].length == |ops[i].data|
  }

  ghost function SumOf(ops: seq<DeltaOp>): nat {
    if ops == [] then 0 else SumOf(ops[..|ops| - 1]) + ops[|ops| - 1].length
  }

  lemma {:induction false} EachBelowSum(ops: seq<DeltaOp>, i: nat)
    requires i < |ops|
    ensures ops[i].length <= SumOf(ops)
    decreases |ops|
  {
    if i < |ops| - 1 {
      EachBelowSum(ops[..|ops| - 1], i);
    }
  }

  lemma PushSum(ops: seq<DeltaOp>, op: DeltaOp)
    requires SumOf(ops) + op.length < P32
    ensures SumOf(Push(ops, op)) == SumOf(ops) + op.length
  {
    if op.length == 0 {
    } else if ops != [] && ops[|ops| - 1].Insert? && op.Insert? {
      EachBelowSum(ops, |ops| - 1);
      var p := Push(ops, op);
      assert p[..|p| - 1] == ops[..|ops| - 1];
    } else {
      assert (ops + [op])[..|ops|] == ops;
    }
  }

  lemma PushFits(ops: seq<DeltaOp>, op: DeltaOp, n: nat)
    requires CopiesFit(ops, n) && CopiesFit([op], n) && SumOf(ops) + op.length < P32
    ensures CopiesFit(Push(ops, op), n)
  {
    hide SumOf;
    assert op == [op][0];
    if ops != [] {
      EachBelowSum(ops, |ops| - 1);
    }
  }

  lemma {:induction false} PushAllFits(base: Bytes, target: Bytes, ops: seq<DeltaOp>, t: nat, n: nat)
    requires t <= |target| && |base| <= n && CopiesFit(ops, n) && SumOf(ops) + |target| - t < P32
    ensures CopiesFit(PushAll(ops, RawOps(base, target, t)), n)
    ensures SumOf(PushAll(ops, RawOps(base, target, t))) == SumOf(ops) + |target| - t
    decreases |target| - t
  {
    hide MatchAt, SumOf, Push;
    if t < |target| {
      var m := MatchAt(base, target, t);
      var op, k := Insert(1, target[t..t + 1]), 1;
      if m.length >= CHUNK {
        op, k := Copy(m.offset, m.length), m.length;
      }
      var raw := RawOps(base, target, t);
      assert raw[0] == op && raw[1..] == RawOps(base, target, t + k);
      PushSum(ops, op);
      PushFits(ops, op, n);
      PushAllFits(base, target, Push(ops, op), t + k, n);
    }
  }

  /** One raw operation fits as it is. */
  lemma SingleFits(base: Bytes, target: Bytes)
    requires |target| < P32 && |RawOps(base, target, 0)| <= 1
    ensures CopiesFit(RawOps(base, target, 0), |base|)
    ensures forall i :: 0 <= i < |RawOps(base, target, 0)| ==> RawOps(base, target, 0)[i].length < P32
  {
    hide MatchAt;
  }

  lemma DeltaInRange(base: Bytes, target: Bytes)
    requires |base| < P64 && |target| < P32
    ensures AllInRange(DeltaOf(base, target))
  {
    hide RawOps, PushAll, SumOf;
    if base != [] && |RawOps(base, target, 0)| <= 1 {
      SingleFits(base, target);
    } else if base != [] {
      SumEmpty();
      PushAllFits(base, target, [], 0, |base|);
      var ops := DeltaOf(base, target);
      forall i | 0 <= i < |ops|
        ensures InRange(ops[i])
      {
        EachBelowSum(ops, i);
      }
    }
  }

  lemma SumEmpty()
    ensures SumOf([]) == 0
  {
  }

  /** Patching the base with the encoded delta gives the target exactly when no copied window was a
      mere collision of hashes. */
  lemma PatchRestores(base: Bytes, target: Bytes)
    requires |base| < P64 && |target| < P32
    ensures var r := Patched(base, Encoded(DeltaOf(base, target)));
            r.Done? && |r.bytes| == |target| &&
            (r.bytes == target <==> base == [] || WindowsAgree(base, target, 0)) &&
            (r.bytes == target <==> Faithful(base, target))
  {
    hide ApplyTo, DeltaOf, Encoded, Decoded, WindowsAgree, MatchesFit;
    ShortMatchesFit(base, target, 0);
    DeltaInRange(base, target);
    DecodeEncoded(DeltaOf(base, target));
    DeltaRebuilds(base, target);
  }

  /** Each version's delta against the one before. */
  ghost function DeltaChain(base: Bytes, versions: seq<Bytes>): seq<Bytes>
    decreases |versions|
  {
    if versions == [] then []
    else [Encoded(DeltaOf(base, versions[0]))] + DeltaChain(versions[0], versions[1..])
  }

  ghost predicate ChainFaithful(base: Bytes, versions: seq<Bytes>)
    decreases |versions|
  {
    |base| < P64 &&
    (versions != [] ==> |versions[0]| < P32 && Faithful(base, versions[0]) && ChainFaithful(versions[0], versions[1..]))
  }

  /** Applying the deltas in turn reaches the last version. */
  lemma {:induction false} ChainReachesLast(base: Bytes, versions: seq<Bytes>)
    requires ChainFaithful(base, versions)
    ensures PatchedBy(base, DeltaChain(base, versions)) ==
            Done(if versions == [] then base else versions[|versions| - 1])
    decreases |versions|
  {
    hide Patched, DeltaOf, Encoded, Faithful;
    if versions != [] {
      PatchRestores(base, versions[0]);
      ChainReachesLast(versions[0], versions[1..]);
      var deltas := DeltaChain(base, versions);
      assert deltas[1..] == DeltaChain(versions[0], versions[1..]);
    }
  }
}
