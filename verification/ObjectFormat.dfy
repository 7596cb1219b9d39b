/** The serialized form of objects: `<type> <size>` and a zero byte before the content, and tree
    entries `<octal mode> <name>`, a zero byte and a raw hash. */
module ObjectFormat {
  import opened Common

  const SPACE: Byte := 32
  const NUL: Byte := 0

  // ---------------------------------------------------------------------------------------------
  // Numbers in text
  // ---------------------------------------------------------------------------------------------

  datatype Radix = Octal | Decimal

  function Base(r: Radix): nat { match r case Octal => 8 case Decimal => 10 }

  function Tenth(n: nat, r: Radix): nat { match r case Octal => n / 8 case Decimal => n / 10 }

  function LastDigit(n: nat, r: Radix): (d: nat)
    ensures d < Base(r)
  {
    match r case Octal => n % 8 case Decimal => n % 10
  }

  function Extend(n: nat, d: nat, r: Radix): nat { match r case Octal => 8 * n + d case Decimal => 10 * n + d }

  function Digits(n: nat, r: Radix): (d: Bytes)
    ensures d != [] && forall i :: 0 <= i < |d| ==> 48 <= d[i] < 48 + Base(r)
    decreases n
  {
    if n < Base(r) then [48 + n] else Digits(Tenth(n, r), r) + [48 + LastDigit(n, r)]
  }

  /** The number a non-empty run of digits stands for. */
  function Number(d: Bytes, r: Radix): Option<nat> {
    if d == [] then None
    else
      var last := d[|d| - 1];
      if !(48 <= last < 48 + Base(r)) then None
      else if |d| == 1 then Some(last - 48)
      else match Number(d[..|d| - 1], r)
        case None => None
        case Some(n) => Some(Extend(n, last - 48, r))
  }

  lemma {:induction false} NumberOfDigits(n: nat, r: Radix)
    ensures Number(Digits(n, r), r) == Some(n)
    decreases n
  {
    var d := Digits(n, r);
    if n >= Base(r) {
      NumberOfDigits(Tenth(n, r), r);
      assert d[..|d| - 1] == Digits(Tenth(n, r), r);
      assert Extend(Tenth(n, r), LastDigit(n, r), r) == n;
    }
  }

  /** Position of the first occurrence of a byte, or the length if there is none. */
  function IndexByte(d: Bytes, b: Byte): (i: nat)
    ensures i <= |d| && forall j :: 0 <= j < i ==> d[j] != b
    ensures i < |d| ==> d[i] == b
  {
    if d == [] || d[0] == b then 0 else 1 + IndexByte(d[1..], b)
  }

  lemma IndexOf(x: Bytes, b: Byte, y: Bytes)
    requires forall j :: 0 <= j < |x| ==> x[j] != b
    ensures IndexByte(x + [b] + y, b) == |x|
  {
    var d := x + [b] + y;
    var i := IndexByte(d, b);
    assert d[|x|] == b;
    assert forall j :: 0 <= j < |x| ==> d[j] == x[j];
  }

  // ---------------------------------------------------------------------------------------------
  // Objects
  // ---------------------------------------------------------------------------------------------

  datatype ObjectType = BlobType | TreeType | CommitType | TagType

  function TypeName(t: ObjectType): (name: Bytes)
    ensures forall j :: 0 <= j < |name| ==> name[j] != SPACE && name[j] != NUL
  {
    match t
    case BlobType => [98, 108, 111, 98]
    case TreeType => [116, 114, 101, 101]
    case CommitType => [99, 111, 109, 109, 105, 116]
    case TagType => [116, 97, 103]
  }

  function TypeOfName(name: Bytes): Option<ObjectType> {
    if name == TypeName(BlobType) then Some(BlobType)
    else if name == TypeName(TreeType) then Some(TreeType)
    else if name == TypeName(CommitType) then Some(CommitType)
    else if name == TypeName(TagType) then Some(TagType)
    else None
  }

  function Format(t: ObjectType, content: Bytes): Bytes {
    TypeName(t) + [SPACE] + Digits(|content|, Decimal) + [NUL] + content
  }

  datatype Header = Header(kind: ObjectType, size: nat, offset: nat)

  function ParseHeader(data: Bytes): (r: Result<Header>)
    ensures r.Ok? ==> r.value.offset <= |data|
  {
    var nul := IndexByte(data, NUL);
    if nul == |data| then Err
    else
      var header := data[..nul];
      var sp := IndexByte(header, SPACE);
      if sp == |header| then Err
      else match TypeOfName(header[..sp])
        case None => Err
        case Some(t) => match Number(header[sp + 1..], Decimal)
          case None => Err
          case Some(n) => Ok(Header(t, n, nul + 1))
  }

  lemma LongerDigits(q: nat, d: nat, r: Radix)
    requires q > 0 && d < Base(r)
    ensures Digits(Extend(q, d, r), r) == Digits(q, r) + [48 + d]
  {
  }

  /** The text of a number and of a header: 1204, and a blob of two bytes. */
  lemma HeaderText()
    ensures Digits(1204, Decimal) == [49, 50, 48, 52]
    ensures Format(BlobType, [104, 105]) == [98, 108, 111, 98, 32, 50, 0, 104, 105]
  {
    assert Digits(1, Decimal) == [49] && Digits(2, Decimal) == [50];
    hide Digits;
    LongerDigits(1, 2, Decimal);
    LongerDigits(12, 0, Decimal);
    LongerDigits(120, 4, Decimal);
  }

  lemma TypeNames(t: ObjectType)
    ensures TypeOfName(TypeName(t)) == Some(t)
  {
  }

  lemma HeaderRoundTrip(t: ObjectType, content: Bytes)
    ensures var data := Format(t, content);
            ParseHeader(data).Ok? &&
            var h := ParseHeader(data).value;
            h.kind == t && h.size == |content| && data[h.offset..] == content
  {
    hide TypeName, TypeOfName, Digits, Number, IndexByte;
    var name, digits := TypeName(t), Digits(|content|, Decimal);
    var header := name + [SPACE] + digits;
    var data := Format(t, content);
    assert data == header + [NUL] + content;
    IndexOf(header, NUL, content);
    IndexOf(name, SPACE, digits);
    assert data[..|header|] == header;
    assert header[..|name|] == name && header[|name| + 1..] == digits;
    TypeNames(t);
    NumberOfDigits(|content|, Decimal);
  }

  /** Up to the first zero byte, a type and a size with a space between. */
  ghost predicate HeaderOf(data: Bytes, kind: ObjectType, size: nat, offset: nat) {
    exists digits: Bytes :: SPACE !in digits && NUL !in digits && Number(digits, Decimal) == Some(size) &&
                            offset <= |data| && data[..offset] == TypeName(kind) + [SPACE] + digits + [NUL]
  }

  lemma {:induction false} NumberText(digits: Bytes, r: Radix)
    requires Number(digits, r).Some?
    ensures SPACE !in digits && NUL !in digits
    decreases |digits|
  {
    var n := |digits| - 1;
    if n > 0 {
      NumberText(digits[..n], r);
      assert digits == digits[..n] + [digits[n]];
    }
  }

  lemma TypeOfNames(name: Bytes, t: ObjectType)
    ensures TypeOfName(name) == Some(t) <==> name == TypeName(t)
  {
  }

  /** A header is accepted exactly if it has that form. */
  lemma {:induction false} HeaderExactly(data: Bytes, kind: ObjectType, size: nat, offset: nat)
    ensures ParseHeader(data) == Ok(Header(kind, size, offset)) <==> HeaderOf(data, kind, size, offset)
  {
    hide TypeName, TypeOfName, Number, IndexByte;
    if ParseHeader(data) == Ok(Header(kind, size, offset)) {
      var nul := IndexByte(data, NUL);
      var header := data[..nul];
      var sp := IndexByte(header, SPACE);
      TypeOfNames(header[..sp], kind);
      NumberText(header[sp + 1..], Decimal);
      assert header == header[..sp] + [SPACE] + header[sp + 1..];
      assert data[..offset] == header + [NUL];
    }
    if HeaderOf(data, kind, size, offset) {
      var digits: Bytes :| SPACE !in digits && NUL !in digits && Number(digits, Decimal) == Some(size) &&
                           data[..offset] == TypeName(kind) + [SPACE] + digits + [NUL];
      var name := TypeName(kind);
      var header := name + [SPACE] + digits;
      assert data == header + [NUL] + data[offset..];
      IndexOf(header, NUL, data[offset..]);
      IndexOf(name, SPACE, digits);
      assert data[..|header|] == header;
      assert header[..|name|] == name && header[|name| + 1..] == digits;
      TypeOfNames(name, kind);
    }
  }

  lemma FormatInjective(t: ObjectType, c: Bytes, t': ObjectType, c': Bytes)
    requires Format(t, c) == Format(t', c')
    ensures t == t' && c == c'
  {
    hide Format, ParseHeader;
    HeaderRoundTrip(t, c);
    HeaderRoundTrip(t', c');
  }
}
