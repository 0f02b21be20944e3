/** `_varint` and `_protobuf_fields`: the reader of protobuf messages, with the encoder it inverts. */
module Protobuf {
  import opened Wrappers

  type Byte = n: nat | n < 256

  function Pow2(k: nat): (r: nat)
    ensures r >= 1
  {
    if k == 0 then 1 else 2 * Pow2(k - 1)
  }

  /** Bitwise or of non-negative integers. */
  function BitOr(a: nat, b: nat): nat {
    if a == 0 && b == 0 then 0
    else 2 * BitOr(a / 2, b / 2) + (if a % 2 == 1 || b % 2 == 1 then 1 else 0)
  }

  lemma {:induction false} OrWithZero(b: nat)
    ensures BitOr(0, b) == b
  {
    if b != 0 { OrWithZero(b / 2); }
  }

  /** Or-ing a block shifted past the bits of `a` is addition. */
  lemma {:induction false} OrOfDisjointBits(a: nat, b: nat, k: nat)
    requires a < Pow2(k)
    ensures BitOr(a, b * Pow2(k)) == a + b * Pow2(k)
  {
    if k == 0 {
      OrWithZero(b);
    } else {
      var half := b * Pow2(k - 1);
      assert b * Pow2(k) == 2 * half;
      OrOfDisjointBits(a / 2, b, k - 1);
    }
  }

  // ----- varints

  /** The base-128 number at `position` and the position behind it; `None` where Python raises an index error. */
  function VarintAt(data: seq<Byte>, position: nat): (r: Option<(nat, nat)>)
    ensures r.Some? ==> position < r.value.1 <= |data|
    decreases |data| - position
  {
    if position >= |data| then None
    else if data[position] < 128 then Some((data[position], position + 1))
    else match VarintAt(data, position + 1)
      case None => None
      case Some((high, next)) => Some((data[position] - 128 + 128 * high, next))
  }

  /** The value once the low `shift` bits have been read. */
  ghost function Combine(low: nat, shift: nat, rest: Option<(nat, nat)>): Option<(nat, nat)> {
    match rest
    case None => None
    case Some((high, next)) => Some((low + high * Pow2(shift), next))
  }

  lemma {:induction false} PowAdds(a: nat, b: nat)
    ensures Pow2(a + b) == Pow2(a) * Pow2(b)
  {
    if b > 0 {
      PowAdds(a, b - 1);
      assert Pow2(a + b) == 2 * Pow2(a + (b - 1));
    }
  }

  /** Reading one more byte moves it from the rest into the low bits. */
  lemma CombineStep(low: nat, shift: nat, byte: Byte, rest: Option<(nat, nat)>)
    requires low < Pow2(shift) && byte >= 128
    ensures low + (byte - 128) * Pow2(shift) < Pow2(shift + 7)
    ensures Combine(low + (byte - 128) * Pow2(shift), shift + 7, rest)
      == match rest
         case None => None
         case Some((high, next)) => Combine(low, shift, Some((byte - 128 + 128 * high, next)))
  {
    PowAdds(shift, 7);
    assert Pow2(7) == 128;
    var p := Pow2(shift);
    assert (byte - 128) * p <= 127 * p;
    if rest.Some? {
      var high := rest.value.0;
      assert high * (p * 128) == (128 * high) * p;
      assert (byte - 128 + 128 * high) * p == (byte - 128) * p + (128 * high) * p;
    }
  }

  /** What the loop body stores: the or of the shifted block. */
  function Absorb(value: nat, byte: Byte, shift: nat): nat {
    BitOr(value, (byte % 128) * Pow2(shift))
  }

  lemma AbsorbAdds(value: nat, byte: Byte, shift: nat)
    requires value < Pow2(shift)
    ensures Absorb(value, byte, shift) == value + (byte % 128) * Pow2(shift)
  {
    OrOfDisjointBits(value, byte % 128, shift);
  }

  /** One round of the loop, on the specification. */
  lemma VarintStep(data: seq<Byte>, position: nat, value: nat, shift: nat)
    requires position < |data| && value < Pow2(shift)
    ensures var more := Absorb(value, data[position], shift);
            var rest := VarintAt(data, position);
            if data[position] < 128 then Combine(value, shift, rest) == Some((more, position + 1))
            else (more < Pow2(shift + 7) && Combine(value, shift, rest) == Combine(more, shift + 7, VarintAt(data, position + 1)))
  {
    var byte := data[position];
    AbsorbAdds(value, byte, shift);
    if byte >= 128 {
      assert byte % 128 == byte - 128;
      CombineStep(value, shift, byte, VarintAt(data, position + 1));
    }
  }

  lemma CombineNothing(rest: Option<(nat, nat)>)
    ensures Combine(0, 0, rest) == rest
  {
  }

  method Varint(data: seq<Byte>, start: nat) returns (r: Option<(nat, nat)>)
    ensures r == VarintAt(data, start)
  {
    var position: nat, value: nat, shift: nat := start, 0, 0;
    CombineNothing(VarintAt(data, start));
    while true
      invariant value < Pow2(shift)
      invariant VarintAt(data, start) == Combine(value, shift, VarintAt(data, position))
      decreases |data| - position
    {
      if position >= |data| { return None; }
      VarintStep(data, position, value, shift);
      var byte := data[position];
      position := position + 1;
      value := Absorb(value, byte, shift);
      if byte < 128 { return Some((value, position)); }
      shift := shift + 7;
    }
  }

  function EncodeVarint(n: nat): (r: seq<Byte>)
    ensures |r| >= 1
  {
    if n < 128 then [n] else [n % 128 + 128] + EncodeVarint(n / 128)
  }

  lemma {:induction false} VarintInverts(before: seq<Byte>, n: nat, after: seq<Byte>)
    ensures VarintAt(before + EncodeVarint(n) + after, |before|) == Some((n, |before| + |EncodeVarint(n)|))
    decreases n
  {
    var data := before + EncodeVarint(n) + after;
    assert data[|before|] == EncodeVarint(n)[0];
    if n >= 128 {
      var more := before + [n % 128 + 128];
      VarintInverts(more, n / 128, after);
      assert more + EncodeVarint(n / 128) + after == data;
    }
  }

  // ----- fields

  datatype Payload = Number(n: nat) | Bytes(bytes: seq<Byte>)

  datatype Field = Field(number: nat, wire: nat, value: Payload)

  /** How reading ends: past the data, with an index error inside a varint, or at an unknown wire type. */
  datatype End = Finished(position: nat) | Truncated | Unsupported(wire: nat)

  datatype Parsed = Parsed(fields: seq<Field>, end: End)

  /** Python's `data[i:j]`: silently short when the data ends earlier. */
  function Slice(data: seq<Byte>, i: nat, j: nat): seq<Byte>
    requires i <= j
  {
    data[if i < |data| then i else |data| .. if j < |data| then j else |data|]
  }

  /** Number and wire type of a field, where its payload starts and, unless it is a varint, how long it is declared. */
  datatype Head = Head(number: nat, wire: nat, start: nat, size: nat)

  function HeadAt(data: seq<Byte>, position: nat): (r: Result<Head, End>)
    ensures r.Ok? ==> position < r.value.start <= |data|
    ensures r.Err? ==> !r.error.Finished?
  {
    match VarintAt(data, position)
    case None => Err(Truncated)
    case Some((key, p)) =>
      var number, wire := key / 8, key % 8;
      if wire == 0 then Ok(Head(number, wire, p, 0))
      else if wire == 1 then Ok(Head(number, wire, p, 8))
      else if wire == 2 then
        match VarintAt(data, p)
        case None => Err(Truncated)
        case Some((length, q)) => Ok(Head(number, wire, q, length))
      else if wire == 5 then Ok(Head(number, wire, p, 4))
      else Err(Unsupported(wire))
  }

  /** One field at `position`, or the reason why there is none. */
  function FieldAt(data: seq<Byte>, position: nat): (r: Result<(Field, nat), End>)
    ensures r.Ok? ==> r.value.1 > position
    ensures r.Err? ==> !r.error.Finished?
  {
    match HeadAt(data, position)
    case Err(e) => Err(e)
    case Ok(h) =>
      if h.wire == 0 then
        match VarintAt(data, h.start)
        case None => Err(Truncated)
        case Some((n, q)) => Ok((Field(h.number, h.wire, Number(n)), q))
      else Ok((Field(h.number, h.wire, Bytes(Slice(data, h.start, h.start + h.size))), h.start + h.size))
  }

  function Prepend(fs: seq<Field>, p: Parsed): Parsed {
    Parsed(fs + p.fields, p.end)
  }

  type Reader = nat -> Result<(Field, nat), End>

  ghost predicate Advances(read: Reader) {
    forall p :: match read(p) case Ok((_, next)) => next > p case Err(e) => !e.Finished?
  }

  /** Repeat `read` from `p` on until `size` is reached. */
  ghost function FieldsFrom(read: Reader, size: nat, p: nat): Parsed
    requires Advances(read)
    decreases size - p
  {
    if p >= size then Parsed([], Finished(p))
    else match read(p)
      case Err(e) => Parsed([], e)
      case Ok((f, next)) => Prepend([f], FieldsFrom(read, size, next))
  }

  ghost function ReaderOf(data: seq<Byte>): (r: Reader)
    ensures Advances(r)
  {
    p => FieldAt(data, p)
  }

  /** All fields from `position` on, and how reading ends. */
  ghost function FieldsAt(data: seq<Byte>, position: nat): Parsed {
    FieldsFrom(ReaderOf(data), |data|, position)
  }

  /** After `fields` were yielded reading goes on at `position`. */
  ghost predicate ReadSoFar(data: seq<Byte>, fields: seq<Field>, position: nat) {
    FieldsAt(data, 0) == Prepend(fields, FieldsAt(data, position))
  }

  lemma FieldYielded(data: seq<Byte>, fields: seq<Field>, position: nat, f: Field, next: nat)
    requires ReadSoFar(data, fields, position) && position < |data| && FieldAt(data, position) == Ok((f, next))
    ensures ReadSoFar(data, fields + [f], next)
  {
    PrependPrepend(fields, [f], FieldsAt(data, next));
  }

  lemma ReadingStops(data: seq<Byte>, fields: seq<Field>, position: nat)
    requires ReadSoFar(data, fields, position)
    ensures position >= |data| ==> FieldsAt(data, 0) == Parsed(fields, Finished(position))
    ensures position < |data| && FieldAt(data, position).Err? ==>
      FieldsAt(data, 0) == Parsed(fields, FieldAt(data, position).error)
  {
    assert fields + [] == fields;
  }

  lemma ReadingStarts(data: seq<Byte>)
    ensures ReadSoFar(data, [], 0)
  {
    assert [] + FieldsAt(data, 0).fields == FieldsAt(data, 0).fields;
  }

  method ProtobufFields(data: seq<Byte>) returns (r: Parsed)
    ensures r == FieldsAt(data, 0)
  {
    var position, fields := 0, [];
    ReadingStarts(data);
    while position < |data|
      invariant ReadSoFar(data, fields, position)
      decreases |data| - position
    {
      ReadingStops(data, fields, position);
      var key := Varint(data, position);
      if key.None? { return Parsed(fields, Truncated); }
      var number, wire, p := key.value.0 / 8, key.value.0 % 8, key.value.1;
      var f: Field;
      if wire == 0 {
        var n := Varint(data, p);
        if n.None? { return Parsed(fields, Truncated); }
        f, p := Field(number, wire, Number(n.value.0)), n.value.1;
      } else if wire == 1 {
        f, p := Field(number, wire, Bytes(Slice(data, p, p + 8))), p + 8;
      } else if wire == 2 {
        var length := Varint(data, p);
        if length.None? { return Parsed(fields, Truncated); }
        p := length.value.1;
        f, p := Field(number, wire, Bytes(Slice(data, p, p + length.value.0))), p + length.value.0;
      } else if wire == 5 {
        f, p := Field(number, wire, Bytes(Slice(data, p, p + 4))), p + 4;
      } else {
        return Parsed(fields, Unsupported(wire));
      }
      FieldYielded(data, fields, position, f, p);
      fields := fields + [f];
      position := p;
    }
    ReadingStops(data, fields, position);
    r := Parsed(fields, Finished(position));
  }

  lemma PrependPrepend(a: seq<Field>, b: seq<Field>, p: Parsed)
    ensures Prepend(a, Prepend(b, p)) == Prepend(a + b, p)
  {
    assert a + (b + p.fields) == (a + b) + p.fields;
  }

  // ----- the encoder and the round trip

  /** The field can be written: wire types 0, 1, 2 and 5 with a payload of the right kind and size. */
  predicate Writable(f: Field) {
    match f.value
    case Number(_) => f.wire == 0
    case Bytes(b) => f.wire == 2 || (f.wire == 1 && |b| == 8) || (f.wire == 5 && |b| == 4)
  }

  function Header(f: Field): seq<Byte> {
    EncodeVarint(8 * f.number + f.wire) + (if f.wire == 2 && f.value.Bytes? then EncodeVarint(|f.value.bytes|) else [])
  }

  function Body(f: Field): seq<Byte> {
    match f.value
    case Number(n) => EncodeVarint(n)
    case Bytes(b) => b
  }

  function Serialise(fs: seq<Field>): seq<Byte> {
    if fs == [] then [] else Header(fs[0]) + Body(fs[0]) + Serialise(fs[1..])
  }

  lemma HeaderInverts(before: seq<Byte>, f: Field, after: seq<Byte>)
    requires Writable(f)
    ensures HeadAt(before + Header(f) + after, |before|)
      == Ok(Head(f.number, f.wire, |before| + |Header(f)|, if f.value.Bytes? then |f.value.bytes| else 0))
  {
    var key := 8 * f.number + f.wire;
    var tag := EncodeVarint(key);
    assert key / 8 == f.number && key % 8 == f.wire;
    if f.wire == 2 {
      var length := EncodeVarint(|f.value.bytes|);
      assert before + Header(f) + after == before + tag + (length + after);
      assert before + Header(f) + after == (before + tag) + length + after;
      VarintInverts(before, key, length + after);
      VarintInverts(before + tag, |f.value.bytes|, after);
    } else {
      assert Header(f) == tag;
      VarintInverts(before, key, after);
    }
  }

  lemma SliceMiddle(before: seq<Byte>, middle: seq<Byte>, after: seq<Byte>, n: nat)
    requires |middle| == n || (after == [] && |middle| <= n)
    ensures Slice(before + middle + after, |before|, |before| + n) == middle
  {
  }

  lemma Associate(a: seq<Byte>, b: seq<Byte>, c: seq<Byte>)
    ensures a + b + c == a + (b + c)
  {
  }

  /** Whatever surrounds it, a written field is read back. */
  lemma FieldInverts(before: seq<Byte>, f: Field, after: seq<Byte>)
    requires Writable(f)
    ensures FieldAt(before + Header(f) + (Body(f) + after), |before|) == Ok((f, |before| + |Header(f)| + |Body(f)|))
  {
    var start, body := before + Header(f), Body(f);
    HeaderInverts(before, f, body + after);
    Associate(start, body, after);
    PayloadInverts(start, f, after);
  }

  lemma PayloadInverts(start: seq<Byte>, f: Field, after: seq<Byte>)
    requires Writable(f)
    ensures f.value.Number? ==> VarintAt(start + Body(f) + after, |start|) == Some((f.value.n, |start| + |Body(f)|))
    ensures f.value.Bytes? ==> Slice(start + Body(f) + after, |start|, |start| + |f.value.bytes|) == f.value.bytes
  {
    if f.value.Number? {
      VarintInverts(start, f.value.n, after);
    } else {
      SliceMiddle(start, f.value.bytes, after, |f.value.bytes|);
    }
  }

  lemma FieldsStep(data: seq<Byte>, p: nat, f: Field, next: nat)
    requires p < |data| && FieldAt(data, p) == Ok((f, next))
    ensures FieldsAt(data, p) == Prepend([f], FieldsAt(data, next))
  {
  }

  /** Reading a written message between `p` and `q` continues at `q`. */
  lemma {:induction false} FieldsInvert(before: seq<Byte>, fs: seq<Field>, after: seq<Byte>, data: seq<Byte>,
                                        p: nat, q: nat, end: Parsed)
    requires forall f :: f in fs ==> Writable(f)
    requires data == before + Serialise(fs) + after && p == |before| && q == p + |Serialise(fs)|
    requires FieldsAt(data, q) == end
    ensures FieldsAt(data, p) == Prepend(fs, end)
    decreases |fs|
  {
    if fs == [] {
      assert Prepend([], end) == end;
    } else {
      var f, rest := fs[0], Serialise(fs[1..]);
      FirstFieldInverts(before, f, rest, after, data);
      var next := before + Header(f) + Body(f);
      FieldsInvert(next, fs[1..], after, data, |next|, q, end);
      GlueField(data, p, f, |next|, fs[1..], end);
      assert [f] + fs[1..] == fs;
    }
  }

  lemma GlueField(data: seq<Byte>, p: nat, f: Field, next: nat, fs: seq<Field>, end: Parsed)
    requires p < |data| && FieldAt(data, p) == Ok((f, next))
    requires FieldsAt(data, next) == Prepend(fs, end)
    ensures FieldsAt(data, p) == Prepend([f] + fs, end)
  {
    FieldsStep(data, p, f, next);
    PrependPrepend([f], fs, end);
  }

  lemma FirstFieldInverts(before: seq<Byte>, f: Field, rest: seq<Byte>, after: seq<Byte>, data: seq<Byte>)
    requires Writable(f) && data == before + (Header(f) + Body(f) + rest) + after
    ensures |before| < |data|
    ensures FieldAt(data, |before|) == Ok((f, |before + Header(f) + Body(f)|))
    ensures data == (before + Header(f) + Body(f)) + rest + after
  {
    RegroupMessage(before, f, rest, after);
    FieldInverts(before, f, rest + after);
  }

  lemma RegroupMessage(before: seq<Byte>, f: Field, rest: seq<Byte>, after: seq<Byte>)
    ensures before + (Header(f) + Body(f) + rest) + after == before + Header(f) + (Body(f) + (rest + after))
    ensures before + (Header(f) + Body(f) + rest) + after == (before + Header(f) + Body(f)) + rest + after
  {
  }

  /** Main result: the reader inverts the wire encoding. */
  lemma ReadInvertsWrite(fs: seq<Field>)
    requires forall f :: f in fs ==> Writable(f)
    ensures FieldsAt(Serialise(fs), 0) == Parsed(fs, Finished(|Serialise(fs)|))
  {
    var data := Serialise(fs);
    NothingAround(data);
    FieldsInvert([], fs, [], data, 0, |data|, Parsed([], Finished(|data|)));
  }

  // ----- concatenation, for any bytes

  lemma {:induction false} VarintIsLocal(a: seq<Byte>, b: seq<Byte>, p: nat)
    ensures VarintAt(a, p).Some? ==> VarintAt(a + b, p) == VarintAt(a, p)
    ensures VarintAt(a + b, |a| + p) ==
      match VarintAt(b, p) case None => None case Some((n, q)) => Some((n, |a| + q))
    decreases |a| + |b| - p
  {
    if p < |a| + |b| { VarintIsLocal(a, b, p + 1); }
  }

  function Shift(p: Parsed, offset: nat): Parsed {
    if p.end.Finished? then p.(end := Finished(p.end.position + offset)) else p
  }

  lemma SliceShifts(a: seq<Byte>, b: seq<Byte>, i: nat, j: nat)
    requires i <= j
    ensures Slice(a + b, |a| + i, |a| + j) == Slice(b, i, j)
  {
  }

  lemma HeadShifts(a: seq<Byte>, b: seq<Byte>, p: nat)
    ensures HeadAt(a + b, |a| + p) ==
      match HeadAt(b, p) case Err(e) => Err(e) case Ok(h) => Ok(h.(start := |a| + h.start))
  {
    VarintIsLocal(a, b, p);
    var key := VarintAt(b, p);
    if key.Some? { VarintIsLocal(a, b, key.value.1); }
  }

  lemma FieldShifts(a: seq<Byte>, b: seq<Byte>, p: nat)
    ensures FieldAt(a + b, |a| + p) == ShiftField(FieldAt(b, p), |a|)
  {
    HeadShifts(a, b, p);
    var head := HeadAt(b, p);
    if head.Ok? {
      var h := head.value;
      if h.wire == 0 {
        VarintIsLocal(a, b, h.start);
      } else {
        SliceShifts(a, b, h.start, h.start + h.size);
      }
    }
  }

  lemma PastTheEnd(data: seq<Byte>, p: nat)
    requires p >= |data|
    ensures FieldsAt(data, p) == Parsed([], Finished(p))
  {
  }

  function ShiftField(r: Result<(Field, nat), End>, offset: nat): Result<(Field, nat), End> {
    match r
    case Err(e) => Err(e)
    case Ok((f, next)) => Ok((f, next + offset))
  }

  /** A reader that behaves behind `offset` as another does from the start finds the same fields there. */
  lemma {:induction false} FieldsShift(whole: Reader, tail: Reader, size: nat, offset: nat, p: nat, q: nat)
    requires Advances(whole) && Advances(tail) && ReadsShifted(whole, tail, offset) && q == p + offset
    ensures FieldsFrom(whole, size + offset, q) == Shift(FieldsFrom(tail, size, p), offset)
    decreases size - p
  {
    assert whole(q) == ShiftField(tail(p), offset);
    if p < size && tail(p).Ok? {
      FieldsShift(whole, tail, size, offset, tail(p).value.1, tail(p).value.1 + offset);
    }
  }

  /** Two readers that agree as long as they stay within `size` find the same fields up to there. */
  lemma {:induction false} FieldsUpTo(whole: Reader, part: Reader, size: nat, larger: nat, p: nat)
    requires Advances(whole) && Advances(part) && p <= size <= larger
    requires forall q: nat :: part(q).Ok? && part(q).value.1 <= size ==> whole(q) == part(q)
    requires FieldsFrom(part, size, p).end == Finished(size)
    ensures FieldsFrom(whole, larger, p) == Prepend(FieldsFrom(part, size, p).fields, FieldsFrom(whole, larger, size))
    decreases size - p
  {
    if p < size {
      var (f, next) := part(p).value;
      FinishedIsPast(part, size, next);
      FieldsUpTo(whole, part, size, larger, next);
      PrependPrepend([f], FieldsFrom(part, size, next).fields, FieldsFrom(whole, larger, size));
    } else {
      assert Prepend([], FieldsFrom(whole, larger, size)) == FieldsFrom(whole, larger, size);
    }
  }

  lemma {:induction false} FinishedIsPast(read: Reader, size: nat, p: nat)
    requires Advances(read)
    ensures FieldsFrom(read, size, p).end.Finished? ==> p <= FieldsFrom(read, size, p).end.position
    decreases size - p
  {
    if p < size && read(p).Ok? { FinishedIsPast(read, size, read(p).value.1); }
  }

  lemma SliceIsLocal(a: seq<Byte>, b: seq<Byte>, i: nat, j: nat)
    requires i <= j <= |a|
    ensures Slice(a + b, i, j) == Slice(a, i, j)
  {
  }

  lemma FieldIsLocal(a: seq<Byte>, b: seq<Byte>, p: nat)
    requires FieldAt(a, p).Ok? && FieldAt(a, p).value.1 <= |a|
    ensures FieldAt(a + b, p) == FieldAt(a, p)
  {
    VarintIsLocal(a, b, p);
    VarintIsLocal(a, b, VarintAt(a, p).value.1);
    var h := HeadAt(a, p).value;
    assert HeadAt(a + b, p) == Ok(h);
    if h.wire != 0 { SliceIsLocal(a, b, h.start, h.start + h.size); }
  }

  lemma ReaderOfAppended(a: seq<Byte>, b: seq<Byte>, q: nat)
    requires ReaderOf(a)(q).Ok? && ReaderOf(a)(q).value.1 <= |a|
    ensures ReaderOf(a + b)(q) == ReaderOf(a)(q)
  {
    FieldIsLocal(a, b, q);
  }

  lemma ReaderOfPrepended(a: seq<Byte>, b: seq<Byte>, q: nat)
    ensures ReaderOf(a + b)(q + |a|) == ShiftField(ReaderOf(b)(q), |a|)
  {
    FieldShifts(a, b, q);
  }

  lemma FirstMessage(a: seq<Byte>, b: seq<Byte>)
    requires FieldsAt(a, 0).end == Finished(|a|)
    ensures FieldsAt(a + b, 0) == Prepend(FieldsAt(a, 0).fields, FieldsAt(a + b, |a|))
  {
    var whole, part := ReaderOf(a + b), ReaderOf(a);
    forall q: nat | part(q).Ok? && part(q).value.1 <= |a| ensures whole(q) == part(q) { ReaderOfAppended(a, b, q); }
    FieldsUpTo(whole, part, |a|, |a + b|, 0);
  }

  ghost predicate ReadsShifted(whole: Reader, tail: Reader, offset: nat) {
    forall q: nat, p: nat {:trigger whole(p), tail(q)} :: p == q + offset ==> whole(p) == ShiftField(tail(q), offset)
  }

  lemma ReaderOfConcatenation(a: seq<Byte>, b: seq<Byte>)
    ensures ReadsShifted(ReaderOf(a + b), ReaderOf(b), |a|)
  {
    forall q: nat, p: nat | p == q + |a| ensures ReaderOf(a + b)(p) == ShiftField(ReaderOf(b)(q), |a|) {
      ReaderOfPrepended(a, b, q);
    }
  }

  lemma SecondMessage(a: seq<Byte>, b: seq<Byte>)
    ensures FieldsAt(a + b, |a|) == Shift(FieldsAt(b, 0), |a|)
  {
    ReaderOfConcatenation(a, b);
    FieldsShift(ReaderOf(a + b), ReaderOf(b), |b|, |a|, 0, |a|);
  }

  /** A message that is read to its very end can be followed by another: the fields are those of both. */
  lemma ReadOfConcatenation(a: seq<Byte>, b: seq<Byte>)
    requires FieldsAt(a, 0).end == Finished(|a|)
    ensures FieldsAt(a + b, 0) == Prepend(FieldsAt(a, 0).fields, Shift(FieldsAt(b, 0), |a|))
  {
    FirstMessage(a, b);
    SecondMessage(a, b);
  }

  lemma CutFieldAt(before: seq<Byte>, f: Field, short: seq<Byte>, data: seq<Byte>)
    requires Writable(f) && f.value.Bytes? && |short| < |f.value.bytes|
    requires data == before + Header(f) + short
    ensures |before| < |data|
    ensures FieldAt(data, |before|) == Ok((f.(value := Bytes(short)), |data| + (|f.value.bytes| - |short|)))
  {
    HeaderInverts(before, f, short);
    SliceMiddle(before + Header(f), short, [], |f.value.bytes|);
    assert before + Header(f) + short + [] == before + Header(f) + short;
  }

  lemma NothingAround(a: seq<Byte>)
    ensures a == [] + a + []
  {
  }

  lemma RegroupFromStart(a: seq<Byte>, b: seq<Byte>, c: seq<Byte>)
    ensures a + b + c == [] + a + (b + c)
  {
  }

  lemma CutTail(before: seq<Byte>, f: Field, short: seq<Byte>, data: seq<Byte>, p: nat)
    requires Writable(f) && f.value.Bytes? && |short| < |f.value.bytes|
    requires data == before + Header(f) + short && p == |before|
    ensures FieldsAt(data, p)
      == Parsed([f.(value := Bytes(short))], Finished(|data| + (|f.value.bytes| - |short|)))
  {
    CutFieldAt(before, f, short, data);
    var next := |data| + (|f.value.bytes| - |short|);
    PastTheEnd(data, next);
    FieldsStep(data, p, f.(value := Bytes(short)), next);
  }

  /** Cutting bytes off the last payload goes unnoticed except for the final position, which lies behind the data. */
  lemma CutIsSilent(fs: seq<Field>, last: Field, short: seq<Byte>, data: seq<Byte>)
    requires forall f :: f in fs ==> Writable(f)
    requires Writable(last) && last.value.Bytes? && short < last.value.bytes
    requires data == Serialise(fs) + Header(last) + short
    ensures FieldsAt(data, 0)
      == Parsed(fs + [last.(value := Bytes(short))], Finished(|data| + (|last.value.bytes| - |short|)))
  {
    var written, header := Serialise(fs), Header(last);
    RegroupFromStart(written, header, short);
    CutTail(written, last, short, data, |written|);
    CutAfter(written, header, fs, short, data, Parsed([last.(value := Bytes(short))],
             Finished(|data| + (|last.value.bytes| - |short|))));
  }

  lemma CutAfter(written: seq<Byte>, header: seq<Byte>, fs: seq<Field>, short: seq<Byte>, data: seq<Byte>, end: Parsed)
    requires forall f :: f in fs ==> Writable(f)
    requires written == Serialise(fs)
    requires data == [] + written + (header + short)
    requires FieldsAt(data, |written|) == end
    ensures FieldsAt(data, 0) == Prepend(fs, end)
  {
    FieldsInvert([], fs, header + short, data, 0, |written|, end);
  }
}
