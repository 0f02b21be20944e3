/** What the protobuf reader makes of a text that ends early. */
module ProtobufTruncation {
  import opened Wrappers
  import opened Protobuf

  // ----- where a written message is cut

  /** `whole` fields are complete; then the text ends, or it ends inside the next field. */
  datatype Place = Boundary(whole: nat) | InHeader(whole: nat) | InNumber(whole: nat) | InBytes(whole: nat, shown: nat)

  function Later(place: Place): Place {
    match place
    case Boundary(n) => Boundary(n + 1)
    case InHeader(n) => InHeader(n + 1)
    case InNumber(n) => InNumber(n + 1)
    case InBytes(n, shown) => InBytes(n + 1, shown)
  }

  function Whole(f: Field): seq<Byte> {
    Header(f) + Body(f)
  }

  /** Where the first `k` bytes of the written fields end. */
  function PlaceOf(fs: seq<Field>, k: nat): (place: Place)
    requires k <= |Serialise(fs)|
    ensures place.whole <= |fs|
    ensures !place.Boundary? ==> place.whole < |fs|
    ensures place.InBytes? ==> fs[place.whole].value.Bytes? && place.shown < |fs[place.whole].value.bytes|
  {
    if k == 0 then Boundary(0)
    else
      var f := fs[0];
      if k >= |Whole(f)| then Later(PlaceOf(fs[1..], k - |Whole(f)|))
      else if k < |Header(f)| then InHeader(0)
      else if f.value.Number? then InNumber(0)
      else InBytes(0, k - |Header(f)|)
  }

  /** The field at a cut payload, as far as it is there. */
  function Shortened(f: Field, shown: nat): Field
    requires f.value.Bytes? && shown <= |f.value.bytes|
  {
    f.(value := Bytes(f.value.bytes[..shown]))
  }

  /** The fields complete at a place, the one cut there as far as it shows, and how reading ends when the text has length `size`. */
  function Outcome(fs: seq<Field>, place: Place, size: nat): Parsed
    requires place.whole <= |fs|
    requires place.InBytes? ==>
      place.whole < |fs| && fs[place.whole].value.Bytes? && place.shown < |fs[place.whole].value.bytes|
  {
    match place
    case Boundary(n) => Parsed(fs[..n], Finished(size))
    case InHeader(n) => Parsed(fs[..n], Truncated)
    case InNumber(n) => Parsed(fs[..n], Truncated)
    case InBytes(n, shown) =>
      Parsed(fs[..n] + [Shortened(fs[n], shown)], Finished(size + (|fs[n].value.bytes| - shown)))
  }

  /** What reading the first `k` bytes yields, `base` bytes into the data. */
  function ReadUpTo(fs: seq<Field>, k: nat, base: nat): Parsed
    requires k <= |Serialise(fs)|
  {
    Outcome(fs, PlaceOf(fs, k), base + k)
  }

  // ----- cut varints

  lemma {:induction false} CutVarint(before: seq<Byte>, n: nat, j: nat)
    requires j < |EncodeVarint(n)|
    ensures VarintAt(before + EncodeVarint(n)[..j], |before|) == None
    decreases n
  {
    if j > 0 {
      var more := before + [n % 128 + 128];
      CutVarint(more, n / 128, j - 1);
      assert EncodeVarint(n)[..j] == [n % 128 + 128] + EncodeVarint(n / 128)[..j - 1];
      assert more + EncodeVarint(n / 128)[..j - 1] == before + EncodeVarint(n)[..j];
      assert (before + EncodeVarint(n)[..j])[|before|] == n % 128 + 128;
    }
  }

  lemma CutHeader(before: seq<Byte>, f: Field, j: nat)
    requires Writable(f) && j < |Header(f)|
    ensures HeadAt(before + Header(f)[..j], |before|) == Err(Truncated)
  {
    var key := 8 * f.number + f.wire;
    var tag := EncodeVarint(key);
    if j < |tag| {
      CutVarint(before, key, j);
      assert Header(f)[..j] == tag[..j];
    } else {
      var length := EncodeVarint(|f.value.bytes|)[..j - |tag|];
      assert Header(f)[..j] == tag + length;
      assert before + Header(f)[..j] == before + tag + length;
      VarintInverts(before, key, length);
      CutVarint(before + tag, |f.value.bytes|, j - |tag|);
    }
  }

  lemma CutNumber(before: seq<Byte>, f: Field, j: nat)
    requires Writable(f) && f.value.Number? && j < |Body(f)|
    ensures FieldAt(before + Header(f) + Body(f)[..j], |before|) == Err(Truncated)
  {
    HeaderInverts(before, f, Body(f)[..j]);
    CutVarint(before + Header(f), f.value.n, j);
  }

  // ----- reading a cut message

  /** The first fields of a list of which all are written. */
  lemma WritableRest(fs: seq<Field>)
    requires fs != [] && forall f :: f in fs ==> Writable(f)
    ensures Writable(fs[0]) && forall f :: f in fs[1..] ==> Writable(f)
  {
  }

  lemma SerialiseSplits(fs: seq<Field>, k: nat)
    requires fs != [] && k <= |Serialise(fs)|
    ensures Serialise(fs) == Whole(fs[0]) + Serialise(fs[1..])
    ensures k >= |Whole(fs[0])| ==> Serialise(fs)[..k] == Whole(fs[0]) + Serialise(fs[1..])[..k - |Whole(fs[0])|]
    ensures k < |Whole(fs[0])| ==> Serialise(fs)[..k] == Whole(fs[0])[..k]
  {
  }

  /** The text ends inside the first field. */
  lemma CutInside(before: seq<Byte>, f: Field, k: nat, data: seq<Byte>)
    requires Writable(f) && 0 < k < |Whole(f)| && data == before + Whole(f)[..k]
    ensures k < |Header(f)| || f.value.Number? ==> FieldsAt(data, |before|) == Parsed([], Truncated)
    ensures k >= |Header(f)| && f.value.Bytes? ==>
      FieldsAt(data, |before|)
      == Parsed([Shortened(f, k - |Header(f)|)], Finished(|data| + (|Whole(f)| - k)))
  {
    if k < |Header(f)| {
      assert Whole(f)[..k] == Header(f)[..k];
      CutHeader(before, f, k);
    } else {
      var short := Body(f)[..k - |Header(f)|];
      assert Whole(f)[..k] == Header(f) + short;
      assert data == before + Header(f) + short;
      if f.value.Number? {
        CutNumber(before, f, |short|);
      } else {
        CutTail(before, f, short, data, |before|);
      }
    }
  }

  lemma OutcomeLater(f: Field, rest: seq<Field>, place: Place, size: nat)
    requires place.whole <= |rest|
    requires place.InBytes? ==>
      place.whole < |rest| && rest[place.whole].value.Bytes? && place.shown < |rest[place.whole].value.bytes|
    ensures Outcome([f] + rest, Later(place), size) == Prepend([f], Outcome(rest, place, size))
  {
    var n := place.whole;
    assert ([f] + rest)[..n + 1] == [f] + rest[..n];
    if place.InBytes? {
      var short := [Shortened(rest[n], place.shown)];
      assert [f] + rest[..n] + short == [f] + (rest[..n] + short);
    }
  }

  lemma SizeSplits(fs: seq<Field>)
    requires fs != []
    ensures |Serialise(fs)| == |Whole(fs[0])| + |Serialise(fs[1..])|
  {
  }

  lemma PlaceLater(fs: seq<Field>, k: nat)
    requires fs != [] && 0 < k <= |Serialise(fs)| && |Whole(fs[0])| <= k
    ensures k - |Whole(fs[0])| <= |Serialise(fs[1..])|
    ensures PlaceOf(fs, k) == Later(PlaceOf(fs[1..], k - |Whole(fs[0])|))
  {
    SizeSplits(fs);
  }

  lemma ReadUpToLater(fs: seq<Field>, k: nat, base: nat)
    requires fs != [] && 0 < k <= |Serialise(fs)| && |Whole(fs[0])| <= k
    ensures k - |Whole(fs[0])| <= |Serialise(fs[1..])|
    ensures ReadUpTo(fs, k, base) == Prepend([fs[0]], ReadUpTo(fs[1..], k - |Whole(fs[0])|, base + |Whole(fs[0])|))
  {
    PlaceLater(fs, k);
    var rest, place := fs[1..], PlaceOf(fs[1..], k - |Whole(fs[0])|);
    assert [fs[0]] + rest == fs;
    OutcomeLater(fs[0], rest, place, base + k);
  }

  /** A complete field is read, and reading goes on behind it. */
  lemma WholeFieldIsRead(before: seq<Byte>, f: Field, left: seq<Byte>, data: seq<Byte>)
    requires Writable(f) && data == before + Whole(f) + left
    ensures FieldsAt(data, |before|) == Prepend([f], FieldsAt(data, |before + Whole(f)|))
  {
    assert data == before + (Header(f) + Body(f) + left) + [];
    FirstFieldInverts(before, f, left, [], data);
    assert before + Header(f) + Body(f) == before + Whole(f);
    FieldsStep(data, |before|, f, |before + Whole(f)|);
  }

  lemma CutFirst(before: seq<Byte>, fs: seq<Field>, k: nat, data: seq<Byte>)
    requires fs != [] && Writable(fs[0]) && 0 < k < |Whole(fs[0])| && k <= |Serialise(fs)|
    requires data == before + Serialise(fs)[..k]
    ensures FieldsAt(data, |before|) == ReadUpTo(fs, k, |before|)
  {
    SerialiseSplits(fs, k);
    CutInside(before, fs[0], k, data);
    PlaceFirst(fs, k);
    assert fs[..0] == [];
  }

  lemma PlaceFirst(fs: seq<Field>, k: nat)
    requires fs != [] && 0 < k < |Whole(fs[0])| && k <= |Serialise(fs)|
    ensures PlaceOf(fs, k) ==
      if k < |Header(fs[0])| then InHeader(0)
      else if fs[0].value.Number? then InNumber(0)
      else InBytes(0, k - |Header(fs[0])|)
  {
  }

  lemma GlueCut(fs: seq<Field>, k: nat, base: nat, next: nat, here: Parsed, there: Parsed)
    requires fs != [] && 0 < k && |Whole(fs[0])| <= k <= |Serialise(fs)| && k - |Whole(fs[0])| <= |Serialise(fs[1..])|
    requires next == base + |Whole(fs[0])|
    requires here == Prepend([fs[0]], there) && there == ReadUpTo(fs[1..], k - |Whole(fs[0])|, next)
    ensures here == ReadUpTo(fs, k, base)
  {
    ReadUpToLater(fs, k, base);
  }

  lemma {:induction false} CutMessageAt(before: seq<Byte>, fs: seq<Field>, k: nat, data: seq<Byte>)
    requires forall f :: f in fs ==> Writable(f)
    requires k <= |Serialise(fs)| && data == before + Serialise(fs)[..k]
    ensures FieldsAt(data, |before|) == ReadUpTo(fs, k, |before|)
    decreases |fs|
  {
    if k == 0 {
      PastTheEnd(data, |before|);
    } else {
      WritableRest(fs);
      if k < |Whole(fs[0])| {
        CutFirst(before, fs, k, data);
      } else {
        var next := before + Whole(fs[0]);
        var here, there := FieldsAt(data, |before|), FieldsAt(data, |next|);
        CutLater(before, fs, k, data, next, here, there);
        CutMessageAt(next, fs[1..], k - |Whole(fs[0])|, data);
        GlueCut(fs, k, |before|, |next|, here, there);
      }
    }
  }

  lemma CutLater(before: seq<Byte>, fs: seq<Field>, k: nat, data: seq<Byte>, next: seq<Byte>, here: Parsed, there: Parsed)
    requires fs != [] && Writable(fs[0]) && |Whole(fs[0])| <= k <= |Serialise(fs)|
    requires data == before + Serialise(fs)[..k] && next == before + Whole(fs[0])
    requires here == FieldsAt(data, |before|) && there == FieldsAt(data, |next|)
    ensures k - |Whole(fs[0])| <= |Serialise(fs[1..])|
    ensures data == next + Serialise(fs[1..])[..k - |Whole(fs[0])|]
    ensures here == Prepend([fs[0]], there)
  {
    var left := Serialise(fs[1..])[..k - |Whole(fs[0])|];
    SerialiseSplits(fs, k);
    Associate(before, Whole(fs[0]), left);
    WholeFieldIsRead(before, fs[0], left, data);
  }

  /** What the reader makes of any first part of a written message. */
  lemma CutMessage(fs: seq<Field>, k: nat)
    requires (forall f :: f in fs ==> Writable(f)) && k <= |Serialise(fs)|
    ensures FieldsAt(Serialise(fs)[..k], 0) == ReadUpTo(fs, k, 0)
  {
    var data := Serialise(fs)[..k];
    assert data == [] + data;
    CutMessageAt([], fs, k, data);
  }

  /**
   * When a cut is noticed: exactly inside a header or a number. At a boundary the reader ends with the text; inside
   * the bytes of a payload it hands out what is there and ends behind the text.
   */
  lemma CutIsNoticedIff(fs: seq<Field>, k: nat)
    requires (forall f :: f in fs ==> Writable(f)) && k <= |Serialise(fs)|
    ensures var place, r := PlaceOf(fs, k), FieldsAt(Serialise(fs)[..k], 0);
            && (r.end == Truncated <==> place.InHeader? || place.InNumber?)
            && (r.end == Finished(k) <==> place.Boundary?)
            && ((exists q :: q > k && r.end == Finished(q)) <==> place.InBytes?)
            && fs[..place.whole] <= r.fields
            && (!place.InBytes? ==> r.fields == fs[..place.whole])
            && (place.InBytes? ==> r.fields == fs[..place.whole] + [Shortened(fs[place.whole], place.shown)])
  {
    CutMessage(fs, k);
    var place := PlaceOf(fs, k);
    if place.InBytes? {
      var q := k + (|fs[place.whole].value.bytes| - place.shown);
      assert q > k && FieldsAt(Serialise(fs)[..k], 0).end == Finished(q);
    }
  }

  /** The complete fields lie before the cut, and the cut lies in the next one. */
  predicate IsPlace(fs: seq<Field>, k: nat, place: Place)
    requires place.whole <= |fs| && (!place.Boundary? ==> place.whole < |fs|)
    requires place.InBytes? ==> fs[place.whole].value.Bytes?
  {
    var start := |Serialise(fs[..place.whole])|;
    match place
    case Boundary(_) => k == start
    case InHeader(n) => start < k < start + |Header(fs[n])|
    case InNumber(n) => fs[n].value.Number? && start + |Header(fs[n])| <= k < start + |Whole(fs[n])|
    case InBytes(n, shown) => k == start + |Header(fs[n])| + shown < start + |Whole(fs[n])|
  }

  lemma IsPlaceLater(f: Field, rest: seq<Field>, k: nat, place: Place)
    requires place.whole <= |rest| && (!place.Boundary? ==> place.whole < |rest|)
    requires place.InBytes? ==> rest[place.whole].value.Bytes?
    requires IsPlace(rest, k, place)
    ensures IsPlace([f] + rest, k + |Whole(f)|, Later(place))
  {
    var n := place.whole;
    var whole := ([f] + rest)[..n + 1];
    assert whole[0] == f && whole[1..] == rest[..n];
    SizeSplits(whole);
  }

  lemma {:induction false} PlaceIsThere(fs: seq<Field>, k: nat)
    requires k <= |Serialise(fs)|
    ensures IsPlace(fs, k, PlaceOf(fs, k))
    decreases |fs|
  {
    assert fs[..0] == [];
    if k > 0 {
      if k >= |Whole(fs[0])| {
        PlaceLater(fs, k);
        PlaceIsThere(fs[1..], k - |Whole(fs[0])|);
        assert [fs[0]] + fs[1..] == fs;
        IsPlaceLater(fs[0], fs[1..], k - |Whole(fs[0])|, PlaceOf(fs[1..], k - |Whole(fs[0])|));
      } else {
        PlaceFirst(fs, k);
      }
    }
  }

  // ----- any data

  /** Where the last field read from `p` on starts. */
  ghost function LastStart(data: seq<Byte>, p: nat): Option<nat>
    decreases |data| - p
  {
    if p >= |data| then None
    else match FieldAt(data, p)
      case Err(_) => None
      case Ok((_, next)) => if next >= |data| then Some(p) else LastStart(data, next)
  }

  /** The field at `at` has fewer bytes than its wire type or its length announces. */
  predicate IsShort(data: seq<Byte>, at: nat) {
    match HeadAt(data, at)
    case Err(_) => false
    case Ok(h) => h.wire != 0 && |Slice(data, h.start, h.start + h.size)| < h.size
  }

  lemma ShortIffBehind(data: seq<Byte>, at: nat)
    requires FieldAt(data, at).Ok?
    ensures FieldAt(data, at).value.1 > |data| <==> IsShort(data, at)
  {
  }

  /** Reading any data to its end: the position lies behind the data exactly when the last payload is short. */
  lemma {:induction false} BehindIffShort(data: seq<Byte>, p: nat, q: nat)
    requires p < |data| && FieldsAt(data, p).end == Finished(q)
    ensures LastStart(data, p).Some?
    ensures var at := LastStart(data, p).value;
            && p <= at < |data| && FieldAt(data, at).Ok? && FieldAt(data, at).value.1 == q
            && FieldsAt(data, p).fields != []
            && FieldsAt(data, p).fields[|FieldsAt(data, p).fields| - 1] == FieldAt(data, at).value.0
            && q >= |data| && (q > |data| <==> IsShort(data, at))
    decreases |data| - p
  {
    var (f, next) := FieldAt(data, p).value;
    FieldsStep(data, p, f, next);
    if next >= |data| {
      PastTheEnd(data, next);
      ShortIffBehind(data, p);
    } else {
      BehindIffShort(data, next, q);
    }
  }
}
