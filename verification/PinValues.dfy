/** Pin values on their way to a file and back: Serialize lists the values of a pin's buffer, Deserialize
    puts listed values back into a buffer, whatever its stride. A list is a sequence of tagged values. */
module PinValues {
  import opened Buffers
  import opened PinCopy

  const TWO_TO_THE_31: int := 0x8000_0000
  const TWO_TO_THE_32: int := 0x1_0000_0000
  const TWO_TO_THE_64: int := 0x1_0000_0000_0000_0000

  type Word = w: int | 0 <= w < 0x1_0000_0000
  type Int32 = i: int | -0x8000_0000 <= i < 0x8000_0000

  datatype NodePropertyType = None | Bool | Char | Float | Int | Uint | String | Struct

  /** A float is kept as its bits. */
  datatype PinValue = BoolValue(b: bool) | FloatValue(bits: Word) | IntValue(i: Int32) | UintValue(u: Word)

  /** Skipped leaves the pin alone, Finished tells it that its value changed. */
  datatype Outcome = Skipped | Finished | NotImplemented

  predicate Scalar(t: NodePropertyType) { t.Bool? || t.Float? || t.Int? || t.Uint? }

  function SizeOf(t: NodePropertyType): nat { if t.Bool? then 1 else 4 }

  function TypeOf(v: PinValue): NodePropertyType {
    match v
    case BoolValue(_) => Bool
    case FloatValue(_) => Float
    case IntValue(_) => Int
    case UintValue(_) => Uint
  }

  // ----- single values in memory

  function WordBytes(w: Word): seq<Byte> {
    [w % 0x100, w / 0x100 % 0x100, w / 0x1_0000 % 0x100, w / 0x100_0000]
  }

  function WordOf(b: seq<Byte>): Word
    requires |b| == 4
  {
    var b0: int, b1: int, b2: int, b3: int := b[0], b[1], b[2], b[3];
    b0 + 0x100 * b1 + 0x1_0000 * b2 + 0x100_0000 * b3
  }

  function Encode(v: PinValue): (b: seq<Byte>)
    ensures |b| == SizeOf(TypeOf(v))
  {
    match v
    case BoolValue(b) => [if b then 1 else 0]
    case FloatValue(bits) => WordBytes(bits)
    case IntValue(i) => WordBytes(if i < 0 then i + TWO_TO_THE_32 else i)
    case UintValue(u) => WordBytes(u)
  }

  function Decode(t: NodePropertyType, b: seq<Byte>): (v: PinValue)
    requires Scalar(t) && |b| == SizeOf(t)
    ensures TypeOf(v) == t
  {
    if t.Bool? then BoolValue(b[0] != 0)
    else if t.Float? then FloatValue(WordOf(b))
    else if t.Int? then var w := WordOf(b); IntValue(if w >= TWO_TO_THE_31 then w - TWO_TO_THE_32 else w)
    else UintValue(WordOf(b))
  }

  lemma BytesRoundTrip(w: Word)
    ensures WordOf(WordBytes(w)) == w
  {
    var w1: int, w2: int, w3: int := w / 0x100, w / 0x1_0000, w / 0x100_0000;
    assert w == 0x100 * w1 + w % 0x100;
    assert w2 == w1 / 0x100 && w1 == 0x100 * w2 + w1 % 0x100;
    assert w3 == w2 / 0x100 && w2 == 0x100 * w3 + w2 % 0x100;
  }

  lemma DecodeEncode(v: PinValue)
    ensures Decode(TypeOf(v), Encode(v)) == v
  {
    hide WordBytes, WordOf;
    match v
    case BoolValue(_) =>
    case FloatValue(bits) => BytesRoundTrip(bits);
    case IntValue(i) => BytesRoundTrip(if i < 0 then i + TWO_TO_THE_32 else i);
    case UintValue(u) => BytesRoundTrip(u);
  }

  /** Bytes that hold a value of the type; a bool is held as 0 or 1. */
  predicate Holds(t: NodePropertyType, b: seq<Byte>) {
    |b| == SizeOf(t) && (t.Bool? ==> b[0] <= 1)
  }

  lemma WordRoundTrip(b: seq<Byte>)
    requires |b| == 4
    ensures WordBytes(WordOf(b)) == b
  {
    var w: int, b1: int, b2: int, b3: int := WordOf(b), b[1], b[2], b[3];
    assert w / 0x100 == b1 + 0x100 * b2 + 0x1_0000 * b3;
    assert w / 0x1_0000 == b2 + 0x100 * b3;
    assert w / 0x100_0000 == b3;
  }

  lemma EncodeDecode(t: NodePropertyType, b: seq<Byte>)
    requires Scalar(t) && Holds(t, b)
    ensures Encode(Decode(t, b)) == b
  {
    if !t.Bool? {
      WordRoundTrip(b);
    }
  }

  // ----- lists

  ghost predicate AllOf(t: NodePropertyType, values: seq<PinValue>) {
    forall k :: 0 <= k < |values| ==> TypeOf(values[k]) == t
  }

  /** The bytes of all values, one after the other. */
  ghost function EncodeAll(values: seq<PinValue>): seq<Byte> {
    if values == [] then [] else EncodeAll(values[..|values| - 1]) + Encode(values[|values| - 1])
  }

  lemma {:induction false} EncodeAllAt(t: NodePropertyType, values: seq<PinValue>, k: nat)
    requires AllOf(t, values)
    ensures |EncodeAll(values)| == Span(|values|, SizeOf(t))
    ensures k < |values| ==> Span(k, SizeOf(t)) + SizeOf(t) <= |EncodeAll(values)|
                             && EncodeAll(values)[Span(k, SizeOf(t))..Span(k, SizeOf(t)) + SizeOf(t)]
                               == Encode(values[k])
    decreases |values|
  {
    hide Span, Encode;
    SpanNext(0, SizeOf(t));
    if values != [] {
      var before := values[..|values| - 1];
      EncodeAllAt(t, before, k);
      SpanNext(|before|, SizeOf(t));
      var head, last, p, size := EncodeAll(before), Encode(values[|before|]), Span(k, SizeOf(t)), SizeOf(t);
      assert EncodeAll(values) == head + last && |last| == size;
      if k < |before| {
        assert (head + last)[p..p + size] == head[p..p + size];
        assert before[k] == values[k];
      } else if k == |before| {
        assert (head + last)[p..p + size] == last;
      }
    }
  }

  /** What a value in memory is. A bool is true if its byte is not 0; a uint and the bits of a float are
      their bytes with growing weights, an int is the same as a two's complement number. */
  ghost predicate Means(t: NodePropertyType, buf: seq<Byte>, at: nat, v: PinValue) {
    if t.Bool? then at + 1 <= |buf| && v == BoolValue(buf[at] != 0)
    else
      at + 4 <= |buf|
      && var w: int := (buf[at] as int) + 0x100 * (buf[at + 1] as int) + 0x1_0000 * (buf[at + 2] as int)
                       + 0x100_0000 * (buf[at + 3] as int);
         match t
         case Float => v == FloatValue(w)
         case Uint => v == UintValue(w)
         case Int => v == IntValue(if w < 0x8000_0000 then w else w - 0x1_0000_0000)
         case _ => false
  }

  lemma DecodeMeans(t: NodePropertyType, buf: seq<Byte>, at: nat, v: PinValue)
    requires Scalar(t) && at + SizeOf(t) <= |buf|
    ensures Means(t, buf, at, v) <==> v == Decode(t, buf[at..at + SizeOf(t)])
  {
  }

  /** What is written for a value means the value; a bool is written as 0 or 1. */
  lemma EncodeMeans(v: PinValue, buf: seq<Byte>, at: nat)
    requires at + SizeOf(TypeOf(v)) <= |buf| && buf[at..at + SizeOf(TypeOf(v))] == Encode(v)
    ensures Means(TypeOf(v), buf, at, v) && (v.BoolValue? ==> buf[at] <= 1)
  {
    DecodeEncode(v);
    DecodeMeans(TypeOf(v), buf, at, v);
    if v.BoolValue? { assert buf[at] == buf[at..at + 1][0]; }
  }

  /** Value j of element i in a buffer. */
  ghost predicate ValueAt(t: NodePropertyType, buf: seq<Byte>, pin: PinLayout, i: nat, j: nat, v: PinValue) {
    Means(t, buf, pin.buffer + Span(i, pin.stride) + Span(j, SizeOf(t)), v)
  }

  ghost predicate Listed(values: seq<PinValue>, t: NodePropertyType, buf: seq<Byte>, pin: PinLayout, row: nat,
      i: nat, j: nat) {
    row + j < |values| && ValueAt(t, buf, pin, i, j, values[row + j])
  }

  /** The values of element i stand in the list in a row. */
  ghost predicate RowListed(values: seq<PinValue>, t: NodePropertyType, buf: seq<Byte>, pin: PinLayout, i: nat) {
    Span(i, pin.numCoords) + pin.numCoords <= |values|
    && forall j: nat :: j < pin.numCoords ==> Listed(values, t, buf, pin, Span(i, pin.numCoords), i, j)
  }

  /** The buffer has room for all elements of the pin, and they hold values of the type. */
  ghost predicate Readable(t: NodePropertyType, buf: seq<Byte>, pin: PinLayout) {
    pin.size > 0 && Scalar(t) ==>
      && pin.buffer + Span(pin.size - 1, pin.stride) + Span(pin.numCoords, SizeOf(t)) <= |buf|
      && forall i: nat, j: nat {:trigger Span(i, pin.stride), Span(j, SizeOf(t))} ::
           i < pin.size && j < pin.numCoords ==>
           var at := pin.buffer + Span(i, pin.stride) + Span(j, SizeOf(t));
           at + SizeOf(t) <= |buf| ==> Holds(t, buf[at..at + SizeOf(t)])
  }

  lemma ElementInside(pin: PinLayout, i: nat, j: nat, size: nat, numCoords: nat)
    requires i < pin.size && j < numCoords
    ensures Span(i, pin.stride) + Span(j, size) + size <= Span(pin.size - 1, pin.stride) + Span(numCoords, size)
  {
    SpanMonotone(i, pin.size - 1, pin.stride);
    SpanNext(j, size);
    SpanMonotone(j + 1, numCoords, size);
  }

  lemma RowInside(i: nat, n: nat, width: nat)
    requires i < n
    ensures Span(i, width) + width <= Span(n, width)
  {
    SpanNext(i, width);
    SpanMonotone(i + 1, n, width);
  }

  /** Lists the values of a pin, element by element. */
  method Serialize(builder: array<PinValue>, t: NodePropertyType, buf: seq<Byte>, pin: PinLayout)
    returns (outcome: Outcome)
    requires t != String && Readable(t, buf, pin) && Span(pin.size, pin.numCoords) <= builder.Length
    modifies builder
    ensures outcome == if pin.size == 0 then Skipped else if Scalar(t) then Finished else NotImplemented
    ensures outcome == Finished ==> forall i: nat :: i < pin.size ==> RowListed(builder[..], t, buf, pin, i)
    ensures outcome == Finished
      ==> builder[Span(pin.size, pin.numCoords)..] == old(builder[Span(pin.size, pin.numCoords)..])
    ensures outcome != Finished ==> builder[..] == old(builder[..])
  {
    hide Span, Decode, RowListed, Means;
    if pin.size == 0 {
      return Skipped;
    }
    if !Scalar(t) {
      return NotImplemented;
    }
    ghost var end := Span(pin.size, pin.numCoords);
    for i := 0 to pin.size
      invariant forall r: nat :: r < i ==> RowListed(builder[..], t, buf, pin, r)
      invariant builder[end..] == old(builder[end..])
    {
      RowInside(i, pin.size, pin.numCoords);
      ghost var was := builder[..];
      var row := Span(i, pin.numCoords);
      for j := 0 to pin.numCoords
        invariant builder[..row] == was[..row] && builder[end..] == was[end..]
        invariant forall k: nat :: k < j ==> Listed(builder[..], t, buf, pin, row, i, k)
      {
        ElementInside(pin, i, j, SizeOf(t), pin.numCoords);
        var at := pin.buffer + Span(i, pin.stride) + Span(j, SizeOf(t));
        ghost var before := builder[..];
        builder[row + j] := Decode(t, buf[at..at + SizeOf(t)]);
        DecodeMeans(t, buf, at, builder[row + j]);
        forall k: nat | k <= j ensures Listed(builder[..], t, buf, pin, row, i, k) {
          assert k < j ==> Listed(before, t, buf, pin, row, i, k);
        }
      }
      RowsStay(was, builder[..], t, buf, pin, i);
      RowDone(builder[..], t, buf, pin, i);
    }
    outcome := Finished;
  }

  lemma RowDone(values: seq<PinValue>, t: NodePropertyType, buf: seq<Byte>, pin: PinLayout, i: nat)
    requires Span(i, pin.numCoords) + pin.numCoords <= |values|
    requires forall j: nat :: j < pin.numCoords ==> Listed(values, t, buf, pin, Span(i, pin.numCoords), i, j)
    ensures RowListed(values, t, buf, pin, i)
  {
  }

  lemma RowsStay(was: seq<PinValue>, now: seq<PinValue>, t: NodePropertyType, buf: seq<Byte>, pin: PinLayout, n: nat)
    requires forall r: nat :: r < n ==> RowListed(was, t, buf, pin, r)
    requires |now| == |was| && Span(n, pin.numCoords) <= |was|
    requires now[..Span(n, pin.numCoords)] == was[..Span(n, pin.numCoords)]
    ensures forall r: nat :: r < n ==> RowListed(now, t, buf, pin, r)
  {
    hide Span, ValueAt;
    forall r: nat | r < n ensures RowListed(now, t, buf, pin, r) {
      RowInside(r, n, pin.numCoords);
      assert RowListed(was, t, buf, pin, r);
      forall j: nat | j < pin.numCoords ensures Listed(now, t, buf, pin, Span(r, pin.numCoords), r, j) {
        assert Listed(was, t, buf, pin, Span(r, pin.numCoords), r, j);
        assert now[Span(r, pin.numCoords) + j] == now[..Span(n, pin.numCoords)][Span(r, pin.numCoords) + j];
      }
    }
  }

  // ----- and back

  /** The test that keeps Deserialize from reading past the list, in the arithmetic of a size_t: without
      a value to copy the subtraction wraps around and ends the loop. */
  predicate LoopGuard(i: nat, srcNumCoords: nat, minNumCoords: nat, count: nat) {
    (Span(i, srcNumCoords) + minNumCoords - 1) % TWO_TO_THE_64 < count
  }

  /** Whether the list has a whole row for element i. */
  predicate RowThere(i: nat, srcNumCoords: nat, minNumCoords: nat, count: nat) {
    minNumCoords > 0 && Span(i, srcNumCoords) + minNumCoords <= count
  }

  lemma GuardMeans(i: nat, srcNumCoords: nat, minNumCoords: nat, count: nat)
    requires minNumCoords <= srcNumCoords < 0x1_0000 && count < TWO_TO_THE_32
    requires i > 0 ==> RowThere(i - 1, srcNumCoords, minNumCoords, count)
    ensures LoopGuard(i, srcNumCoords, minNumCoords, count) <==> RowThere(i, srcNumCoords, minNumCoords, count)
  {
    SpanNext(0, srcNumCoords);
    if i > 0 { SpanNext(i - 1, srcNumCoords); }
    hide Span;
    var x := Span(i, srcNumCoords) + minNumCoords - 1;
    assert x < TWO_TO_THE_64;
    if x >= 0 {
      assert x % TWO_TO_THE_64 == x;
    } else {
      assert x == -1 && x % TWO_TO_THE_64 == TWO_TO_THE_64 - 1;
    }
  }

  /** How many elements are restored: as many as the pin has and the list has rows for. */
  function Elements(count: nat, srcNumCoords: nat, minNumCoords: nat, dstSize: nat): nat
    requires minNumCoords <= srcNumCoords
  {
    if minNumCoords == 0 || count < minNumCoords then 0 else Min(dstSize, (count - minNumCoords) / srcNumCoords + 1)
  }

  lemma ElementsAre(n: nat, count: nat, srcNumCoords: nat, minNumCoords: nat, dstSize: nat)
    requires minNumCoords <= srcNumCoords && n <= dstSize
    requires n > 0 ==> RowThere(n - 1, srcNumCoords, minNumCoords, count)
    requires n < dstSize ==> !RowThere(n, srcNumCoords, minNumCoords, count)
    ensures n == Elements(count, srcNumCoords, minNumCoords, dstSize)
  {
    SpanNext(0, srcNumCoords);
    if minNumCoords > 0 && count >= minNumCoords {
      var q := (count - minNumCoords) / srcNumCoords;
      DivMod(count - minNumCoords, srcNumCoords);
      SpanNext(q, srcNumCoords);
      assert RowThere(q, srcNumCoords, minNumCoords, count) && !RowThere(q + 1, srcNumCoords, minNumCoords, count);
      hide Span;
      if n < q + 1 {
        SpanMonotone(n, q, srcNumCoords);
      } else if n > q + 1 {
        SpanMonotone(q + 1, n - 1, srcNumCoords);
        assert false;
      }
    }
  }

  lemma SpanSum(a: nat, b: nat, size: nat)
    ensures Span(a + b, size) == Span(a, size) + Span(b, size)
  {
  }

  lemma SpanNested(a: nat, b: nat, size: nat)
    ensures Span(Span(a, b), size) == Span(a, Span(b, size))
  {
    assert (a * b) * size == a * (b * size);
  }

  /** Where value j of row i lies in the encoded list. */
  lemma RowInBytes(values: seq<PinValue>, t: NodePropertyType, numCoords: nat, i: nat, j: nat)
    requires AllOf(t, values) && Span(i, numCoords) + j < |values|
    ensures var p, size := Span(i, Span(numCoords, SizeOf(t))) + Span(j, SizeOf(t)), SizeOf(t);
            p + size <= |EncodeAll(values)| && EncodeAll(values)[p..p + size] == Encode(values[Span(i, numCoords) + j])
  {
    hide Span, Encode;
    var k := Span(i, numCoords) + j;
    EncodeAllAt(t, values, k);
    SpanSum(Span(i, numCoords), j, SizeOf(t));
    SpanNested(i, numCoords, SizeOf(t));
  }

  lemma CopyExtends(src: seq<Byte>, from: nat, was: seq<Byte>, mid: seq<Byte>, now: seq<Byte>, at: nat, done: nat,
      more: seq<Byte>)
    requires from + done + |more| <= |src| && src[from + done..from + done + |more|] == more
    requires Copied(src, from, was, mid, at, done) && Copied(more, 0, mid, now, at + done, |more|)
    ensures Copied(src, from, was, now, at, done + |more|)
  {
    forall k | 0 <= k < |now| ensures now[k] == if at <= k < at + done + |more| then src[from + (k - at)] else was[k] {
      if at + done <= k < at + done + |more| {
        assert more[k - at - done] == src[from + done..from + done + |more|][k - at - done];
      }
    }
  }

  /** The getter of one type, as it answers for values of any type: a value of its own type is what
      it says, the answer for another one is up to the list. */
  ghost predicate Getter(t: NodePropertyType, read: PinValue -> PinValue) {
    forall v :: TypeOf(read(v)) == t && (TypeOf(v) == t ==> read(v) == v)
  }

  ghost function ReadAll(values: seq<PinValue>, read: PinValue -> PinValue): (r: seq<PinValue>)
    ensures |r| == |values| && forall k :: 0 <= k < |r| ==> r[k] == read(values[k])
  {
    seq(|values|, k requires 0 <= k < |values| => read(values[k]))
  }

  lemma ReadOwnType(t: NodePropertyType, values: seq<PinValue>, read: PinValue -> PinValue)
    requires Getter(t, read)
    ensures AllOf(t, ReadAll(values, read))
    ensures AllOf(t, values) ==> ReadAll(values, read) == values
  {
  }

  /** One element: the values of a row, side by side. */
  method RestoreRow(values: seq<PinValue>, read: PinValue -> PinValue, t: NodePropertyType,
                    srcNumCoords: nat, minNumCoords: nat, i: nat, buf: array<Byte>, dsti: nat)
    requires Getter(t, read) && Scalar(t) && RowThere(i, srcNumCoords, minNumCoords, |values|)
    requires dsti + Span(minNumCoords, SizeOf(t)) <= buf.Length
    modifies buf
    ensures var bytes, from := EncodeAll(ReadAll(values, read)), Span(i, Span(srcNumCoords, SizeOf(t)));
            && from + Span(minNumCoords, SizeOf(t)) <= |bytes|
            && Copied(bytes, from, old(buf[..]), buf[..], dsti, Span(minNumCoords, SizeOf(t)))
  {
    hide Span, Copied, Encode, EncodeAll, Getter;
    ghost var was, listed, from := buf[..], ReadAll(values, read), Span(i, Span(srcNumCoords, SizeOf(t)));
    ghost var bytes := EncodeAll(listed);
    ReadOwnType(t, values, read);
    RowInBytes(listed, t, srcNumCoords, i, minNumCoords - 1);
    SpanNext(minNumCoords - 1, SizeOf(t));
    SpanNext(0, SizeOf(t));
    CopiedNothing(bytes, from, was, dsti);
    var srci := Span(i, srcNumCoords);
    for j := 0 to minNumCoords
      invariant from + Span(j, SizeOf(t)) <= |bytes|
      invariant Copied(bytes, from, was, buf[..], dsti, Span(j, SizeOf(t)))
    {
      RowInBytes(listed, t, srcNumCoords, i, j);
      SpanMonotone(j + 1, minNumCoords, SizeOf(t));
      SpanNext(j, SizeOf(t));
      ghost var mid := buf[..];
      assert listed[srci + j] == read(values[srci + j]);
      var value := Encode(read(values[srci + j]));
      Copy(value, 0, buf, dsti + Span(j, SizeOf(t)), |value|);
      CopyExtends(bytes, from, was, mid, buf[..], dsti, Span(j, SizeOf(t)), value);
    }
  }

  lemma CopiedNothing(src: seq<Byte>, from: nat, was: seq<Byte>, at: nat)
    requires from <= |src| && at <= |was|
    ensures Copied(src, from, was, was, at, 0)
  {
  }

  /** Puts listed values back. The list may have been written for another number of elements or of
      values per element; the rows it has go to the elements the pin has. Only the first value decides
      whether the list is of the right type. */
  method Deserialize(values: seq<PinValue>, read: PinValue -> PinValue, srcNumCoords: nat, t: NodePropertyType,
                     buf: array<Byte>, pin: PinLayout)
    returns (outcome: Outcome)
    requires t != String && (Scalar(t) ==> Getter(t, read))
    requires |values| < TWO_TO_THE_32 && srcNumCoords < 0x1_0000
    requires pin.size > 0 ==>
      pin.buffer + Span(pin.size - 1, pin.stride) + Span(Min(srcNumCoords, pin.numCoords), SizeOf(t)) <= buf.Length
    modifies buf
    ensures outcome == if values == [] then Skipped else if Scalar(t) then Finished else NotImplemented
    ensures outcome != Finished || TypeOf(values[0]) != t ==> buf[..] == old(buf[..])
    ensures outcome == Finished && TypeOf(values[0]) == t ==>
              Restored(ReadAll(values, read), srcNumCoords, t, pin, old(buf[..]), buf[..])
    ensures outcome == Finished && AllOf(t, values) ==> Restored(values, srcNumCoords, t, pin, old(buf[..]), buf[..])
    ensures outcome == Finished && TypeOf(values[0]) == t
            && pin.stride >= Span(Min(srcNumCoords, pin.numCoords), SizeOf(t)) ==>
              AllPlaced(ReadAll(values, read), srcNumCoords, t, buf[..], pin)
  {
    hide Span, Strided, LoopGuard, RowThere, Elements, Getter, EncodeAll, AllPlaced;
    if values == [] {
      return Skipped;
    }
    if !Scalar(t) {
      return NotImplemented;
    }
    outcome := Finished;
    var minNumCoords := Min(srcNumCoords, pin.numCoords);
    ReadOwnType(t, values, read);
    if TypeOf(values[0]) == t {
      ghost var was, bytes := buf[..], EncodeAll(ReadAll(values, read));
      ghost var width, step := Span(minNumCoords, SizeOf(t)), Span(srcNumCoords, SizeOf(t));
      StridedNone(bytes, was, pin, width, step);
      GuardMeans(0, srcNumCoords, minNumCoords, |values|);
      var i := 0;
      while i < pin.size && LoopGuard(i, srcNumCoords, minNumCoords, |values|)
        invariant i <= pin.size
        invariant i > 0 ==> RowThere(i - 1, srcNumCoords, minNumCoords, |values|)
        invariant LoopGuard(i, srcNumCoords, minNumCoords, |values|)
          <==> RowThere(i, srcNumCoords, minNumCoords, |values|)
        invariant i > 0 ==>
          pin.buffer + Span(i - 1, pin.stride) + width <= |was| && Span(i - 1, step) + width <= |bytes|
        invariant buf[..] == Strided(bytes, was, pin.buffer, pin.stride, width, step, i)
      {
        SpanMonotone(i, pin.size - 1, pin.stride);
        ghost var mid := buf[..];
        RestoreRow(values, read, t, srcNumCoords, minNumCoords, i, buf, pin.buffer + Span(i, pin.stride));
        StridedMore(bytes, was, mid, buf[..], pin, width, step, i);
        i := i + 1;
        GuardMeans(i, srcNumCoords, minNumCoords, |values|);
      }
      ElementsAre(i, |values|, srcNumCoords, minNumCoords, pin.size);
      if pin.stride >= width {
        RestoredPlaces(ReadAll(values, read), srcNumCoords, t, pin, was, buf[..]);
      }
    }
  }

  lemma StridedNone(src: seq<Byte>, was: seq<Byte>, pin: PinLayout, width: nat, step: nat)
    ensures Strided(src, was, pin.buffer, pin.stride, width, step, 0) == was
  {
  }

  /** The buffer after the rows of a list were put to their elements, as a strided copy of the bytes
      of the values would put them. */
  ghost predicate Restored(values: seq<PinValue>, srcNumCoords: nat, t: NodePropertyType, pin: PinLayout,
      was: seq<Byte>, now: seq<Byte>) {
    var minNumCoords := Min(srcNumCoords, pin.numCoords);
    var width, step := Span(minNumCoords, SizeOf(t)), Span(srcNumCoords, SizeOf(t));
    var n := Elements(|values|, srcNumCoords, minNumCoords, pin.size);
    && (n > 0 ==>
      pin.buffer + Span(n - 1, pin.stride) + width <= |was| && Span(n - 1, step) + width <= |EncodeAll(values)|)
    && now == Strided(EncodeAll(values), was, pin.buffer, pin.stride, width, step, n)
  }

  /** Value j of row i of a list, if the list has the whole row, is the value j of element i in the buffer. */
  ghost predicate Placed(values: seq<PinValue>, srcNumCoords: nat, t: NodePropertyType, buf: seq<Byte>,
                         pin: PinLayout, i: nat, j: nat)
    requires j < Min(srcNumCoords, pin.numCoords)
  {
    Span(i, srcNumCoords) + Min(srcNumCoords, pin.numCoords) <= |values| ==>
      && ValueAt(t, buf, pin, i, j, values[Span(i, srcNumCoords) + j])
      && (t.Bool? ==> buf[pin.buffer + Span(i, pin.stride) + Span(j, 1)] <= 1)
  }

  ghost predicate AllPlaced(values: seq<PinValue>, srcNumCoords: nat, t: NodePropertyType, buf: seq<Byte>,
      pin: PinLayout) {
    forall i: nat, j: nat {:trigger Placed(values, srcNumCoords, t, buf, pin, i, j)} ::
      i < pin.size && j < Min(srcNumCoords, pin.numCoords) ==> Placed(values, srcNumCoords, t, buf, pin, i, j)
  }

  lemma RestoredPlaces(values: seq<PinValue>, srcNumCoords: nat, t: NodePropertyType, pin: PinLayout,
                       was: seq<Byte>, now: seq<Byte>)
    requires Scalar(t) && AllOf(t, values) && Restored(values, srcNumCoords, t, pin, was, now)
    requires pin.stride >= Span(Min(srcNumCoords, pin.numCoords), SizeOf(t))
    ensures AllPlaced(values, srcNumCoords, t, now, pin)
  {
    hide Restored, Span;
    forall i: nat, j: nat | i < pin.size && j < Min(srcNumCoords, pin.numCoords)
      ensures Placed(values, srcNumCoords, t, now, pin, i, j)
    {
      if Span(i, srcNumCoords) + Min(srcNumCoords, pin.numCoords) <= |values| {
        RestoredValue(values, srcNumCoords, t, pin, was, now, i, j);
      }
    }
  }

  lemma RestoredValue(values: seq<PinValue>, srcNumCoords: nat, t: NodePropertyType, pin: PinLayout,
                      was: seq<Byte>, now: seq<Byte>, i: nat, j: nat)
    requires Scalar(t) && AllOf(t, values) && Restored(values, srcNumCoords, t, pin, was, now)
    requires pin.stride >= Span(Min(srcNumCoords, pin.numCoords), SizeOf(t))
    requires i < pin.size && j < Min(srcNumCoords, pin.numCoords)
    requires Span(i, srcNumCoords) + Min(srcNumCoords, pin.numCoords) <= |values|
    ensures ValueAt(t, now, pin, i, j, values[Span(i, srcNumCoords) + j])
    ensures t.Bool? ==> now[pin.buffer + Span(i, pin.stride) + Span(j, 1)] <= 1
  {
    hide Span, Strided, Encode, Means;
    var min, size, bytes := Min(srcNumCoords, pin.numCoords), SizeOf(t), EncodeAll(values);
    var width, step, n := Span(min, size), Span(srcNumCoords, size), Elements(|values|, srcNumCoords, min, pin.size);
    var at, p := pin.buffer + Span(i, pin.stride) + Span(j, size), Span(i, step) + Span(j, size);
    ElementInRange(i, |values|, srcNumCoords, min, pin.size);
    RowInBytes(values, t, srcNumCoords, i, j);
    SpanNext(j, size);
    SpanMonotone(j + 1, min, size);
    assert at + size <= |was| by { SpanMonotone(i, n - 1, pin.stride); }
    var read, listed := now[at..at + size], bytes[p..p + size];
    forall x: nat | x < size ensures read[x] == listed[x] {
      StridedElement(bytes, was, pin.buffer, pin.stride, width, step, n, i, Span(j, size) + x);
      assert listed[x] == bytes[p + x] && read[x] == now[at + x];
    }
    assert read == listed;
    EncodeMeans(values[Span(i, srcNumCoords) + j], now, at);
  }

  lemma ElementInRange(i: nat, count: nat, srcNumCoords: nat, minNumCoords: nat, dstSize: nat)
    requires 0 < minNumCoords <= srcNumCoords && i < dstSize && Span(i, srcNumCoords) + minNumCoords <= count
    ensures i < Elements(count, srcNumCoords, minNumCoords, dstSize)
  {
    var q := (count - minNumCoords) / srcNumCoords;
    DivMod(count - minNumCoords, srcNumCoords);
    SpanNext(q, srcNumCoords);
    if i > q {
      SpanMonotone(q + 1, i, srcNumCoords);
      assert false;
    }
  }

  // ----- the round trip

  /** A list written from one pin and read into another with as many values per element restores every
      value of the elements that both have. */
  lemma RoundTrip(t: NodePropertyType, values: seq<PinValue>, pin: PinLayout, from: seq<Byte>, pin': PinLayout,
      was: seq<Byte>, now: seq<Byte>,
                  i: nat, j: nat)
    requires Scalar(t) && pin.numCoords == pin'.numCoords && |values| == Span(pin.size, pin.numCoords)
    requires Readable(t, from, pin) && forall r: nat :: r < pin.size ==> RowListed(values, t, from, pin, r)
    requires AllOf(t, values) && Restored(values, pin.numCoords, t, pin', was, now)
    requires pin'.stride >= Span(pin'.numCoords, SizeOf(t))
    requires i < pin.size && i < pin'.size && j < pin.numCoords
    ensures var size := SizeOf(t);
            var at := pin.buffer + Span(i, pin.stride) + Span(j, size);
            var at' := pin'.buffer + Span(i, pin'.stride) + Span(j, size);
            at + size <= |from| && at' + size <= |now| && now[at'..at' + size] == from[at..at + size]
  {
    hide Span, Strided, Encode, Decode, Means;
    var c, size := pin.numCoords, SizeOf(t);
    var width, bytes, p := Span(c, size), EncodeAll(values), Span(i, Span(c, size)) + Span(j, size);
    var at, at' := pin.buffer + Span(i, pin.stride) + Span(j, size), pin'.buffer + Span(i, pin'.stride) + Span(j, size);
    RowsAll(pin.size, c, pin'.size);
    var n := Elements(|values|, c, c, pin'.size);
    assert RowListed(values, t, from, pin, i);
    assert Listed(values, t, from, pin, Span(i, c), i, j);
    ElementInside(pin, i, j, size, c);
    assert Holds(t, from[at..at + size]);
    DecodeMeans(t, from, at, values[Span(i, c) + j]);
    EncodeDecode(t, from[at..at + size]);
    RowInBytes(values, t, c, i, j);
    SpanNext(j, size);
    SpanMonotone(j + 1, c, size);
    assert at' + size <= |was| by { SpanMonotone(i, n - 1, pin'.stride); }
    var read, written, listed := now[at'..at' + size], from[at..at + size], bytes[p..p + size];
    forall x: nat | x < size ensures read[x] == written[x] {
      StridedElement(bytes, was, pin'.buffer, pin'.stride, width, width, n, i, Span(j, size) + x);
      assert listed[x] == bytes[p + x] && read[x] == now[at' + x];
    }
  }

  /** A list of whole rows has a row for every element both sides have. */
  lemma RowsAll(srcSize: nat, numCoords: nat, dstSize: nat)
    requires numCoords > 0
    ensures Elements(Span(srcSize, numCoords), numCoords, numCoords, dstSize) == Min(srcSize, dstSize)
  {
    SpanNext(0, numCoords);
    var n := Min(srcSize, dstSize);
    if n > 0 {
      SpanNext(n - 1, numCoords);
      SpanMonotone(n, srcSize, numCoords);
    }
    if n < dstSize {
      SpanNext(srcSize, numCoords);
    }
    ElementsAre(n, Span(srcSize, numCoords), numCoords, numCoords, dstSize);
  }

  /** Bytes that belong to no value stay as they were. */
  lemma BetweenElements(values: seq<PinValue>, srcNumCoords: nat, t: NodePropertyType, pin: PinLayout,
      was: seq<Byte>, now: seq<Byte>, k: nat)
    requires Restored(values, srcNumCoords, t, pin, was, now) && k < |was|
    requires forall i: nat :: i < pin.size ==>
      !(pin.buffer + Span(i, pin.stride) <= k < pin.buffer + Span(i, pin.stride) + Span(pin.numCoords, SizeOf(t)))
    ensures |now| == |was| && now[k] == was[k]
  {
    var minNumCoords := Min(srcNumCoords, pin.numCoords);
    var width, step := Span(minNumCoords, SizeOf(t)), Span(srcNumCoords, SizeOf(t));
    SpanMonotone(minNumCoords, pin.numCoords, SizeOf(t));
    StridedGap(EncodeAll(values), was, pin.buffer, pin.stride, width, step,
        Elements(|values|, srcNumCoords, minNumCoords, pin.size), k);
  }
}
