/** Pushing values of one type to an input pin: the single copy for tightly packed inputs and the
    element by element copy for inputs with a stride. */
module PinCopy {
  import opened Buffers

  /** What the copies need to know of an input pin: `buffer` is where its first element starts, `size`
      how many elements it has, `sizeInBytes` how long each of their values is. */
  datatype PinLayout = PinLayout(buffer: nat, size: nat, sizeInBytes: nat, stride: nat, numCoords: nat) {
    function BufferSize(): nat { Span(size, Span(numCoords, sizeInBytes)) }
  }

  /** The forms of copy that GetConvertMulti chooses from. */
  datatype Form = OneCopy | PerElement | WithStride | Converting

  function GetConvertMulti(sameType: bool, elementSize: nat, outNumCoords: nat, pinIn: PinLayout): Form {
    if !sameType then Converting
    else if pinIn.stride == Span(pinIn.numCoords, elementSize) then
      if pinIn.numCoords == outNumCoords then OneCopy else PerElement
    else WithStride
  }

  /** Data of the output pin: srcSize elements of numCoords values each, without gaps. */
  ghost predicate Packed(src: seq<Byte>, srcSize: nat, numCoords: nat, elementSize: nat) {
    |src| == Span(srcSize, Span(numCoords, elementSize))
  }

  // ----- one copy

  method CopyFlat(src: seq<Byte>, srcSize: nat, srcNumCoords: nat, elementSize: nat, buf: array<Byte>, pinIn: PinLayout)
    requires Packed(src, srcSize, srcNumCoords, elementSize)
    requires pinIn.buffer + pinIn.BufferSize() <= buf.Length
    modifies buf
    ensures Copied(src, 0, old(buf[..]), buf[..], pinIn.buffer, Min(|src|, pinIn.BufferSize()))
  {
    var bytesToCopy := Min(Span(srcSize, Span(srcNumCoords, elementSize)), pinIn.BufferSize());
    Copy(src, 0, buf, pinIn.buffer, bytesToCopy);
  }

  // ----- copy with a stride

  /** The buffer after the first n elements: each goes to its place, over whatever was there. */
  ghost function Strided(src: seq<Byte>, was: seq<Byte>, at: nat, stride: nat, width: nat, step: nat,
      n: nat): (now: seq<Byte>)
    requires n > 0 ==> at + Span(n - 1, stride) + width <= |was| && Span(n - 1, step) + width <= |src|
    ensures |now| == |was|
    decreases n
  {
    if n == 0 then was
    else
      StridedRoom(stride, n);
      StridedRoom(step, n);
      var before := Strided(src, was, at, stride, width, step, n - 1);
      var p := at + Span(n - 1, stride);
      before[..p] + src[Span(n - 1, step)..Span(n - 1, step) + width] + before[p + width..]
  }

  lemma StridedRoom(step: nat, n: nat)
    requires n > 0
    ensures n > 1 ==> Span(n - 2, step) <= Span(n - 1, step)
  {
    if n > 1 { SpanNext(n - 2, step); }
  }

  /** How many elements are copied. Without a value to copy the walk ends before it starts. */
  function Copies(srcSize: nat, step: nat, dstSize: nat): nat {
    if step == 0 then 0 else Min(srcSize, dstSize)
  }

  method CopyStrided(src: seq<Byte>, srcSize: nat, srcNumCoords: nat, elementSize: nat, buf: array<Byte>,
      pinIn: PinLayout)
    requires Packed(src, srcSize, srcNumCoords, elementSize)
    requires pinIn.size > 0 ==>
      pinIn.buffer + Span(pinIn.size - 1, pinIn.stride)
          + Span(Min(srcNumCoords, pinIn.numCoords), elementSize) <= buf.Length
    modifies buf
    ensures var width, step := Span(Min(srcNumCoords, pinIn.numCoords), elementSize), Span(srcNumCoords, elementSize);
            var n := Copies(srcSize, step, pinIn.size);
            && (n > 0 ==>
              pinIn.buffer + Span(n - 1, pinIn.stride) + width <= buf.Length && Span(n - 1, step) + width <= |src|)
            && buf[..] == Strided(src, old(buf[..]), pinIn.buffer, pinIn.stride, width, step, n)
    ensures pinIn.stride >= srcNumCoords * elementSize || pinIn.stride >= pinIn.numCoords * elementSize ==>
      AllPlaced(src, srcSize, srcNumCoords, elementSize, buf[..], pinIn)
  {
    hide Span, Copied, Strided, Fits, AllPlaced;
    var numCoords := Min(srcNumCoords, pinIn.numCoords);
    var width, step := Span(numCoords, elementSize), Span(srcNumCoords, elementSize);
    SpanMonotone(numCoords, srcNumCoords, elementSize);
    var srcOff, srcEnd := 0, |src|;
    var i := 0;
    ghost var was := buf[..];
    Begin(src, was, srcSize, pinIn, width, step);
    while i < pinIn.size && srcOff != srcEnd
      invariant i <= pinIn.size && i <= srcSize && srcOff == Span(i, step)
      invariant step == 0 ==> i == 0
      invariant i > 0 ==>
        pinIn.buffer + Span(i - 1, pinIn.stride) + width <= |was| && Span(i - 1, step) + width <= |src|
      invariant buf[..] == Strided(src, was, pinIn.buffer, pinIn.stride, width, step, i)
    {
      FitsAt(src, buf.Length, srcSize, pinIn, width, step, i);
      ghost var mid := buf[..];
      var dsti := pinIn.buffer + Span(i, pinIn.stride);
      Copy(src, srcOff, buf, dsti, width);
      StridedMore(src, was, mid, buf[..], pinIn, width, step, i);
      SpanNext(i, step);
      i := i + 1;
      srcOff := srcOff + step;
    }
    WalkEnds(src, srcSize, step, i);
    StridedPlaces(src, srcSize, srcNumCoords, elementSize, was, pinIn);
  }

  /** Room for every element on both sides. */
  ghost predicate Fits(src: seq<Byte>, length: nat, srcSize: nat, pinIn: PinLayout, width: nat, step: nat) {
    && |src| == Span(srcSize, step) && width <= step
    && (pinIn.size > 0 ==> pinIn.buffer + Span(pinIn.size - 1, pinIn.stride) + width <= length)
  }

  lemma SpanMonotone(a: nat, b: nat, size: nat)
    requires a <= b
    ensures Span(a, size) <= Span(b, size)
  {
    ProductMonotone(a, b, size);
  }

  lemma Begin(src: seq<Byte>, was: seq<Byte>, srcSize: nat, pinIn: PinLayout, width: nat, step: nat)
    requires |src| == Span(srcSize, step) && width <= step
    requires pinIn.size > 0 ==> pinIn.buffer + Span(pinIn.size - 1, pinIn.stride) + width <= |was|
    ensures Fits(src, |was|, srcSize, pinIn, width, step)
    ensures Span(0, step) == 0 && (step == 0 ==> |src| == 0)
    ensures Strided(src, was, pinIn.buffer, pinIn.stride, width, step, 0) == was
  {
  }

  lemma StridedMore(src: seq<Byte>, was: seq<Byte>, mid: seq<Byte>, now: seq<Byte>, pinIn: PinLayout, width: nat,
      step: nat, i: nat)
    requires i > 0 ==> pinIn.buffer + Span(i - 1, pinIn.stride) + width <= |was| && Span(i - 1, step) + width <= |src|
    requires pinIn.buffer + Span(i, pinIn.stride) + width <= |was| && Span(i, step) + width <= |src|
    requires mid == Strided(src, was, pinIn.buffer, pinIn.stride, width, step, i)
    requires Copied(src, Span(i, step), mid, now, pinIn.buffer + Span(i, pinIn.stride), width)
    ensures now == Strided(src, was, pinIn.buffer, pinIn.stride, width, step, i + 1)
  {
    hide Span;
    CopiedSlices(src, Span(i, step), mid, now, pinIn.buffer + Span(i, pinIn.stride), width);
  }

  lemma FitsAt(src: seq<Byte>, length: nat, srcSize: nat, pinIn: PinLayout, width: nat, step: nat, i: nat)
    requires Fits(src, length, srcSize, pinIn, width, step) && i < pinIn.size
    requires i <= srcSize && Span(i, step) != |src|
    ensures i < srcSize && pinIn.buffer + Span(i, pinIn.stride) + width <= length
    ensures Span(i, step) + width <= |src|
  {
    ProductMonotone(i, pinIn.size - 1, pinIn.stride);
    ProductMonotone(i + 1, srcSize, step);
    SpanNext(i, step);
  }

  lemma WalkEnds(src: seq<Byte>, srcSize: nat, step: nat, i: nat)
    requires |src| == Span(srcSize, step) && i <= srcSize && (step == 0 ==> i == 0)
    ensures Span(i, step) == |src| && step > 0 ==> i == srcSize
  {
    if i < srcSize && step > 0 {
      ProductMonotone(i + 1, srcSize, step);
      SpanNext(i, step);
    }
  }

  lemma CopiedSlices(src: seq<Byte>, from: nat, was: seq<Byte>, now: seq<Byte>, at: nat, count: nat)
    requires from + count <= |src| && Copied(src, from, was, now, at, count)
    ensures now == was[..at] + src[from..from + count] + was[at + count..]
  {
  }

  // ----- what the strided copy means

  /** Byte b of element i. When a stride covers an element, every element of the source is found in
      its place, up to the shorter number of values. */
  lemma {:induction false} StridedElement(src: seq<Byte>, was: seq<Byte>, at: nat, stride: nat, width: nat,
      step: nat, n: nat, i: nat, b: nat)
    requires n > 0 ==> at + Span(n - 1, stride) + width <= |was| && Span(n - 1, step) + width <= |src|
    requires i < n && b < width <= stride
    ensures at + Span(i, stride) + b < |was| && Span(i, step) + b < |src|
    ensures Strided(src, was, at, stride, width, step, n)[at + Span(i, stride) + b] == src[Span(i, step) + b]
    decreases n
  {
    hide Span;
    StridedRoom(stride, n);
    StridedRoom(step, n);
    if i < n - 1 {
      StridedElement(src, was, at, stride, width, step, n - 1, i, b);
      SpanGrows(i, n - 1, stride);
    }
  }

  /** Byte b of element i of the source stands in element i of the pin. */
  ghost predicate Placed(src: seq<Byte>, srcNumCoords: nat, elementSize: nat, now: seq<Byte>, pinIn: PinLayout,
      i: nat, b: nat) {
    var from, to := i * (srcNumCoords * elementSize) + b, pinIn.buffer + i * pinIn.stride + b;
    from < |src| && to < |now| && now[to] == src[from]
  }

  /** So does every byte of every value that both sides have. */
  ghost predicate AllPlaced(src: seq<Byte>, srcSize: nat, srcNumCoords: nat, elementSize: nat, now: seq<Byte>,
      pinIn: PinLayout) {
    forall i: nat, b: nat ::
      i < srcSize && i < pinIn.size && b < srcNumCoords * elementSize && b < pinIn.numCoords * elementSize ==>
        Placed(src, srcNumCoords, elementSize, now, pinIn, i, b)
  }

  lemma StridedPlaces(src: seq<Byte>, srcSize: nat, srcNumCoords: nat, elementSize: nat, was: seq<Byte>,
      pinIn: PinLayout)
    requires Packed(src, srcSize, srcNumCoords, elementSize)
    requires var width, step := Span(Min(srcNumCoords, pinIn.numCoords), elementSize), Span(srcNumCoords, elementSize);
             var n := Copies(srcSize, step, pinIn.size);
             n > 0 ==>
               pinIn.buffer + Span(n - 1, pinIn.stride) + width <= |was| && Span(n - 1, step) + width <= |src|
    ensures var width, step := Span(Min(srcNumCoords, pinIn.numCoords), elementSize), Span(srcNumCoords, elementSize);
            var now := Strided(src, was, pinIn.buffer, pinIn.stride, width, step, Copies(srcSize, step, pinIn.size));
            pinIn.stride >= srcNumCoords * elementSize || pinIn.stride >= pinIn.numCoords * elementSize ==>
              AllPlaced(src, srcSize, srcNumCoords, elementSize, now, pinIn)
  {
    hide Strided;
    var width, step := Span(Min(srcNumCoords, pinIn.numCoords), elementSize), Span(srcNumCoords, elementSize);
    var n := Copies(srcSize, step, pinIn.size);
    MinSpan(srcNumCoords, pinIn.numCoords, elementSize);
    if pinIn.stride >= width {
      forall i: nat, b: nat | i < srcSize && i < pinIn.size && b < srcNumCoords * elementSize
                              && b < pinIn.numCoords * elementSize
        ensures Placed(src, srcNumCoords, elementSize,
                       Strided(src, was, pinIn.buffer, pinIn.stride, width, step, n), pinIn, i, b)
      {
        StridedElement(src, was, pinIn.buffer, pinIn.stride, width, step, n, i, b);
      }
    }
  }

  /** Bytes outside the elements stay as they were, those between elements included. */
  lemma {:induction false} StridedGap(src: seq<Byte>, was: seq<Byte>, at: nat, stride: nat, width: nat, step: nat,
      n: nat, k: nat)
    requires n > 0 ==> at + Span(n - 1, stride) + width <= |was| && Span(n - 1, step) + width <= |src|
    requires k < |was| && forall i: nat :: i < n ==> !(at + Span(i, stride) <= k < at + Span(i, stride) + width)
    ensures Strided(src, was, at, stride, width, step, n)[k] == was[k]
    decreases n
  {
    hide Span;
    if n > 0 {
      StridedRoom(stride, n);
      StridedRoom(step, n);
      StridedGap(src, was, at, stride, width, step, n - 1, k);
      assert !(at + Span(n - 1, stride) <= k < at + Span(n - 1, stride) + width);
    }
  }

  /** Elements without gaps on either side make up one copy. */
  lemma {:induction false} TightIsFlat(src: seq<Byte>, was: seq<Byte>, at: nat, width: nat, n: nat)
    requires at + Span(n, width) <= |was| && Span(n, width) <= |src|
    ensures n > 0 ==> at + Span(n - 1, width) + width <= |was| && Span(n - 1, width) + width <= |src|
    ensures Copied(src, 0, was, Strided(src, was, at, width, width, width, n), at, Span(n, width))
    decreases n
  {
    SpanNext(0, width);
    if n > 0 {
      SpanNext(n - 1, width);
      StridedRoom(width, n);
      TightIsFlat(src, was, at, width, n - 1);
    }
  }

  lemma CopiedOnce(src: seq<Byte>, was: seq<Byte>, now: seq<Byte>, now': seq<Byte>, at: nat, count: nat)
    requires count <= |src| && Copied(src, 0, was, now, at, count) && Copied(src, 0, was, now', at, count)
    ensures now == now'
  {
  }

  lemma MinSpan(a: nat, b: nat, size: nat)
    ensures Min(Span(a, size), Span(b, size)) == Span(Min(a, b), size)
    ensures size == 0 ==> Span(a, size) == 0
  {
    if a <= b { ProductMonotone(a, b, size); } else { ProductMonotone(b, a, size); }
  }

  /** Where GetConvertMulti chooses the single copy for a pin whose values have the size of their
      type, it leaves the buffer as the strided copy would. */
  lemma OneCopyIsStrided(src: seq<Byte>, srcSize: nat, srcNumCoords: nat, elementSize: nat, was: seq<Byte>,
      now: seq<Byte>, pinIn: PinLayout)
    requires Packed(src, srcSize, srcNumCoords, elementSize)
    requires GetConvertMulti(true, elementSize, srcNumCoords, pinIn) == OneCopy && pinIn.sizeInBytes == elementSize
    requires pinIn.buffer + pinIn.BufferSize() <= |was|
    requires Copied(src, 0, was, now, pinIn.buffer, Min(|src|, pinIn.BufferSize()))
    ensures var width := Span(srcNumCoords, elementSize);
            var n := Copies(srcSize, width, pinIn.size);
            && (n > 0 ==>
              pinIn.buffer + Span(n - 1, pinIn.stride) + width <= |was| && Span(n - 1, width) + width <= |src|)
            && now == Strided(src, was, pinIn.buffer, pinIn.stride, width, width, n)
  {
    hide Span, Copied, Strided;
    var width := Span(srcNumCoords, elementSize);
    var n := Copies(srcSize, width, pinIn.size);
    MinSpan(srcSize, pinIn.size, width);
    MinSpan(n, n, width);
    assert Span(n, width) == Min(|src|, pinIn.BufferSize());
    TightIsFlat(src, was, pinIn.buffer, width, n);
    CopiedOnce(src, was, now, Strided(src, was, pinIn.buffer, width, width, width, n), pinIn.buffer, Span(n, width));
  }
}
