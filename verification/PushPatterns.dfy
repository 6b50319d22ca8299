/** The push patterns: how the bytes of an output fill the buffer of an input. A destination is a
    stretch of a larger buffer, so that what lies beside it is part of the contracts. */
module PushPatterns {
  import opened Buffers

  /** Copies once, as much as there is and fits. */
  method OneToOne(src: seq<Byte>, buf: array<Byte>, dst: nat, dstSize: nat)
    requires dst + dstSize <= buf.Length
    modifies buf
    ensures forall k :: 0 <= k < buf.Length ==>
      buf[k] == if dst <= k < dst + dstSize && k - dst < |src| then src[k - dst] else old(buf[k])
  {
    var bytesToCopy := Min(|src|, dstSize);
    Copy(src, 0, buf, dst, bytesToCopy);
  }

  // ----- repeat

  /** Where the writes of repeat stand after some rounds of its loop. */
  function RepeatOffset(srcSize: nat, dstSize: nat, rounds: nat): (off: nat)
    ensures off <= dstSize
  {
    if rounds == 0 then 0
    else var off := RepeatOffset(srcSize, dstSize, rounds - 1); off + Min(srcSize, dstSize - off)
  }

  /** The loop comes to its end exactly when there is something to repeat or nothing to fill. */
  lemma RepeatEndsIff(srcSize: nat, dstSize: nat)
    ensures (exists rounds: nat :: RepeatOffset(srcSize, dstSize, rounds) == dstSize) <==> srcSize > 0 || dstSize == 0
  {
    if srcSize > 0 {
      RepeatAdvances(srcSize, dstSize, dstSize);
    } else if dstSize > 0 {
      forall rounds: nat ensures RepeatOffset(0, dstSize, rounds) == 0 {
        RepeatStuck(dstSize, rounds);
      }
    } else {
      assert RepeatOffset(srcSize, dstSize, 0) == dstSize;
    }
  }

  lemma {:induction false} RepeatAdvances(srcSize: nat, dstSize: nat, rounds: nat)
    requires srcSize > 0 && rounds <= dstSize
    ensures RepeatOffset(srcSize, dstSize, rounds) >= rounds
  {
    if rounds > 0 {
      RepeatAdvances(srcSize, dstSize, rounds - 1);
    }
  }

  lemma {:induction false} RepeatStuck(dstSize: nat, rounds: nat)
    ensures RepeatOffset(0, dstSize, rounds) == 0
  {
    if rounds > 0 {
      RepeatStuck(dstSize, rounds - 1);
    }
  }

  /** The first off bytes of the destination repeat the source, no other byte is touched. */
  ghost predicate Repeated(src: seq<Byte>, now: seq<Byte>, was: seq<Byte>, dst: nat, off: nat) {
    && |now| == |was| && (|src| > 0 || off == 0)
    && forall k :: 0 <= k < |now| ==> now[k] == if dst <= k < dst + off then src[(k - dst) % |src|] else was[k]
  }

  lemma RepeatedMore(src: seq<Byte>, now: seq<Byte>, mid: seq<Byte>, was: seq<Byte>, dst: nat, rounds: nat, count: nat)
    requires 0 < count <= |src| && Repeated(src, mid, was, dst, rounds * |src|)
    requires Copied(src, 0, mid, now, dst + rounds * |src|, count)
    ensures Repeated(src, now, was, dst, rounds * |src| + count)
  {
    var off := rounds * |src|;
    forall k | 0 <= k < |now|
        ensures now[k] == if dst <= k < dst + off + count then src[(k - dst) % |src|] else was[k] {
      if dst + off <= k < dst + off + count {
        DivModUnique(k - dst, |src|, rounds, k - dst - off);
      }
    }
  }

  /** Fills the destination with the source over and over. */
  method Repeat(src: seq<Byte>, buf: array<Byte>, dst: nat, dstSize: nat)
    requires dst + dstSize <= buf.Length && (|src| > 0 || dstSize == 0)
    modifies buf
    ensures forall k :: 0 <= k < buf.Length ==>
      buf[k] == if dst <= k < dst + dstSize then src[(k - dst) % |src|] else old(buf[k])
  {
    var dstOff := 0;
    ghost var rounds, was := 0, buf[..];
    while dstOff < dstSize
      invariant dstOff <= dstSize && (dstOff < dstSize ==> dstOff == rounds * |src|)
      invariant Repeated(src, buf[..], was, dst, dstOff)
    {
      hide Repeated;
      var bytesToCopy := Min(|src|, dstSize - dstOff);
      ghost var mid := buf[..];
      Copy(src, 0, buf, dst + dstOff, bytesToCopy);
      RepeatedMore(src, buf[..], mid, was, dst, rounds, bytesToCopy);
      ProductNext(rounds, |src|);
      dstOff := dstOff + bytesToCopy;
      rounds := rounds + 1;
    }
    assert forall k :: 0 <= k < buf.Length ==> buf[k] == buf[..][k] && old(buf[k]) == was[k];
  }

  // ----- reverse repeat

  /** Byte k of the destination under the reversed source: element by element from the last one back,
      the bytes of each element in their order. */
  function Mirrored(srcSize: nat, size: nat, k: nat): (i: nat)
    requires srcSize > 0 && size > 0 && srcSize % size == 0
    ensures i < srcSize
  {
    var elements := srcSize / size;
    DivMod(srcSize, size);
    DivMod(k, size);
    var e := elements - 1 - (k / size) % elements;
    SpanGrows(e, elements, size);
    e * size + k % size
  }

  /** The element written next is the one that the backward walk over the source has reached. */
  lemma MirroredElement(srcSize: nat, size: nat, rounds: nat, left: nat, rest: nat)
    requires size > 0 && srcSize % size == 0 && 0 < left <= srcSize / size && rest < size
    ensures var elements := srcSize / size;
            Mirrored(srcSize, size, Span(Span(rounds, elements) + (elements - left), size) + rest)
                == Span(left - 1, size) + rest
  {
    var elements := srcSize / size;
    var j := Span(rounds, elements) + (elements - left);
    DivModUnique(Span(j, size) + rest, size, j, rest);
    DivModUnique(j, elements, rounds, elements - left);
  }

  /** The first bytes of the destination are written, no other byte is. */
  ghost predicate Reversed(src: seq<Byte>, now: seq<Byte>, was: seq<Byte>, dst: nat, off: nat, size: nat) {
    && size > 0 && |now| == |was| && |src| % size == 0 && (|src| > 0 || off == 0)
    && forall k :: 0 <= k < |now| ==>
         now[k] == if dst <= k < dst + off then src[Mirrored(|src|, size, k - dst)] else was[k]
  }

  lemma ReversedMore(src: seq<Byte>, now: seq<Byte>, mid: seq<Byte>, was: seq<Byte>, dst: nat,
                     elements: nat, size: nat, rounds: nat, left: nat)
    requires size > 0 && elements == |src| / size && 0 < left <= elements
    requires Reversed(src, mid, was, dst, Span(Span(rounds, elements) + (elements - left), size), size)
    requires Span(left - 1, size) + size <= |src|
    requires Copied(src, Span(left - 1, size), mid, now,
                    dst + Span(Span(rounds, elements) + (elements - left), size), size)
    ensures Reversed(src, now, was, dst, Span(Span(rounds, elements) + (elements - left), size) + size, size)
  {
    hide Span, Mirrored;
    var off := Span(Span(rounds, elements) + (elements - left), size);
    forall k | 0 <= k < |now|
      ensures now[k] == if dst <= k < dst + off + size then src[Mirrored(|src|, size, k - dst)] else was[k]
    {
      if dst + off <= k < dst + off + size {
        MirroredElement(|src|, size, rounds, left, k - dst - off);
      }
    }
  }

  lemma WholeElements(total: nat, size: nat)
    requires size > 0 && total % size == 0
    ensures total == Span(total / size, size) && (total / size == 0 <==> total == 0)
  {
    DivMod(total, size);
  }

  /** Fills the destination with the elements of the source in reverse, over and over. Source and
      destination consist of whole elements. */
  method ReverseRepeat(src: seq<Byte>, buf: array<Byte>, dst: nat, dstSize: nat, elSize: nat)
    requires elSize > 0 && |src| % elSize == 0 && dstSize % elSize == 0
    requires dst + dstSize <= buf.Length && (|src| > 0 || dstSize == 0)
    modifies buf
    ensures forall k :: 0 <= k < buf.Length ==>
      buf[k] == if dst <= k < dst + dstSize then src[Mirrored(|src|, elSize, k - dst)] else old(buf[k])
  {
    hide Mirrored, Span, Copied;
    ghost var elements, fill, was := |src| / elSize, dstSize / elSize, buf[..];
    WholeElements(|src|, elSize);
    WholeElements(dstSize, elSize);
    SpanNext(0, elSize);
    SpanNext(0, elements);
    var dstOff := 0;
    ghost var rounds, done := 0, 0;
    assert Reversed(src, buf[..], was, dst, dstOff, elSize);
    while dstOff != dstSize
      invariant 0 <= done <= fill && dstOff == Span(done, elSize)
      invariant done < fill ==> done == Span(rounds, elements)
      invariant Reversed(src, buf[..], was, dst, dstOff, elSize)
      decreases fill - done
    {
      hide Reversed;
      var srcOff := |src|;
      ghost var left, before := elements, done;
      while srcOff != 0 && dstOff != dstSize
        invariant 0 <= left <= elements && srcOff == Span(left, elSize)
        invariant 0 <= done <= fill && dstOff == Span(done, elSize)
        invariant done == Span(rounds, elements) + (elements - left)
        invariant left < elements ==> before < done
        invariant Reversed(src, buf[..], was, dst, dstOff, elSize)
        decreases left
      {
        ghost var mid := buf[..];
        SpanNext(left - 1, elSize);
        SpanNext(done, elSize);
        SpanGrows(left - 1, elements, elSize);
        SpanGrows(done, fill, elSize);
        srcOff := srcOff - elSize;
        Copy(src, srcOff, buf, dst + dstOff, elSize);
        ReversedMore(src, buf[..], mid, was, dst, elements, elSize, rounds, left);
        dstOff := dstOff + elSize;
        left, done := left - 1, done + 1;
      }
      SpanNext(rounds, elements);
      SpanGrows(left, 0, elSize);
      SpanGrows(done, fill, elSize);
      rounds := rounds + 1;
    }
    assert forall k :: 0 <= k < buf.Length ==> buf[k] == buf[..][k] && old(buf[k]) == was[k];
  }

  /** Where the writes of reverse repeat stand after the inner loop, which walks over the elements left
      and stops at the end of the destination if it hits it. */
  function WalkOffset(left: nat, dstSize: nat, size: nat, off: nat): (end: nat)
    ensures end >= off
    decreases left
  {
    if left == 0 || off == dstSize then off else WalkOffset(left - 1, dstSize, size, off + size)
  }

  /** Where the writes of reverse repeat stand after some rounds of its outer loop. */
  function ReverseOffset(elements: nat, dstSize: nat, size: nat, rounds: nat): nat
    decreases rounds
  {
    if rounds == 0 then 0
    else
      var off := ReverseOffset(elements, dstSize, size, rounds - 1);
      if off == dstSize then off else WalkOffset(elements, dstSize, size, off)
  }

  /** The writes advance by whole elements, and within a destination of whole elements not past its end. */
  lemma {:induction false} WalkWhole(left: nat, dstSize: nat, size: nat, done: nat, fill: nat) returns (done': nat)
    requires size > 0
    ensures WalkOffset(left, dstSize, size, Span(done, size)) == Span(done', size) && done' >= done
    ensures dstSize == Span(fill, size) && done <= fill ==> done' <= fill && (left > 0 && done < fill ==> done' > done)
    decreases left
  {
    done' := done;
    if left > 0 && Span(done, size) != dstSize {
      SpanNext(done, size);
      SpanGrows(fill, done, size);
      done' := WalkWhole(left - 1, dstSize, size, done + 1, fill);
    } else {
      SpanGrows(done, fill, size);
    }
  }

  lemma {:induction false} ReverseWhole(elements: nat, dstSize: nat, size: nat, rounds: nat,
      fill: nat) returns (done: nat)
    requires size > 0
    ensures ReverseOffset(elements, dstSize, size, rounds) == Span(done, size)
    ensures dstSize == Span(fill, size) ==> done <= fill && (elements > 0 && rounds <= fill ==> done >= rounds)
    decreases rounds
  {
    SpanNext(0, size);
    done := 0;
    if rounds > 0 {
      done := ReverseWhole(elements, dstSize, size, rounds - 1, fill);
      if Span(done, size) != dstSize {
        done := WalkWhole(elements, dstSize, size, done, fill);
      } else {
        SpanGrows(fill, done, size);
      }
    }
  }

  lemma {:induction false} ReverseStuck(dstSize: nat, size: nat, rounds: nat)
    ensures ReverseOffset(0, dstSize, size, rounds) == 0
    decreases rounds
  {
    if rounds > 0 {
      ReverseStuck(dstSize, size, rounds - 1);
    }
  }

  /** On a source of whole elements the two loops come to their end exactly when there is nothing to
      fill, or something to repeat and the destination consists of whole elements as well. */
  lemma ReverseEndsIff(elements: nat, dstSize: nat, size: nat)
    requires size > 0
    ensures (exists rounds: nat :: ReverseOffset(elements, dstSize, size, rounds) == dstSize)
            <==> dstSize == 0 || (elements > 0 && dstSize % size == 0)
  {
    if dstSize == 0 {
      assert ReverseOffset(elements, dstSize, size, 0) == dstSize;
    } else if elements > 0 && dstSize % size == 0 {
      var fill := dstSize / size;
      WholeElements(dstSize, size);
      var done := ReverseWhole(elements, dstSize, size, fill, fill);
      assert ReverseOffset(elements, dstSize, size, fill) == dstSize;
    } else {
      forall rounds: nat ensures ReverseOffset(elements, dstSize, size, rounds) != dstSize {
        var done := ReverseWhole(elements, dstSize, size, rounds, 0);
        if elements == 0 {
          ReverseStuck(dstSize, size, rounds);
        } else if Span(done, size) == dstSize {
          DivModUnique(dstSize, size, done, 0);
        }
      }
    }
  }

  // ----- the registry

  /** A named pattern; the id is the hash of the name. */
  datatype Pusher<F> = Pusher(name: string, func: F, id: nat)

  ghost predicate Sorted<F>(s: seq<Pusher<F>>) {
    forall i, j :: 0 <= i < j < |s| ==> s[i].id < s[j].id
  }

  ghost function MapOf<F>(s: seq<Pusher<F>>): map<nat, Pusher<F>> {
    if s == [] then map[] else MapOf(s[1..])[s[0].id := s[0]]
  }

  lemma {:induction false} MapOfHas<F>(s: seq<Pusher<F>>, id: nat)
    requires Sorted(s)
    ensures id in MapOf(s) <==> exists i :: 0 <= i < |s| && s[i].id == id
    ensures forall i :: 0 <= i < |s| && s[i].id == id ==> id in MapOf(s) && MapOf(s)[id] == s[i]
  {
    if s != [] {
      MapOfHas(s[1..], id);
      if i: nat :| i < |s| && s[i].id == id {
        assert i > 0 ==> s[1..][i - 1] == s[i] && s[0].id < s[i].id;
      }
    }
  }

  lemma {:induction false} Replaced<F>(s: seq<Pusher<F>>, k: nat, p: Pusher<F>)
    requires Sorted(s) && k < |s| && s[k].id == p.id
    ensures Sorted(s[k := p]) && MapOf(s[k := p]) == MapOf(s)[p.id := p]
  {
    if k == 0 {
      assert s[0 := p][1..] == s[1..];
    } else {
      assert s[k := p][1..] == s[1..][k - 1 := p];
      Replaced(s[1..], k - 1, p);
    }
  }

  lemma {:induction false} Inserted<F>(s: seq<Pusher<F>>, k: nat, p: Pusher<F>)
    requires Sorted(s) && k <= |s|
    requires forall i :: 0 <= i < |s| ==> s[i].id != p.id && (s[i].id < p.id <==> i < k)
    ensures var s' := s[..k] + [p] + s[k..]; Sorted(s') && MapOf(s') == MapOf(s)[p.id := p]
  {
    var s' := s[..k] + [p] + s[k..];
    if k == 0 {
      assert s'[1..] == s;
    } else {
      assert s'[1..] == s[1..][..k - 1] + [p] + s[1..][k - 1..];
      Inserted(s[1..], k - 1, p);
    }
  }

  class PushPatterns<F> {
    var pushPatterns: seq<Pusher<F>>

    ghost predicate Valid()
      reads this
    {
      Sorted(pushPatterns)
    }

    /** What is registered under each id. */
    ghost function Registered(): map<nat, Pusher<F>>
      requires Valid()
      reads this
    {
      MapOf(pushPatterns)
    }

    constructor ()
      ensures Valid() && pushPatterns == [] && Registered() == map[]
    {
      pushPatterns := [];
    }

    /** std::lower_bound: everything before the position is smaller, nothing from it on is. */
    method LowerBound(id: nat) returns (first: nat)
      requires Valid()
      ensures first <= |pushPatterns|
      ensures forall i :: 0 <= i < |pushPatterns| ==> (pushPatterns[i].id < id <==> i < first)
    {
      first := 0;
      var len := |pushPatterns|;
      while len > 0
        invariant 0 <= len && first + len <= |pushPatterns|
        invariant forall i :: 0 <= i < first ==> pushPatterns[i].id < id
        invariant forall i :: first + len <= i < |pushPatterns| ==> pushPatterns[i].id >= id
      {
        var half := len / 2;
        if pushPatterns[first + half].id < id {
          first := first + half + 1;
          len := len - half - 1;
        } else {
          len := half;
        }
      }
    }

    /** Registers a pattern, in place of the one with the same id if there is one. */
    method Register(pusher: Pusher<F>) returns (overwrote: bool)
      requires Valid()
      modifies this
      ensures Valid() && Registered() == old(Registered())[pusher.id := pusher]
      ensures overwrote <==> pusher.id in old(Registered())
    {
      var it := LowerBound(pusher.id);
      MapOfHas(pushPatterns, pusher.id);
      overwrote := it != |pushPatterns| && pushPatterns[it].id == pusher.id;
      if overwrote {
        Replaced(pushPatterns, it, pusher);
        pushPatterns := pushPatterns[it := pusher];
      } else {
        Inserted(pushPatterns, it, pusher);
        pushPatterns := pushPatterns[..it] + [pusher] + pushPatterns[it..];
      }
    }

    /** The pattern of an id that is registered. */
    method Get(id: nat) returns (pusher: Pusher<F>)
      requires Valid() && id in Registered()
      ensures pusher == Registered()[id]
    {
      var it := LowerBound(id);
      MapOfHas(pushPatterns, id);
      pusher := pushPatterns[it];
    }
  }
}
