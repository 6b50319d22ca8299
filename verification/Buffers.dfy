/** Bytes, copies between them, and the little arithmetic that positions in them need. */
module Buffers {

  type Byte = b: int | 0 <= b < 0x100

  function Min(a: nat, b: nat): nat { if a <= b then a else b }

  /** The bytes of a buffer after count bytes of src, from `from` on, were copied to `at`. */
  ghost predicate Copied(src: seq<Byte>, from: nat, was: seq<Byte>, now: seq<Byte>, at: nat, count: nat)
    requires from + count <= |src|
  {
    && |now| == |was| && at + count <= |was|
    && forall k :: 0 <= k < |was| ==> now[k] == if at <= k < at + count then src[from + (k - at)] else was[k]
  }

  /** std::copy of count bytes of src, from `from` on, to buf at `at`. */
  method Copy(src: seq<Byte>, from: nat, buf: array<Byte>, at: nat, count: nat)
    requires from + count <= |src| && at + count <= buf.Length
    modifies buf
    ensures Copied(src, from, old(buf[..]), buf[..], at, count)
  {
    for i := 0 to count
      invariant forall k :: 0 <= k < buf.Length ==>
        buf[k] == if at <= k < at + i then src[from + (k - at)] else old(buf[k])
    {
      buf[at + i] := src[from + i];
    }
  }

  /** The bytes that a number of elements of one size take. */
  function Span(count: nat, size: nat): nat { count * size }

  lemma SpanNext(a: nat, size: nat)
    ensures Span(a + 1, size) == Span(a, size) + size && Span(0, size) == 0
  {
  }

  lemma SpanGrows(a: nat, b: nat, size: nat)
    requires size > 0
    ensures a < b ==> Span(a, size) + size <= Span(b, size)
    ensures a <= b <==> Span(a, size) <= Span(b, size)
  {
    if a < b {
      ProductMonotone(a + 1, b, size);
    } else if b < a {
      ProductMonotone(b + 1, a, size);
    }
  }

  lemma ProductMonotone(a: nat, b: nat, n: nat)
    requires a <= b
    ensures a * n <= b * n
  {
  }

  lemma ProductNext(a: nat, n: nat)
    ensures (a + 1) * n == a * n + n
  {
  }

  /** Quotient and remainder are the only such pair. */
  lemma DivModUnique(x: nat, n: nat, q: nat, r: nat)
    requires n > 0 && x == q * n + r && r < n
    ensures x / n == q && x % n == r
  {
    var q', r' := x / n, x % n;
    assert x == q' * n + r' by { DivMod(x, n); }
    if q' > q {
      ProductMonotone(q + 1, q', n);
      ProductNext(q, n);
      assert false;
    } else if q' < q {
      ProductMonotone(q' + 1, q, n);
      ProductNext(q', n);
      assert false;
    }
  }

  lemma DivMod(x: nat, n: nat)
    requires n > 0
    ensures x == x / n * n + x % n
  {
  }
}
