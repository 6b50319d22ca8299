/** Lists of distinct elements and the erasure of one of them. */
module Lists {

  ghost predicate Distinct<T>(s: seq<T>) {
    forall i, j :: 0 <= i < j < |s| ==> s[i] != s[j]
  }

  /** Drops the first occurrence, if any. */
  function Erase<T(==)>(v: seq<T>, x: T): seq<T> {
    if v == [] then [] else if v[0] == x then v[1..] else [v[0]] + Erase(v[1..], x)
  }

  /** What erasing means: without its first occurrence of x the list is as it was, in the same order. */
  ghost predicate TakenOut<T>(was: seq<T>, now: seq<T>, x: T) {
    if x in was then exists k {:trigger was[..k]} ::
      0 <= k < |was| && was[k] == x && x !in was[..k] && now == was[..k] + was[k + 1..]
    else now == was
  }

  lemma {:induction false} EraseTakesOut<T>(v: seq<T>, x: T)
    ensures TakenOut(v, Erase(v, x), x)
  {
    if x in v {
      var k := EraseAt(v, x);
      assert x !in v[..k];
    } else {
      EraseNothing(v, x);
    }
  }

  lemma {:induction false} EraseNothing<T>(v: seq<T>, x: T)
    requires x !in v
    ensures Erase(v, x) == v
  {
    if v != [] {
      EraseNothing(v[1..], x);
      assert v == [v[0]] + v[1..];
    }
  }

  lemma {:induction false} EraseAt<T>(v: seq<T>, x: T) returns (k: nat)
    requires x in v
    ensures k < |v| && v[k] == x && x !in v[..k] && Erase(v, x) == v[..k] + v[k + 1..]
  {
    if v[0] == x {
      k := 0;
    } else {
      var rest := v[1..];
      var i := EraseAt(rest, x);
      k := i + 1;
      Shifted(v, i);
      assert Erase(v, x) == [v[0]] + Erase(rest, x);
      assert [v[0]] + (rest[..i] + rest[i + 1..]) == [v[0]] + rest[..i] + rest[i + 1..];
    }
  }

  lemma Shifted<T>(v: seq<T>, i: nat)
    requires i < |v| - 1
    ensures v[..i + 1] == [v[0]] + v[1..][..i] && v[i + 1] == v[1..][i] && v[i + 2..] == v[1..][i + 1..]
  {
  }

  lemma {:induction false} EraseFromDistinct<T>(v: seq<T>, x: T)
    requires Distinct(v)
    ensures Distinct(Erase(v, x)) && |Erase(v, x)| <= |v|
    ensures forall y :: y in Erase(v, x) <==> y in v && y != x
  {
    if v != [] {
      assert Distinct(v[1..]) && v[0] !in v[1..];
      EraseFromDistinct(v[1..], x);
      assert forall y :: y in v <==> y == v[0] || y in v[1..];
    }
  }
}
