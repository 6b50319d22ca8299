/** Texture locations handed out by reference count. Slots in use are kept in front; freeing one
    swaps it with the last slot in use. */
module TextureLocations {
  const UINT32_MAX: nat := 0xFFFF_FFFF

  type Uint32 = n: nat | n <= UINT32_MAX

  class Texture {}

  datatype Slot = Slot(texture: Texture?, bindings: Uint32, index: Uint32)

  /** A slot with one more binding, counted in a uint32_t. */
  function Bumped(s: Slot): Slot { s.(bindings := (s.bindings + 1) % (UINT32_MAX + 1)) }

  /** What a texture in use has: a location and a number of bindings. */
  datatype Binding = Binding(location: Uint32, count: nat)

  type Bound = map<Texture, Binding>

  // ----- slots and the map they stand for

  /** The slot at k is in use exactly when it lies in front, and then it says what the map says. */
  ghost predicate SlotOk(slots: seq<Slot>, used: nat, bound: Bound, place: map<Texture, nat>, k: nat)
    requires k < |slots|
  {
    var s := slots[k];
    if k < used then
      s.texture != null && s.bindings > 0 && s.texture in place && place[s.texture] == k
      && s.texture in bound && bound[s.texture] == Binding(s.index, s.bindings)
    else s.texture == null && s.bindings == 0
  }

  /** The locations are 1 to n in some order. */
  ghost predicate Numbered(slots: seq<Slot>) {
    && (forall k :: 0 <= k < |slots| ==> 1 <= slots[k].index <= |slots|)
    && (forall i, k :: 0 <= i < k < |slots| ==> slots[i].index != slots[k].index)
  }

  ghost predicate InUse(slots: seq<Slot>, used: nat, place: map<Texture, nat>, t: Texture)
    requires used <= |slots|
  {
    t in place && place[t] < used && slots[place[t]].texture == t
  }

  ghost predicate Tidy(slots: seq<Slot>, used: nat, bound: Bound, place: map<Texture, nat>) {
    && used <= |slots| <= UINT32_MAX && |bound| == used && Numbered(slots)
    && (forall k: nat {:trigger SlotOk(slots, used, bound, place, k)} :: k < |slots| ==>
      SlotOk(slots, used, bound, place, k))
    && (forall t {:trigger InUse(slots, used, place, t)} {:trigger t in bound} :: t in bound ==>
      InUse(slots, used, place, t))
  }

  lemma Recounted(slots: seq<Slot>, used: nat, bound: Bound, place: map<Texture, nat>, k: nat, count: Uint32)
    requires Tidy(slots, used, bound, place) && k < used && count > 0
    ensures var s := slots[k];
            s.texture != null
            && Tidy(slots[k := s.(bindings := count)], used, bound[s.texture := Binding(s.index, count)], place)
  {
    var s := slots[k];
    assert SlotOk(slots, used, bound, place, k);
    var slots', bound' := slots[k := s.(bindings := count)], bound[s.texture := Binding(s.index, count)];
    forall j: nat | j < |slots'| ensures SlotOk(slots', used, bound', place, j) {
      assert SlotOk(slots, used, bound, place, j);
    }
    forall t | t in bound' ensures InUse(slots', used, place, t) {
      assert InUse(slots, used, place, t);
    }
    assert |bound'| == |bound|;
  }

  lemma Taken(slots: seq<Slot>, used: nat, bound: Bound, place: map<Texture, nat>, tex: Texture)
    requires Tidy(slots, used, bound, place) && used < |slots| && tex !in bound
    ensures var s := slots[used];
            Tidy(slots[used := Slot(tex, 1, s.index)], used + 1, bound[tex := Binding(s.index, 1)], place[tex := used])
    ensures forall t :: t in bound ==> bound[t].location != slots[used].index
  {
    var s := slots[used];
    var slots', bound', place' := slots[used := Slot(tex, 1, s.index)], bound[tex := Binding(s.index, 1)],
        place[tex := used];
    var used' := used + 1;
    forall j: nat | j < |slots'| ensures SlotOk(slots', used', bound', place', j) {
      assert SlotOk(slots, used, bound, place, j);
    }
    forall t | t in bound' ensures InUse(slots', used', place', t) {
      assert t != tex ==> InUse(slots, used, place, t);
    }
    forall t | t in bound ensures bound[t].location != s.index {
      assert InUse(slots, used, place, t) && SlotOk(slots, used, bound, place, place[t]);
    }
  }

  /** The slots after slot k was cleared and exchanged with the last one in use. */
  ghost function Freed(slots: seq<Slot>, used: nat, k: nat): seq<Slot>
    requires k < used <= |slots|
  {
    slots[used - 1 := slots[k].(texture := null)][k := if k == used - 1 then slots[k].(texture := null)
        else slots[used - 1]]
  }

  lemma FreedNumbered(slots: seq<Slot>, used: nat, k: nat)
    requires Numbered(slots) && k < used <= |slots|
    ensures var r := Freed(slots[k := slots[k].(bindings := 0)], used, k);
            |r| == |slots| && Numbered(r) && r[used - 1] == Slot(null, 0, slots[k].index)
            && (forall j :: 0 <= j < used - 1 ==> r[j] == if j == k then slots[used - 1] else slots[j])
            && (forall j :: used <= j < |slots| ==> r[j] == slots[j])
  {
  }

  lemma Released(slots: seq<Slot>, used: nat, bound: Bound, place: map<Texture, nat>, k: nat)
    returns (place': map<Texture, nat>)
    requires Tidy(slots, used, bound, place) && k < used
    ensures var s := slots[k];
            s.texture != null
            && Tidy(Freed(slots[k := s.(bindings := 0)], used, k), used - 1, bound - {s.texture}, place')
  {
    hide Freed, Numbered;
    var s, last := slots[k], slots[used - 1];
    FreedNumbered(slots, used, k);
    assert SlotOk(slots, used, bound, place, k) && SlotOk(slots, used, bound, place, used - 1);
    var slots', bound' := Freed(slots[k := s.(bindings := 0)], used, k), bound - {s.texture};
    var used' := used - 1;
    place' := place[last.texture := k];
    forall j: nat | j < |slots'| ensures SlotOk(slots', used', bound', place', j) {
      assert SlotOk(slots, used, bound, place, j);
    }
    forall t | t in bound' ensures InUse(slots', used', place', t) {
      assert InUse(slots, used, place, t);
    }
    assert bound.Keys == bound'.Keys + {s.texture};
  }

  /** n different locations between 1 and n leave none out. */
  lemma NumberedCovers(slots: seq<Slot>, location: nat)
    requires Numbered(slots) && 1 <= location <= |slots|
    ensures exists k :: 0 <= k < |slots| && slots[k].index == location
  {
    var indices := IndexCount(slots, |slots|);
    var range := RangeCount(|slots|);
    assert indices <= range;
    assert range == indices + (range - indices);
    assert range - indices == {};
    assert location in indices;
  }

  lemma {:induction false} IndexCount(slots: seq<Slot>, n: nat) returns (indices: set<nat>)
    requires Numbered(slots) && n <= |slots|
    ensures |indices| == n
    ensures forall x :: x in indices <==> exists k :: 0 <= k < n && slots[k].index == x
  {
    if n == 0 {
      indices := {};
    } else {
      indices := IndexCount(slots, n - 1);
      assert slots[n - 1].index !in indices;
      indices := indices + {slots[n - 1].index};
    }
  }

  lemma {:induction false} RangeCount(n: nat) returns (range: set<nat>)
    ensures |range| == n && forall x :: x in range <==> 1 <= x <= n
  {
    if n == 0 {
      range := {};
    } else {
      range := RangeCount(n - 1);
      range := range + {n};
    }
  }

  // ----- the resolver

  class TextureLocationResolver {
    var availableIndex: nat
    var textureLocations: seq<Slot>
    ghost var bound: Bound
    ghost var place: map<Texture, nat>  // the slot of each texture in use

    ghost predicate Valid()
      reads this
    {
      Tidy(textureLocations, availableIndex, bound, place)
    }

    ghost function Capacity(): nat
      reads this`textureLocations
    {
      |textureLocations|
    }

    constructor (availableLocations: Uint32)
      ensures Valid() && bound == map[] && Capacity() == availableLocations
    {
      var slots := seq(availableLocations, _ => Slot(null, 0, 0));
      for i := 0 to availableLocations
        invariant |slots| == availableLocations
        invariant forall k :: 0 <= k < availableLocations ==> slots[k] == Slot(null, 0, if k < i then k + 1 else 0)
      {
        slots := slots[i := slots[i].(index := i + 1)];
      }
      textureLocations, availableIndex, bound, place := slots, 0, map[], map[];
    }

    /** The first slot that names the texture, or the end of the list. */
    method FindLocation(tex: Texture?) returns (k: nat)
      ensures k <= |textureLocations|
      ensures k < |textureLocations| ==> textureLocations[k].texture == tex
      ensures forall j :: 0 <= j < k ==> textureLocations[j].texture != tex
    {
      k := 0;
      while k < |textureLocations| && textureLocations[k].texture != tex
        invariant k <= |textureLocations|
        invariant forall j :: 0 <= j < k ==> textureLocations[j].texture != tex
      {
        k := k + 1;
      }
    }

    /** Where FindLocation ends up: at the one slot of a texture in use, at the first free slot for
        null, and at the end for anything else. */
    lemma Found(tex: Texture?, k: nat)
      requires Valid() && k <= |textureLocations|
      requires k < |textureLocations| ==> textureLocations[k].texture == tex
      requires forall j :: 0 <= j < k ==> textureLocations[j].texture != tex
      ensures tex != null ==> (tex in bound <==> k < |textureLocations|)
      ensures tex != null && k < |textureLocations| ==>
                k < availableIndex && bound[tex] == Binding(textureLocations[k].index, textureLocations[k].bindings)
      ensures tex == null ==> k == availableIndex
    {
      if k < |textureLocations| {
        assert SlotOk(textureLocations, availableIndex, bound, place, k);
      }
      if tex == null && availableIndex < |textureLocations| {
        assert SlotOk(textureLocations, availableIndex, bound, place, availableIndex);
      }
      if tex != null && tex in bound {
        assert InUse(textureLocations, availableIndex, place, tex);
      }
    }

    /** The bindings that keep the slots in order: of a texture whose count does not wrap around, or
        of null while every location is taken. */
    ghost predicate Bindable(tex: Texture?)
      reads this
    {
      if tex == null then |bound| == Capacity() else tex in bound ==> bound[tex].count < UINT32_MAX
    }

    /** Binds a texture. The bookkeeping survives exactly the bindings of Bindable. */
    method Bind(tex: Texture?) returns (location: Uint32)
      requires Valid()
      modifies this
      ensures Valid() <==> old(Bindable(tex))
      ensures Capacity() == old(Capacity())
      ensures tex != null && tex in old(bound) ==>
                location == old(bound)[tex].location
                    && bound == old(bound)[tex := Binding(location, old(bound)[tex].count + 1)]
      ensures tex != null && tex !in old(bound) && |old(bound)| < Capacity() ==>
                && bound == old(bound)[tex := Binding(location, 1)] && 1 <= location <= Capacity()
                && forall t :: t in old(bound) ==> old(bound)[t].location != location
      ensures (tex == null || tex !in old(bound)) && |old(bound)| == Capacity() ==>
        location == UINT32_MAX && bound == old(bound)
      ensures tex != null && Capacity() < UINT32_MAX ==>
                (location == UINT32_MAX <==> tex !in old(bound) && |old(bound)| == Capacity())
    {
      hide Tidy;
      var existing := FindLocation(tex);
      Found(tex, existing);
      TidySizes();
      if existing != |textureLocations| {
        var s := textureLocations[existing];
        if tex != null { CountsPositive(tex); }
        if old(Bindable(tex)) {
          assert Bumped(s) == s.(bindings := s.bindings + 1);
          Recounted(textureLocations, availableIndex, bound, place, existing, s.bindings + 1);
        } else {
          Miscounted(textureLocations, availableIndex, bound, place, existing, tex);
        }
        textureLocations := textureLocations[existing := Bumped(s)];
        if tex != null {
          bound := bound[tex := Binding(s.index, s.bindings + 1)];
        }
        return s.index;
      }
      if availableIndex == |textureLocations| {
        return UINT32_MAX;
      }
      Taken(textureLocations, availableIndex, bound, place, tex);
      var taken := textureLocations[availableIndex];
      textureLocations := textureLocations[availableIndex := taken.(bindings := 1, texture := tex)];
      bound, place := bound[tex := Binding(taken.index, 1)], place[tex := availableIndex];
      availableIndex := availableIndex + 1;
      return taken.index;
    }

    lemma TidySizes()
      requires Valid()
      ensures availableIndex == |bound| <= |textureLocations| <= UINT32_MAX
      ensures forall k :: 0 <= k < |textureLocations| ==> 1 <= textureLocations[k].index <= |textureLocations|
    {
    }

    /** Binding null to a free slot or counting past the last uint32_t leaves a slot that is neither
        free nor in use. */
    static lemma Miscounted(slots: seq<Slot>, used: nat, bound: Bound, place: map<Texture, nat>, k: nat, tex: Texture?)
      requires Tidy(slots, used, bound, place) && k < |slots| && slots[k].texture == tex
      requires if tex == null then k == used else slots[k].bindings == UINT32_MAX
      ensures var slots' := slots[k := Bumped(slots[k])];
              forall bound' :: !Tidy(slots', used, bound', place)
    {
      assert SlotOk(slots, used, bound, place, k);
      var slots' := slots[k := Bumped(slots[k])];
      forall bound': Bound ensures !Tidy(slots', used, bound', place) {
        assert !SlotOk(slots', used, bound', place, k);
      }
    }

    /** Frees a slot whose bindings are gone: the last slot in use takes its place. */
    method MakeAvailable(index: nat)
      requires index < availableIndex <= |textureLocations| && textureLocations[index].bindings == 0
      modifies this`textureLocations, this`availableIndex
      ensures availableIndex == old(availableIndex) - 1
      ensures textureLocations == old(Freed(textureLocations, availableIndex, index))
    {
      textureLocations := textureLocations[index := textureLocations[index].(texture := null)];
      var last := textureLocations[availableIndex - 1];
      textureLocations := textureLocations[availableIndex - 1 := textureLocations[index]][index := last];
      availableIndex := availableIndex - 1;
    }

    /** Gives back one binding; the location is free again when the last one goes. */
    method Release(tex: Texture?) returns (freed: bool)
      requires Valid()
      modifies this
      ensures Valid() && Capacity() == old(Capacity())
      ensures tex != null && tex in old(bound) ==> old(bound)[tex].count > 0
      ensures freed <==> tex != null && tex in old(bound) && old(bound)[tex].count == 1
      ensures bound == if tex == null || tex !in old(bound) then old(bound)
                       else if old(bound)[tex].count <= 1 then old(bound) - {tex}
                       else old(bound)[tex := Binding(old(bound)[tex].location, old(bound)[tex].count - 1)]
    {
      hide Tidy;
      freed := false;
      if tex == null {
        return;
      }
      var existing := FindLocation(tex);
      Found(tex, existing);
      if existing != |textureLocations| {
        CountsPositive(tex);
        TidySizes();
        var s := textureLocations[existing];
        if s.bindings == 1 {
          Discard(existing);
          return true;
        }
        Recounted(textureLocations, availableIndex, bound, place, existing, s.bindings - 1);
        textureLocations := textureLocations[existing := s.(bindings := s.bindings - 1)];
        bound := bound[tex := Binding(s.index, s.bindings - 1)];
      }
    }

    lemma CountsPositive(t: Texture)
      requires Valid() && t in bound
      ensures bound[t].count > 0 && 1 <= bound[t].location <= Capacity()
      ensures InUse(textureLocations, availableIndex, place, t) && bound[t].location == textureLocations[place[t]].index
    {
      assert InUse(textureLocations, availableIndex, place, t);
      assert SlotOk(textureLocations, availableIndex, bound, place, place[t]);
    }

    /** Clears the bindings of a slot in use and frees it. */
    method Discard(existing: nat)
      requires Valid() && existing < availableIndex <= |textureLocations|
      modifies this
      ensures Valid() && Capacity() == old(Capacity())
      ensures old(textureLocations[existing].texture) != null
      ensures bound == old(bound) - {old(textureLocations[existing].texture)}
    {
      hide Tidy;
      ghost var place' := Released(textureLocations, availableIndex, bound, place, existing);
      bound, place := bound - {textureLocations[existing].texture}, place';
      textureLocations := textureLocations[existing := textureLocations[existing].(bindings := 0)];
      MakeAvailable(existing);
    }

    /** The slot part of ReleaseAll. */
    method ReleaseAll(tex: Texture?)
      requires Valid()
      modifies this
      ensures Valid() && Capacity() == old(Capacity())
      ensures bound == if tex == null then old(bound) else old(bound) - {tex}
    {
      hide Tidy;
      if tex == null {
        return;
      }
      var existing := FindLocation(tex);
      Found(tex, existing);
      TidySizes();
      if existing != |textureLocations| {
        Discard(existing);
      }
    }

    /** Textures in use never share a location, and every location lies between 1 and n. */
    lemma LocationsDistinct(t: Texture, u: Texture)
      requires Valid() && t in bound && u in bound
      ensures 1 <= bound[t].location <= Capacity() && bound[t].count > 0
      ensures bound[t].location == bound[u].location ==> t == u
    {
      CountsPositive(t);
      CountsPositive(u);
    }
  }

  // ----- whole runs

  datatype Op = Bind(tex: Texture) | Release(tex: Texture) | ReleaseAll(tex: Texture)

  /** The reference for the counts: a map of n entries at most. */
  ghost function Count(counts: map<Texture, nat>, op: Op, n: nat): map<Texture, nat> {
    match op
    case Bind(t) => if t in counts then counts[t := counts[t] + 1] else if |counts| < n then counts[t := 1] else counts
    case Release(t) =>
      if t !in counts then counts else if counts[t] <= 1 then counts - {t} else counts[t := counts[t] - 1]
    case ReleaseAll(t) => counts - {t}
  }

  ghost function CountAll(counts: map<Texture, nat>, ops: seq<Op>, n: nat): map<Texture, nat>
    decreases |ops|
  {
    if ops == [] then counts else CountAll(Count(counts, ops[0], n), ops[1..], n)
  }

  /** No count reaches the last uint32_t. */
  ghost predicate Countable(counts: map<Texture, nat>, ops: seq<Op>, n: nat)
    decreases |ops|
  {
    ops != [] ==>
      && (ops[0].Bind? && ops[0].tex in counts ==> counts[ops[0].tex] < UINT32_MAX)
      && Countable(Count(counts, ops[0], n), ops[1..], n)
  }

  /** A texture that is in use before, between and after the operations. */
  ghost predicate StaysBound(t: Texture, counts: map<Texture, nat>, ops: seq<Op>, n: nat)
    decreases |ops|
  {
    t in counts && (ops != [] ==> StaysBound(t, Count(counts, ops[0], n), ops[1..], n))
  }

  ghost function CountsOf(bound: Bound): map<Texture, nat> {
    map t | t in bound :: bound[t].count
  }

  method Apply(r: TextureLocationResolver, op: Op)
    requires r.Valid()
    requires op.Bind? && op.tex in r.bound ==> r.bound[op.tex].count < UINT32_MAX
    modifies r
    ensures r.Valid() && r.Capacity() == old(r.Capacity())
    ensures CountsOf(r.bound) == Count(old(CountsOf(r.bound)), op, r.Capacity())
    ensures forall t :: t in old(r.bound) && t in r.bound ==> r.bound[t].location == old(r.bound[t].location)
  {
    hide Tidy;
    r.TidySizes();
    assert CountsOf(r.bound).Keys == r.bound.Keys;
    match op
    case Bind(t) => var location := r.Bind(t);
    case Release(t) => var freed := r.Release(t);
    case ReleaseAll(t) => r.ReleaseAll(t);
  }

  /** After any run the counts are those of the reference, and a texture that stays in use has kept
      its location, wherever the swaps have moved its slot. */
  method Run(r: TextureLocationResolver, ops: seq<Op>)
    requires r.Valid() && Countable(CountsOf(r.bound), ops, r.Capacity())
    modifies r
    ensures r.Valid() && r.Capacity() == old(r.Capacity())
    ensures CountsOf(r.bound) == CountAll(old(CountsOf(r.bound)), ops, r.Capacity())
    ensures forall t :: t in old(r.bound) && StaysBound(t, old(CountsOf(r.bound)), ops, r.Capacity()) ==>
              t in r.bound && r.bound[t].location == old(r.bound[t].location)
    decreases |ops|
  {
    hide Tidy;
    if ops != [] {
      ghost var counts := CountsOf(r.bound);
      Apply(r, ops[0]);
      forall t | t in counts && StaysBound(t, counts, ops, r.Capacity())
        ensures t in r.bound && StaysBound(t, CountsOf(r.bound), ops[1..], r.Capacity())
      {
        assert StaysBound(t, CountsOf(r.bound), ops[1..], r.Capacity());
        assert t in CountsOf(r.bound);
      }
      Run(r, ops[1..]);
    }
  }
}
