/** How the deep copy and deep equality relate. */
module CloneEquality {
  import opened JsValues
  import opened Heap
  import opened DeepEquality
  import opened Cloning

  /**
   * A Map keyed by an object is not deeply equal to its copy: the copy is
   * keyed by the key's copy, and Map keys are looked up by identity.
   */
  lemma {:induction false} ObjectKeyedMapDiffersFromCopy(src: Heap, h: Heap, t: map<nat, nat>, rank: map<nat, nat>, m: nat)
    requires IsCopy(src, h, t) && RankedOn(h, rank) && m in t
    requires src[m].MapNode? && |src[m].entries| == 1 && src[m].entries[0].0.Ref?
    requires src == h[..|src|]
    ensures !IsEqual(h, rank, Ref(m), Ref(t[m]))
  {
    var k := src[m].entries[0].0;
    assert k in CloneChildren(src[m]);
    var copy := h[t[m]];
    assert EntryKeys(copy.entries) == [Ref(t[k.id])];
    assert h[m] == src[m];
    MapBranch(h, rank, m, t[m]);
  }

  /** Every Map of the heap is keyed by primitives only. */
  predicate PrimitiveMapKeys(h: Heap)
  {
    forall id :: 0 <= id < |h| && h[id].MapNode? ==>
      forall i :: 0 <= i < |h[id].entries| ==> h[id].entries[i].0.P?
  }

  /** The assumptions the equality proof shares: `h` is a ranked copy of an acyclic source without object Map keys. */
  predicate CopySetting(src: Heap, h: Heap, t: map<nat, nat>, rank: map<nat, nat>)
  {
    IsCopy(src, h, t) && src == h[..|src|] && RankedOn(h, rank) &&
    ClosedBelow(src, |src|) && PrimitiveMapKeys(src)
  }

  /** A source value and its copy are deeply equal. */
  lemma {:induction false} CloneIsEqual(src: Heap, h: Heap, t: map<nat, nat>, rank: map<nat, nat>, v: Value)
    requires CopySetting(src, h, t, rank) && (v.Ref? ==> v.id in t)
    ensures IsRefIn(h, v) && IsRefIn(h, Image(t, v)) && IsEqual(h, rank, v, Image(t, v))
    decreases Measure(rank, v), 2
  {
    if v.Ref? {
      CopyIsEqual(src, h, t, rank, v.id);
    }
  }

  /** A source object and its copy are deeply equal. */
  lemma {:induction false} CopyIsEqual(src: Heap, h: Heap, t: map<nat, nat>, rank: map<nat, nat>, k: nat)
    requires CopySetting(src, h, t, rank) && k in t
    ensures k < |h| && t[k] < |h| && IsEqual(h, rank, Ref(k), Ref(t[k]))
    decreases Measure(rank, Ref(k)), 1
  {
    assert h[k] == src[k];
    ObjectsUnfold(h, rank, k, t[k]);
    CopyContents(src, h, t, k);
    match src[k]
    case DateNode(_, _) =>
    case RegExpNode(_, _, _) =>
    case ArrayNode(_) => CopyArrayEqual(src, h, t, rank, k);
    case MapNode(_, _) => CopyMapEqual(src, h, t, rank, k);
    case SetNode(_, _) => CopySetEqual(src, h, t, rank, k);
    case PlainNode(_) => CopyPlainEqual(src, h, t, rank, k);
  }

  lemma {:induction false} CopyArrayEqual(src: Heap, h: Heap, t: map<nat, nat>, rank: map<nat, nat>, k: nat)
    requires CopySetting(src, h, t, rank) && k in t && src[k].ArrayNode?
    ensures k < |h| && t[k] < |h| && h[k].ArrayNode? && h[t[k]].ArrayNode? && ArraysEqual(h, rank, k, t[k])
    decreases Measure(rank, Ref(k)), 0
  {
    assert h[k] == src[k];
    CopyContents(src, h, t, k);
    var elems := src[k].elems;
    forall i | 0 <= i < |elems|
      ensures IsEqual(h, rank, elems[i], h[t[k]].elems[i])
    {
      assert elems[i] in CloneChildren(src[k]);
      CloneIsEqual(src, h, t, rank, elems[i]);
    }
  }

  lemma {:induction false} CopySetEqual(src: Heap, h: Heap, t: map<nat, nat>, rank: map<nat, nat>, k: nat)
    requires CopySetting(src, h, t, rank) && k in t && src[k].SetNode?
    ensures k < |h| && t[k] < |h| && IsEqual(h, rank, Ref(k), Ref(t[k]))
    decreases Measure(rank, Ref(k)), 0
  {
    assert h[k] == src[k];
    CopyContents(src, h, t, k);
    var members := src[k].members;
    var same := seq(|members|, i requires 0 <= i < |members| => i);
    forall i | 0 <= i < |members|
      ensures IsEqual(h, rank, h[k].members[i], h[t[k]].members[same[i]])
    {
      assert members[i] in CloneChildren(src[k]);
      CloneIsEqual(src, h, t, rank, members[i]);
    }
    SetsForward(h, rank, k, t[k], same);
  }

  lemma {:induction false} CopyMapEqual(src: Heap, h: Heap, t: map<nat, nat>, rank: map<nat, nat>, k: nat)
    requires CopySetting(src, h, t, rank) && k in t && src[k].MapNode?
    ensures k < |h| && t[k] < |h| && h[k].MapNode? && h[t[k]].MapNode? && MapsEqual(h, rank, k, t[k])
    decreases Measure(rank, Ref(k)), 0
  {
    assert h[k] == src[k];
    var entries := src[k].entries;
    var copy := h[t[k]].entries;
    PrimitiveKeysKept(src, h, t, k);
    forall i | 0 <= i < |entries|
      ensures MapHas(copy, entries[i].0) && IsEqual(h, rank, entries[i].1, MapGet(copy, entries[i].0))
    {
      MapGetAt(copy, i);
      EntryIsChild(entries, src[k].props, i);
      assert entries[i].1 in CloneChildren(src[k]) by {
        assert EntryValues(entries)[i] == entries[i].1;
      }
      CloneIsEqual(src, h, t, rank, entries[i].1);
    }
  }

  /** The copy of a Map keyed by primitives has the same keys, still distinct, with the copies of the values. */
  lemma {:induction false} PrimitiveKeysKept(src: Heap, h: Heap, t: map<nat, nat>, k: nat)
    requires IsCopy(src, h, t) && ClosedBelow(src, |src|) && PrimitiveMapKeys(src) && k in t && src[k].MapNode?
    ensures h[t[k]].MapNode? && |h[t[k]].entries| == |src[k].entries|
    ensures forall i :: 0 <= i < |src[k].entries| ==>
      h[t[k]].entries[i] == (src[k].entries[i].0, Image(t, src[k].entries[i].1))
    ensures Distinct(EntryKeys(h[t[k]].entries))
  {
    CopyContents(src, h, t, k);
    var entries := src[k].entries;
    var copy := h[t[k]].entries;
    assert EntryKeys(copy) == EntryKeys(entries) by {
      forall i | 0 <= i < |entries|
        ensures EntryKeys(copy)[i] == EntryKeys(entries)[i]
      {
        assert entries[i].0.P?;
      }
    }
    assert WellFormedNode(src[k]);
  }

  lemma {:induction false} CopyPlainEqual(src: Heap, h: Heap, t: map<nat, nat>, rank: map<nat, nat>, k: nat)
    requires CopySetting(src, h, t, rank) && k in t && src[k].PlainNode?
    ensures k < |h| && t[k] < |h| && KeysEqual(h, rank, k, t[k])
    decreases Measure(rank, Ref(k)), 0
  {
    assert h[k] == src[k];
    var keys := OwnKeys(src[k]);
    forall i | 0 <= i < |keys|
      ensures keys[i] in OwnKeys(h[t[k]]) && IsEqual(h, rank, Get(src[k], keys[i]), Get(h[t[k]], keys[i]))
    {
      CopyReadsBack(src, h, t, k, keys[i]);
      var x := Get(src[k], keys[i]);
      assert x.Ref? ==> x in CloneChildren(src[k]);
      CloneIsEqual(src, h, t, rank, x);
    }
    CopyReadsBack(src, h, t, k, "");
  }

  /**
   * `isEqual(v, deepClone(v))` on an acyclic source whose Maps are keyed by
   * primitives: with `h`, `t` and `r` as the copy leaves them, the new arena
   * is still acyclic and the result is deeply equal to `v`.
   */
  lemma {:induction false} CloneIsDeeplyEqual(src: Heap, h: Heap, t: map<nat, nat>, rank: map<nat, nat>, v: Value, r: Value)
    returns (rank1: map<nat, nat>)
    requires IsCopy(src, h, t) && src == h[..|src|] && ClosedBelow(src, |src|) && RankedOn(src, rank)
    requires PrimitiveMapKeys(src) && IsRefIn(src, v)
    requires !v.Ref? ==> r == v
    requires v.Ref? ==> v.id in t && r == Ref(t[v.id])
    ensures RankedOn(h, rank1) && IsRefIn(h, v) && IsRefIn(h, r) && IsEqual(h, rank1, v, r)
  {
    rank1 := CopyRank(src, h, t, rank);
    CloneIsEqual(src, h, t, rank1, v);
  }
}
