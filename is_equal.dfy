/**
 * `isEqual(a, b)`: deep comparison over the heap. The comparison has no
 * cycle guard, so it is defined on acyclic heaps, where a rank orders every
 * object below the objects that hold it.
 */
module DeepEquality {
  import opened Numerals
  import opened JsValues
  import opened Heap

  /** What the recursion descends on: the rank of the left-hand value. */
  function Measure(rank: map<nat, nat>, v: Value): nat
  {
    if v.Ref? && v.id in rank then rank[v.id] + 1 else 0
  }

  /** `isEqual(a, b)`, in the order of its checks. */
  function IsEqual(h: Heap, ghost rank: map<nat, nat>, a: Value, b: Value): (r: bool)
    requires RankedOn(h, rank) && IsRefIn(h, a) && IsRefIn(h, b)
    ensures a == b ==> r
    ensures IsNullish(a) || IsNullish(b) ==> (r <==> a == b)
    ensures TypeOf(a) != TypeOf(b) ==> !r
    ensures a.P? && b.P? ==> (r <==> a == b)
    decreases Measure(rank, a), 2
  {
    if a == b then true
    else if IsNullish(a) || IsNullish(b) then false
    else if TypeOf(a) != TypeOf(b) then false
    else if a.Ref? && b.Ref? then ObjectsEqual(h, rank, a.id, b.id)
    else false
  }

  /** Two distinct objects: the check that applies to their pair of kinds. */
  predicate ObjectsEqual(h: Heap, ghost rank: map<nat, nat>, a: nat, b: nat)
    requires RankedOn(h, rank) && a < |h| && b < |h|
    decreases Measure(rank, Ref(a)), 1
  {
    var na := h[a];
    var nb := h[b];
    if na.DateNode? && nb.DateNode? then na.time == nb.time
    else if na.RegExpNode? && nb.RegExpNode? then na.source == nb.source && na.flags == nb.flags
    else if na.MapNode? && nb.MapNode? then MapsEqual(h, rank, a, b)
    else if na.SetNode? && nb.SetNode? then SetsEqual(h, rank, a, b)
    else if na.ArrayNode? && nb.ArrayNode? then ArraysEqual(h, rank, a, b)
    else KeysEqual(h, rank, a, b)
  }

  /** Same size, and every key of the first Map is a key of the second with a deeply equal value. */
  predicate MapsEqual(h: Heap, ghost rank: map<nat, nat>, a: nat, b: nat)
    requires RankedOn(h, rank) && a < |h| && b < |h| && h[a].MapNode? && h[b].MapNode?
    decreases Measure(rank, Ref(a)), 0
  {
    var na := h[a];
    var nb := h[b];
    |na.entries| == |nb.entries| &&
    forall i :: 0 <= i < |na.entries| ==>
      MapHas(nb.entries, na.entries[i].0) && IsEqual(h, rank, na.entries[i].1, MapGet(nb.entries, na.entries[i].0))
  }

  /** Same size, and every member of the first Set is found in the second. */
  predicate SetsEqual(h: Heap, ghost rank: map<nat, nat>, a: nat, b: nat)
    requires RankedOn(h, rank) && a < |h| && b < |h| && h[a].SetNode? && h[b].SetNode?
    decreases Measure(rank, Ref(a)), 0
  {
    var na := h[a];
    |na.members| == |h[b].members| &&
    forall i :: 0 <= i < |na.members| ==> Found(h, rank, na.members[i], b)
  }

  /** The inner loop of the Set check: some member of Set `b` deeply equals `x`. */
  predicate Found(h: Heap, ghost rank: map<nat, nat>, x: Value, b: nat)
    requires RankedOn(h, rank) && IsRefIn(h, x) && b < |h| && h[b].SetNode?
    decreases Measure(rank, x), 3
  {
    exists j :: 0 <= j < |h[b].members| && IsEqual(h, rank, x, h[b].members[j])
  }

  /** Same length, and deeply equal index by index. */
  predicate ArraysEqual(h: Heap, ghost rank: map<nat, nat>, a: nat, b: nat)
    requires RankedOn(h, rank) && a < |h| && b < |h| && h[a].ArrayNode? && h[b].ArrayNode?
    decreases Measure(rank, Ref(a)), 0
  {
    var na := h[a];
    var nb := h[b];
    |na.elems| == |nb.elems| &&
    forall i :: 0 <= i < |na.elems| ==> IsEqual(h, rank, na.elems[i], nb.elems[i])
  }

  /** As many own keys, and each key of the first is a key of the second with a deeply equal value. */
  predicate KeysEqual(h: Heap, ghost rank: map<nat, nat>, a: nat, b: nat)
    requires RankedOn(h, rank) && a < |h| && b < |h|
    decreases Measure(rank, Ref(a)), 0
  {
    var na := h[a];
    var nb := h[b];
    var ka := OwnKeys(na);
    var kb := OwnKeys(nb);
    |ka| == |kb| &&
    forall i :: 0 <= i < |ka| ==> ka[i] in kb && IsEqual(h, rank, Get(na, ka[i]), Get(nb, ka[i]))
  }

  /** For two distinct objects the comparison is the one for their kinds. */
  lemma {:induction false} ObjectsUnfold(h: Heap, rank: map<nat, nat>, a: nat, b: nat)
    requires RankedOn(h, rank) && a < |h| && b < |h| && a != b
    ensures IsEqual(h, rank, Ref(a), Ref(b)) == ObjectsEqual(h, rank, a, b)
  {
    assert !IsNullish(Ref(a)) && !IsNullish(Ref(b)) && TypeOf(Ref(a)) == TypeOf(Ref(b));
  }

  /** Two distinct Dates compare their timestamps; two distinct RegExps their source and flags. */
  lemma {:induction false} DatesAndRegExps(h: Heap, rank: map<nat, nat>, a: nat, b: nat)
    requires RankedOn(h, rank) && a < |h| && b < |h|
    ensures h[a].DateNode? && h[b].DateNode? ==>
      (IsEqual(h, rank, Ref(a), Ref(b)) <==> h[a].time == h[b].time)
    ensures h[a].RegExpNode? && h[b].RegExpNode? ==>
      (IsEqual(h, rank, Ref(a), Ref(b)) <==> h[a].source == h[b].source && h[a].flags == h[b].flags)
  {
    if a != b {
      ObjectsUnfold(h, rank, a, b);
    }
  }

  /** Two distinct arrays are equal exactly when they have the same length and are equal index by index. */
  lemma {:induction false} ArrayBranch(h: Heap, rank: map<nat, nat>, a: nat, b: nat)
    requires RankedOn(h, rank) && a < |h| && b < |h| && a != b
    requires h[a].ArrayNode? && h[b].ArrayNode?
    ensures IsEqual(h, rank, Ref(a), Ref(b)) == ArraysEqual(h, rank, a, b)
  {
    ObjectsUnfold(h, rank, a, b);
  }

  /**
   * Two distinct Maps are equal exactly when they have the same size and every
   * key of the first is a key of the second, with deeply equal values.
   */
  lemma {:induction false} MapBranch(h: Heap, rank: map<nat, nat>, a: nat, b: nat)
    requires RankedOn(h, rank) && a < |h| && b < |h| && a != b
    requires h[a].MapNode? && h[b].MapNode?
    ensures IsEqual(h, rank, Ref(a), Ref(b)) == MapsEqual(h, rank, a, b)
  {
    ObjectsUnfold(h, rank, a, b);
  }

  /**
   * Objects of any other pair of kinds are compared by their own keys: the
   * same number of keys, each key of the first present in the second with
   * deeply equal values.
   */
  lemma {:induction false} KeysBranch(h: Heap, rank: map<nat, nat>, a: nat, b: nat)
    requires RankedOn(h, rank) && a < |h| && b < |h| && a != b
    requires !(h[a].DateNode? && h[b].DateNode?) && !(h[a].RegExpNode? && h[b].RegExpNode?)
    requires !(h[a].MapNode? && h[b].MapNode?) && !(h[a].SetNode? && h[b].SetNode?)
    requires !(h[a].ArrayNode? && h[b].ArrayNode?)
    ensures IsEqual(h, rank, Ref(a), Ref(b)) == KeysEqual(h, rank, a, b)
  {
    ObjectsUnfold(h, rank, a, b);
  }

  /** A Date, and any other object without own keys, compares equal to `{}`; so equality is not transitive across kinds. */
  lemma {:induction false} NotTransitive()
    ensures var h := [DateNode(5, []), PlainNode([]), DateNode(6, [])];
      var rank := map[0 := 0, 1 := 0, 2 := 0];
      RankedOn(h, rank) &&
      IsEqual(h, rank, Ref(0), Ref(1)) && IsEqual(h, rank, Ref(1), Ref(2)) && !IsEqual(h, rank, Ref(0), Ref(2))
  {
    var h := [DateNode(5, []), PlainNode([]), DateNode(6, [])];
    var rank := map[0 := 0, 1 := 0, 2 := 0];
    assert RankedOn(h, rank);
    assert OwnKeys(h[0]) == [] && OwnKeys(h[1]) == [] && OwnKeys(h[2]) == [];
    KeysBranch(h, rank, 0, 1);
    KeysBranch(h, rank, 1, 2);
    DatesAndRegExps(h, rank, 0, 2);
  }

  /** An array and a plain object with the same index keys compare equal: `[1]` and `{"0": 1}`. */
  lemma {:induction false} ArrayMatchesIndexObject()
    ensures var h := [ArrayNode([P(Num(1))]), PlainNode([("0", P(Num(1)))])];
      var rank := map[0 := 0, 1 := 0];
      RankedOn(h, rank) && IsEqual(h, rank, Ref(0), Ref(1)) && IsEqual(h, rank, Ref(1), Ref(0))
  {
    var h := [ArrayNode([P(Num(1))]), PlainNode([("0", P(Num(1)))])];
    var rank := map[0 := 0, 1 := 0];
    assert RankedOn(h, rank);
    assert NatToString(0) == "0";
    assert ParseNat("0") == 0 by {
      assert "0"[..0] == [];
    }
    assert OwnKeys(h[0]) == ["0"];
    assert OwnKeys(h[1]) == ["0"];
    assert Get(h[0], "0") == P(Num(1));
    assert Get(h[1], "0") == P(Num(1));
    KeysBranch(h, rank, 0, 1);
    KeysBranch(h, rank, 1, 0);
  }

  /**
   * The Set check only looks for each member of the first set in the second:
   * `{[], []}` equals `{[], [1]}`, but not the other way round.
   */
  lemma {:induction false} SetCheckOneSided(h: Heap, rank: map<nat, nat>, s1: nat, s2: nat, e1: nat, e2: nat, e3: nat, one: nat)
    requires RankedOn(h, rank) && s1 < |h| && s2 < |h| && s1 != s2
    requires e1 < |h| && e2 < |h| && e3 < |h| && one < |h|
    requires h[s1] == SetNode([Ref(e1), Ref(e2)], []) && h[s2] == SetNode([Ref(e3), Ref(one)], [])
    requires h[e1] == ArrayNode([]) && h[e2] == ArrayNode([]) && h[e3] == ArrayNode([])
    requires h[one] == ArrayNode([P(Num(1))])
    ensures IsEqual(h, rank, Ref(s1), Ref(s2))
    ensures !IsEqual(h, rank, Ref(s2), Ref(s1))
  {
    ArraysOfLengths(h, rank, e1, e3);
    ArraysOfLengths(h, rank, e2, e3);
    ArraysOfLengths(h, rank, one, e1);
    ArraysOfLengths(h, rank, one, e2);
    SetsForward(h, rank, s1, s2, [0, 0]);
    SetsBackward(h, rank, s2, s1, 1);
  }

  /** Two arrays of different lengths differ; two empty arrays are equal. */
  lemma {:induction false} ArraysOfLengths(h: Heap, rank: map<nat, nat>, x: nat, y: nat)
    requires RankedOn(h, rank) && x < |h| && y < |h|
    requires h[x].ArrayNode? && h[y].ArrayNode?
    ensures |h[x].elems| != |h[y].elems| ==> !IsEqual(h, rank, Ref(x), Ref(y))
    ensures h[x].elems == [] && h[y].elems == [] ==> IsEqual(h, rank, Ref(x), Ref(y))
  {
    if x != y {
      ArrayBranch(h, rank, x, y);
    }
  }

  /**
   * Two distinct Sets of the same size are equal when each member of the
   * first deeply equals some member of the second; `m` names, for each
   * member of the first, which member of the second it matches.
   */
  lemma {:induction false} SetsForward(h: Heap, rank: map<nat, nat>, a: nat, b: nat, m: seq<nat>)
    requires RankedOn(h, rank) && a < |h| && b < |h| && a != b
    requires h[a].SetNode? && h[b].SetNode? && |h[a].members| == |h[b].members|
    requires |m| == |h[a].members| && forall i :: 0 <= i < |m| ==> m[i] < |h[b].members|
    requires forall i :: 0 <= i < |m| ==> IsEqual(h, rank, h[a].members[i], h[b].members[m[i]])
    ensures IsEqual(h, rank, Ref(a), Ref(b))
  {
    forall i | 0 <= i < |h[a].members|
      ensures Found(h, rank, h[a].members[i], b)
    {
      assert IsEqual(h, rank, h[a].members[i], h[b].members[m[i]]);
    }
    assert SetsEqual(h, rank, a, b);
    SetBranch(h, rank, a, b);
  }

  /** Two distinct Sets differ when their sizes differ, or when member `i` of the first equals no member of the second. */
  lemma {:induction false} SetsBackward(h: Heap, rank: map<nat, nat>, a: nat, b: nat, i: nat)
    requires RankedOn(h, rank) && a < |h| && b < |h| && a != b
    requires h[a].SetNode? && h[b].SetNode? && i < |h[a].members|
    requires |h[a].members| != |h[b].members| ||
      forall j :: 0 <= j < |h[b].members| ==> !IsEqual(h, rank, h[a].members[i], h[b].members[j])
    ensures !IsEqual(h, rank, Ref(a), Ref(b))
  {
    var na, nb := h[a], h[b];
    SetBranch(h, rank, a, b);
    var x := na.members[i];
    if |na.members| == |nb.members| {
      assert !Found(h, rank, x, b);
    }
  }

  /** Two distinct Sets are compared by size and by looking up each member of the first in the second. */
  lemma {:induction false} SetBranch(h: Heap, rank: map<nat, nat>, a: nat, b: nat)
    requires RankedOn(h, rank) && a < |h| && b < |h| && a != b
    requires h[a].SetNode? && h[b].SetNode?
    ensures IsEqual(h, rank, Ref(a), Ref(b)) == SetsEqual(h, rank, a, b)
  {
    ObjectsUnfold(h, rank, a, b);
  }

  /** Map keys are looked up by identity: maps keyed by two different objects differ, however equal the keys are deeply. */
  lemma {:induction false} MapKeysByIdentity(h: Heap, rank: map<nat, nat>, m1: nat, m2: nat, k1: nat, k2: nat, v: Value)
    requires RankedOn(h, rank) && m1 < |h| && m2 < |h| && m1 != m2 && k1 != k2
    requires h[m1] == MapNode([(Ref(k1), v)], []) && h[m2] == MapNode([(Ref(k2), v)], [])
    ensures !IsEqual(h, rank, Ref(m1), Ref(m2))
  {
    assert EntryKeys(h[m2].entries) == [Ref(k2)];
    assert !MapHas(h[m2].entries, h[m1].entries[0].0);
    MapBranch(h, rank, m1, m2);
  }

  predicate SetFree(h: Heap)
  {
    forall id :: 0 <= id < |h| ==> !h[id].SetNode?
  }

  /**
   * Without Sets, deep equality is symmetric: every other check is either
   * symmetric outright or compares key lists that, having no repeats and the
   * same length, coincide once one contains the other.
   */
  lemma {:induction false} Symmetric(h: Heap, rank: map<nat, nat>, a: Value, b: Value)
    requires RankedOn(h, rank) && WellFormed(h) && SetFree(h) && IsRefIn(h, a) && IsRefIn(h, b)
    requires IsEqual(h, rank, a, b)
    ensures IsEqual(h, rank, b, a)
    decreases Measure(rank, a) + Measure(rank, b), 3
  {
    if a != b && a.Ref? && b.Ref? && TypeOf(a) == TypeOf(b) {
      var na, nb := h[a.id], h[b.id];
      if na.MapNode? && nb.MapNode? {
        SymmetricMaps(h, rank, a.id, b.id);
      } else if na.ArrayNode? && nb.ArrayNode? {
        SymmetricArrays(h, rank, a.id, b.id);
      } else if !(na.DateNode? && nb.DateNode?) && !(na.RegExpNode? && nb.RegExpNode?) {
        SymmetricKeys(h, rank, a.id, b.id);
      } else {
        DatesAndRegExps(h, rank, a.id, b.id);
        DatesAndRegExps(h, rank, b.id, a.id);
      }
    }
  }

  lemma {:induction false} SymmetricArrays(h: Heap, rank: map<nat, nat>, a: nat, b: nat)
    requires RankedOn(h, rank) && WellFormed(h) && SetFree(h) && a < |h| && b < |h| && a != b
    requires h[a].ArrayNode? && h[b].ArrayNode? && IsEqual(h, rank, Ref(a), Ref(b))
    ensures IsEqual(h, rank, Ref(b), Ref(a))
    decreases Measure(rank, Ref(a)) + Measure(rank, Ref(b)), 2
  {
    ArraysBackward(h, rank, a, b);
    ArrayBranch(h, rank, b, a);
  }

  /** Equal arrays have the same length and are equal back index by index. */
  lemma {:induction false} ArraysBackward(h: Heap, rank: map<nat, nat>, a: nat, b: nat)
    requires RankedOn(h, rank) && WellFormed(h) && SetFree(h) && a < |h| && b < |h| && a != b
    requires h[a].ArrayNode? && h[b].ArrayNode? && IsEqual(h, rank, Ref(a), Ref(b))
    ensures |h[b].elems| == |h[a].elems|
    ensures forall i :: 0 <= i < |h[b].elems| ==> IsEqual(h, rank, h[b].elems[i], h[a].elems[i])
    decreases Measure(rank, Ref(a)) + Measure(rank, Ref(b)), 1
  {
    var ea, eb := h[a].elems, h[b].elems;
    ArrayBranch(h, rank, a, b);
    forall i | 0 <= i < |eb|
      ensures IsEqual(h, rank, eb[i], ea[i])
    {
      assert ea[i] in Children(h[a]) && eb[i] in Children(h[b]);
      Symmetric(h, rank, ea[i], eb[i]);
    }
  }

  lemma {:induction false} SymmetricMaps(h: Heap, rank: map<nat, nat>, a: nat, b: nat)
    requires RankedOn(h, rank) && WellFormed(h) && SetFree(h) && a < |h| && b < |h| && a != b
    requires h[a].MapNode? && h[b].MapNode? && IsEqual(h, rank, Ref(a), Ref(b))
    ensures IsEqual(h, rank, Ref(b), Ref(a))
    decreases Measure(rank, Ref(a)) + Measure(rank, Ref(b)), 2
  {
    MapsBackward(h, rank, a, b);
    MapBranch(h, rank, b, a);
  }

  /** Equal Maps have the same size, and every key of the second is a key of the first with an equal value back. */
  lemma {:induction false} MapsBackward(h: Heap, rank: map<nat, nat>, a: nat, b: nat)
    requires RankedOn(h, rank) && WellFormed(h) && SetFree(h) && a < |h| && b < |h| && a != b
    requires h[a].MapNode? && h[b].MapNode? && IsEqual(h, rank, Ref(a), Ref(b))
    ensures |h[b].entries| == |h[a].entries|
    ensures forall j :: 0 <= j < |h[b].entries| ==>
      MapHas(h[a].entries, h[b].entries[j].0) &&
      IsEqual(h, rank, h[b].entries[j].1, MapGet(h[a].entries, h[b].entries[j].0))
    decreases Measure(rank, Ref(a)) + Measure(rank, Ref(b)), 1
  {
    var ea, eb := h[a].entries, h[b].entries;
    var ka, kb := EntryKeys(ea), EntryKeys(eb);
    MapBranch(h, rank, a, b);
    assert WellFormedNode(h[a]) && WellFormedNode(h[b]);
    ContainedBack(ka, kb);
    forall j | 0 <= j < |eb|
      ensures MapHas(ea, eb[j].0) && IsEqual(h, rank, eb[j].1, MapGet(ea, eb[j].0))
    {
      assert kb[j] in ka;
      var i :| 0 <= i < |ka| && ka[i] == kb[j];
      assert IsEqual(h, rank, ea[i].1, MapGet(eb, ea[i].0));
      MapEntryBack(h, rank, a, b, i, j);
    }
  }

  /** Entries under the same key in two Maps: the value of the second equals the first's back. */
  lemma {:induction false} MapEntryBack(h: Heap, rank: map<nat, nat>, a: nat, b: nat, i: nat, j: nat)
    requires RankedOn(h, rank) && WellFormed(h) && SetFree(h) && a < |h| && b < |h| && a != b
    requires h[a].MapNode? && h[b].MapNode?
    requires Distinct(EntryKeys(h[a].entries)) && Distinct(EntryKeys(h[b].entries))
    requires i < |h[a].entries| && j < |h[b].entries| && h[a].entries[i].0 == h[b].entries[j].0
    requires IsEqual(h, rank, h[a].entries[i].1, MapGet(h[b].entries, h[a].entries[i].0))
    ensures MapHas(h[a].entries, h[b].entries[j].0)
    ensures IsEqual(h, rank, h[b].entries[j].1, MapGet(h[a].entries, h[b].entries[j].0))
    decreases Measure(rank, Ref(a)) + Measure(rank, Ref(b)), 0
  {
    var ea, eb := h[a].entries, h[b].entries;
    var k, va, vb := ea[i].0, ea[i].1, eb[j].1;
    MapGetAt(ea, i);
    MapGetAt(eb, j);
    assert MapGet(eb, k) == vb && MapGet(ea, k) == va;
    assert IsEqual(h, rank, va, vb);
    assert va in Children(h[a]) && vb in Children(h[b]);
    Symmetric(h, rank, va, vb);
  }

  lemma {:induction false} SymmetricKeys(h: Heap, rank: map<nat, nat>, a: nat, b: nat)
    requires RankedOn(h, rank) && WellFormed(h) && SetFree(h) && a < |h| && b < |h| && a != b
    requires !(h[a].DateNode? && h[b].DateNode?) && !(h[a].RegExpNode? && h[b].RegExpNode?)
    requires !(h[a].MapNode? && h[b].MapNode?) && !(h[a].ArrayNode? && h[b].ArrayNode?)
    requires IsEqual(h, rank, Ref(a), Ref(b))
    ensures IsEqual(h, rank, Ref(b), Ref(a))
    decreases Measure(rank, Ref(a)) + Measure(rank, Ref(b)), 2
  {
    KeysBackward(h, rank, a, b);
    KeysBranch(h, rank, b, a);
  }

  /** The keys of the second object are those of the first, and its values are equal back. */
  lemma {:induction false} KeysBackward(h: Heap, rank: map<nat, nat>, a: nat, b: nat)
    requires RankedOn(h, rank) && WellFormed(h) && SetFree(h) && a < |h| && b < |h| && a != b
    requires !(h[a].DateNode? && h[b].DateNode?) && !(h[a].RegExpNode? && h[b].RegExpNode?)
    requires !(h[a].MapNode? && h[b].MapNode?) && !(h[a].ArrayNode? && h[b].ArrayNode?)
    requires IsEqual(h, rank, Ref(a), Ref(b))
    ensures |OwnKeys(h[b])| == |OwnKeys(h[a])|
    ensures forall j :: 0 <= j < |OwnKeys(h[b])| ==>
      OwnKeys(h[b])[j] in OwnKeys(h[a]) &&
      IsEqual(h, rank, Get(h[b], OwnKeys(h[b])[j]), Get(h[a], OwnKeys(h[b])[j]))
    decreases Measure(rank, Ref(a)) + Measure(rank, Ref(b)), 1
  {
    var na, nb := h[a], h[b];
    var ka, kb := OwnKeys(na), OwnKeys(nb);
    KeysBranch(h, rank, a, b);
    assert WellFormedNode(na) && WellFormedNode(nb);
    OwnKeysDistinct(na);
    OwnKeysDistinct(nb);
    ContainedBack(ka, kb);
    forall j | 0 <= j < |kb|
      ensures kb[j] in ka && IsEqual(h, rank, Get(nb, kb[j]), Get(na, kb[j]))
    {
      KeyBack(h, rank, a, b, kb[j]);
    }
  }

  /** A key of both objects: the values under it are equal back. */
  lemma {:induction false} KeyBack(h: Heap, rank: map<nat, nat>, a: nat, b: nat, key: string)
    requires RankedOn(h, rank) && WellFormed(h) && SetFree(h) && a < |h| && b < |h| && a != b
    requires KeysEqual(h, rank, a, b) && key in OwnKeys(h[a])
    ensures IsEqual(h, rank, Get(h[b], key), Get(h[a], key))
    decreases Measure(rank, Ref(a)) + Measure(rank, Ref(b)), 0
  {
    var na, nb := h[a], h[b];
    var ka := OwnKeys(na);
    var i :| 0 <= i < |ka| && ka[i] == key;
    assert IsEqual(h, rank, Get(na, key), Get(nb, key));
    Symmetric(h, rank, Get(na, key), Get(nb, key));
  }
}
