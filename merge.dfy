/**
 * `merge(target, ...sources)`: folds the sources into the target object in
 * place, left to right. A key whose source and target values are both
 * non-array objects is merged recursively into the target's existing
 * object; any other source value overwrites the target's key.
 *
 * The function has no cycle guard and recurses once per nested object and
 * once per remaining source, so it is modelled with an explicit budget of
 * JavaScript call-stack frames, `depth`: a call made with no frame left
 * ends in `StackExceeded`, the stack overflow an engine would raise.
 */
module Merging {
  import opened JsValues
  import opened Heap

  datatype Outcome = Done(heap: Heap) | StackExceeded

  /** `v && typeof v === 'object' && !Array.isArray(v)`: a reference to a non-array object. */
  predicate IsRecord(h: Heap, v: Value)
  {
    v.Ref? && v.id < |h| && !h[v.id].ArrayNode?
  }

  /** `obj[key] = v` on a non-array object. */
  function WriteKey(n: Node, key: string, v: Value): (r: Node)
    requires !n.ArrayNode?
    ensures !r.ArrayNode?
  {
    n.(props := PropWrite(n.props, key, v))
  }

  /** A merge step keeps the heap's size and every node's array-ness. */
  predicate Preserved(h: Heap, h': Heap)
  {
    |h'| == |h| && forall id :: 0 <= id < |h| ==> h'[id].ArrayNode? == h[id].ArrayNode?
  }

  /** What the recursion needs of a target: a non-array object of the heap. */
  predicate TargetOk(h: Heap, t: nat)
  {
    t < |h| && !h[t].ArrayNode?
  }

  /**
   * `target[key] = v`. Merging only ever writes non-array objects of the heap
   * (MergeAllShape), so the guard always holds where the merge writes.
   */
  function Assign(h: Heap, t: nat, key: string, v: Value): Heap
  {
    if t < |h| && !h[t].ArrayNode? then h[t := WriteKey(h[t], key, v)] else h
  }

  /**
   * `merge(target, ...sources)` called with `depth` stack frames available,
   * the outcome being the heap after the call. An empty source list, a
   * falsy source or a non-object source returns the target as it is, and
   * the sources after it are not merged.
   */
  function MergeAll(h: Heap, t: nat, sources: seq<Value>, depth: nat): Outcome
    decreases depth, 0
  {
    if depth == 0 then StackExceeded
    else if sources == [] || !sources[0].Ref? then Done(h)
    else
      match SourceLoop(h, t, sources[0].id, depth - 1)
      case StackExceeded => StackExceeded
      case Done(h1) => MergeAll(h1, t, sources[1..], depth - 1)
  }

  /**
   * The `for…in` loop of one source, over the keys the source had when the
   * loop started. (A reference outside the heap cannot occur: every caller
   * passes references into it.)
   */
  function SourceLoop(h: Heap, t: nat, src: nat, d: nat): Outcome
    decreases d, 3
  {
    if src < |h| then MergeKeys(h, t, src, OwnKeys(h[src]), d) else Done(h)
  }

  /** The loop over the keys still to visit. */
  function MergeKeys(h: Heap, t: nat, src: nat, keys: seq<string>, d: nat): Outcome
    decreases d, 2, |keys|
  {
    if keys == [] then Done(h)
    else
      match KeyStep(h, t, src, keys[0], d)
      case StackExceeded => StackExceeded
      case Done(h1) => MergeKeys(h1, t, src, keys[1..], d)
  }

  /**
   * One pass of the loop body for `key`; a nested merge runs with the frames
   * `d` left. A key the source no longer owns is passed over (the
   * `hasOwnProperty` test); the source and the target are always in the heap.
   */
  function KeyStep(h: Heap, t: nat, src: nat, key: string, d: nat): Outcome
    decreases d, 1
  {
    if src >= |h| || t >= |h| || key !in OwnKeys(h[src]) then Done(h)
    else
      var sv := Get(h[src], key);
      var tv := Get(h[t], key);
      if IsRecord(h, sv) && IsRecord(h, tv) then
        match MergeAll(h, tv.id, [sv], d)
        case StackExceeded => StackExceeded
        case Done(h1) => Done(Assign(h1, t, key, tv))
      else
        Done(Assign(h, t, key, sv))
  }

  /** A step from `h` to the outcome `o` keeps the heap's shape. */
  predicate KeepsShape(h: Heap, o: Outcome)
  {
    o.Done? ==> Preserved(h, o.heap)
  }

  /** Merging keeps the heap's size and every node's kind of array or not, whatever the inputs. */
  lemma {:induction false} MergeAllShape(h: Heap, t: nat, sources: seq<Value>, depth: nat)
    ensures KeepsShape(h, MergeAll(h, t, sources, depth))
    decreases depth, 0
  {
    if depth > 0 && sources != [] && sources[0].Ref? {
      var m := SourceLoop(h, t, sources[0].id, depth - 1);
      SourceLoopShape(h, t, sources[0].id, depth - 1);
      if m.Done? {
        MergeAllShape(m.heap, t, sources[1..], depth - 1);
      }
    }
  }

  lemma {:induction false} SourceLoopShape(h: Heap, t: nat, src: nat, d: nat)
    ensures KeepsShape(h, SourceLoop(h, t, src, d))
    decreases d, 3
  {
    if src < |h| {
      MergeKeysShape(h, t, src, OwnKeys(h[src]), d);
    }
  }

  lemma {:induction false} MergeKeysShape(h: Heap, t: nat, src: nat, keys: seq<string>, d: nat)
    ensures KeepsShape(h, MergeKeys(h, t, src, keys, d))
    decreases d, 2, |keys|
  {
    if keys != [] {
      var m := KeyStep(h, t, src, keys[0], d);
      KeyStepShape(h, t, src, keys[0], d);
      if m.Done? {
        MergeKeysShape(m.heap, t, src, keys[1..], d);
      }
    }
  }

  lemma {:induction false} KeyStepShape(h: Heap, t: nat, src: nat, key: string, d: nat)
    ensures KeepsShape(h, KeyStep(h, t, src, key, d))
    decreases d, 1
  {
    if src < |h| && t < |h| && key in OwnKeys(h[src]) {
      var sv := Get(h[src], key);
      var tv := Get(h[t], key);
      if IsRecord(h, sv) && IsRecord(h, tv) {
        MergeAllShape(h, tv.id, [sv], d);
      }
    }
  }

  /** Whatever a node of a well-formed heap holds under a key points into the heap. */
  lemma {:induction false} ReadIsRef(h: Heap, id: nat, key: string)
    requires WellFormed(h) && id < |h|
    ensures IsRefIn(h, Get(h[id], key))
  {
    var v := Get(h[id], key);
    if v != P(Undefined) {
      assert v in Children(h[id]);
    }
  }

  lemma {:induction false} WriteChildren(n: Node, key: string, v: Value, c: Value)
    requires !n.ArrayNode? && c in Children(WriteKey(n, key, v))
    ensures c == v || c in Children(n)
  {
    var ps := PropWrite(n.props, key, v);
    if c in PropValues(ps) {
      PropWriteValues(n.props, key, v, c);
    }
  }

  /** Writing a value of the heap into a non-array node keeps the heap well formed. */
  lemma {:induction false} WriteKeepsWellFormed(h: Heap, t: nat, key: string, v: Value)
    requires WellFormed(h) && TargetOk(h, t) && IsRefIn(h, v)
    ensures WellFormed(h[t := WriteKey(h[t], key, v)])
  {
    var n := WriteKey(h[t], key, v);
    var h' := h[t := n];
    PropWriteDistinct(h[t].props, key, v);
    forall c | c in Children(n)
      ensures IsRefIn(h', c)
    {
      WriteChildren(h[t], key, v, c);
    }
    WriteWellFormedNode(h[t], key, v);
  }

  lemma {:induction false} WriteWellFormedNode(n: Node, key: string, v: Value)
    requires !n.ArrayNode? && WellFormedNode(n)
    ensures WellFormedNode(WriteKey(n, key, v))
  {
    PropWriteDistinct(n.props, key, v);
  }

  /** Reading back a written key gives the written value; every other key reads as before. */
  lemma {:induction false} WriteKeyGet(n: Node, key: string, v: Value, other: string)
    requires !n.ArrayNode?
    ensures Get(WriteKey(n, key, v), key) == v
    ensures other != key ==> Get(WriteKey(n, key, v), other) == Get(n, other)
  {
    PropWriteLookup(n.props, key, v, other);
  }

  /**
   * `merge(target, ...sources)` on the arena: the heap afterwards is the one
   * MergeAll describes, or the call overflows the stack; the result is the
   * target itself.
   */
  method Merge(arena: Arena, target: nat, sources: seq<Value>, depth: nat) returns (ok: bool, r: Value)
    modifies arena
    requires TargetOk(arena.nodes, target)
    requires forall v :: v in sources ==> IsRefIn(arena.nodes, v)
    ensures MergeAll(old(arena.nodes), target, sources, depth) == if ok then Done(arena.nodes) else StackExceeded
    ensures r == Ref(target)
    decreases depth, 0
  {
    r := Ref(target);
    if depth == 0 {
      return false, r;
    }
    if sources == [] {
      return true, r;
    }
    var source := sources[0];
    if !source.Ref? {
      return true, r;
    }
    ghost var h0 := arena.nodes;
    assert source in sources && IsRefIn(h0, source);
    ok := MergeSource(arena, target, source.id, depth - 1);
    if !ok {
      MergeAllStep(h0, target, sources, depth, source.id, StackExceeded);
      return;
    }
    SourceStep(h0, target, sources, depth, source.id, arena.nodes);
    ok, r := Merge(arena, target, sources[1..], depth - 1);
  }

  /** The `for…in` loop of one source, over the keys it had when the loop started. */
  method MergeSource(arena: Arena, target: nat, src: nat, d: nat) returns (ok: bool)
    modifies arena
    requires TargetOk(arena.nodes, target) && src < |arena.nodes|
    ensures SourceLoop(old(arena.nodes), target, src, d) == if ok then Done(arena.nodes) else StackExceeded
    decreases d, 3
  {
    var keys := OwnKeys(arena.nodes[src]);
    ghost var h0 := arena.nodes;
    var i := 0;
    while i < |keys|
      invariant 0 <= i <= |keys|
      invariant TargetOk(arena.nodes, target) && src < |arena.nodes|
      invariant MergeKeys(h0, target, src, keys, d) == MergeKeys(arena.nodes, target, src, keys[i..], d)
      decreases |keys| - i
    {
      assert keys[i..][0] == keys[i] && keys[i..][1..] == keys[i + 1..];
      ghost var before := arena.nodes;
      ok := MergeKey(arena, target, src, keys[i], d);
      if !ok {
        return;
      }
      KeyStepShape(before, target, src, keys[i], d);
      i := i + 1;
    }
    ok := true;
  }

  /** The loop body: recurse where both values are records, otherwise overwrite the target's key. */
  method MergeKey(arena: Arena, target: nat, src: nat, key: string, d: nat) returns (ok: bool)
    modifies arena
    requires TargetOk(arena.nodes, target) && src < |arena.nodes|
    ensures KeyStep(old(arena.nodes), target, src, key, d) == if ok then Done(arena.nodes) else StackExceeded
    decreases d, 1
  {
    if key !in OwnKeys(arena.nodes[src]) {
      return true;
    }
    var sv := Get(arena.nodes[src], key);
    var tv := Get(arena.nodes[target], key);
    if IsRecord(arena.nodes, sv) && IsRecord(arena.nodes, tv) {
      ghost var h0 := arena.nodes;
      var merged;
      ok, merged := Merge(arena, tv.id, [sv], d);
      if !ok {
        return;
      }
      MergeAllShape(h0, tv.id, [sv], d);
      arena.nodes := arena.nodes[target := WriteKey(arena.nodes[target], key, merged)];
    } else {
      arena.nodes := arena.nodes[target := WriteKey(arena.nodes[target], key, sv)];
    }
    ok := true;
  }

  /** MergeAll for an object first source, whose keys merge to `m`: then the remaining sources. */
  lemma {:induction false} MergeAllStep(h: Heap, t: nat, sources: seq<Value>, depth: nat, src: nat, m: Outcome)
    requires depth > 0 && sources != [] && sources[0] == Ref(src)
    requires m == SourceLoop(h, t, src, depth - 1)
    ensures m.Done? ==> MergeAll(h, t, sources, depth) == MergeAll(m.heap, t, sources[1..], depth - 1)
    ensures m.StackExceeded? ==> MergeAll(h, t, sources, depth) == StackExceeded
  {
  }

  /**
   * After an object first source merges into `h1`, the target is still a
   * non-array object, the remaining sources still point into the heap, and
   * the merge goes on with them.
   */
  lemma {:induction false} SourceStep(h: Heap, t: nat, sources: seq<Value>, depth: nat, src: nat, h1: Heap)
    requires TargetOk(h, t) && forall v :: v in sources ==> IsRefIn(h, v)
    requires depth > 0 && sources != [] && sources[0] == Ref(src) && src < |h|
    requires SourceLoop(h, t, src, depth - 1) == Done(h1)
    ensures TargetOk(h1, t) && forall v :: v in sources[1..] ==> IsRefIn(h1, v)
    ensures MergeAll(h, t, sources, depth) == MergeAll(h1, t, sources[1..], depth - 1)
  {
    SourceLoopShape(h, t, src, depth - 1);
    RefsKept(h, h1, sources);
    MergeAllStep(h, t, sources, depth, src, Done(h1));
  }

  /** References into a heap still point into one of the same size, the tail's included. */
  lemma {:induction false} RefsKept(h: Heap, h1: Heap, s: seq<Value>)
    requires |h1| == |h| && forall v :: v in s ==> IsRefIn(h, v)
    ensures forall v :: v in s ==> IsRefIn(h1, v)
    ensures s != [] ==> forall v :: v in s[1..] ==> IsRefIn(h1, v)
  {
  }

  /** With no sources left, the target comes back unchanged. */
  lemma {:induction false} NoSourcesNoChange(h: Heap, t: nat, depth: nat)
    requires depth > 0
    ensures MergeAll(h, t, [], depth) == Done(h)
  {
  }

  /** A non-object first source returns the target unchanged, whatever follows it. */
  lemma {:induction false} LeadingNonObjectNoChange(h: Heap, t: nat, v: Value, b: seq<Value>, depth: nat)
    requires !v.Ref? && depth > 0
    ensures MergeAll(h, t, [v] + b, depth) == Done(h)
  {
    MergeStopsAtNonObject(h, t, [], v, b, depth);
    assert [] + [v] + b == [v] + b;
  }

  /** A non-object source ends the merge: it and every later source are ignored. */
  lemma {:induction false} MergeStopsAtNonObject(h: Heap, t: nat, a: seq<Value>, v: Value, b: seq<Value>, depth: nat)
    requires !v.Ref?
    ensures MergeAll(h, t, a + [v] + b, depth) == MergeAll(h, t, a, depth)
    decreases |a|
  {
    var all := a + [v] + b;
    if depth > 0 {
      if a == [] {
        assert all[0] == v;
      } else {
        assert all[0] == a[0];
        if a[0].Ref? {
          var m := SourceLoop(h, t, a[0].id, depth - 1);
          if m.Done? {
            assert all[1..] == a[1..] + [v] + b;
            MergeStopsAtNonObject(m.heap, t, a[1..], v, b, depth - 1);
          }
        }
      }
    }
  }

  /**
   * Where both values under a key are non-array objects (a Date or a Map
   * included), the target's object is merged into and the key keeps
   * pointing at it.
   */
  lemma {:induction false} RecordKeepsReference(h: Heap, t: nat, src: nat, key: string, d: nat)
    requires TargetOk(h, t) && src < |h| && key in OwnKeys(h[src])
    requires IsRecord(h, Get(h[src], key)) && IsRecord(h, Get(h[t], key))
    ensures var r := KeyStep(h, t, src, key, d);
      r.Done? ==> |r.heap| == |h| && Get(r.heap[t], key) == Get(h[t], key)
  {
    var tv := Get(h[t], key);
    var sv := Get(h[src], key);
    var m := MergeAll(h, tv.id, [sv], d);
    MergeAllShape(h, tv.id, [sv], d);
    if m.Done? {
      WriteKeyGet(m.heap[t], key, tv, key);
    }
  }

  /**
   * Any other source value, an array included, is stored under the key
   * itself, so the target shares it; nothing else in the heap changes.
   */
  lemma {:induction false} LeafIsAssigned(h: Heap, t: nat, src: nat, key: string, d: nat, other: string)
    requires TargetOk(h, t) && src < |h| && key in OwnKeys(h[src])
    requires !(IsRecord(h, Get(h[src], key)) && IsRecord(h, Get(h[t], key)))
    ensures var r := KeyStep(h, t, src, key, d);
      r.Done? && |r.heap| == |h| && Get(r.heap[t], key) == Get(h[src], key) &&
      (other != key ==> Get(r.heap[t], other) == Get(h[t], other)) &&
      (forall id :: 0 <= id < |h| && id != t ==> r.heap[id] == h[id])
  {
    WriteKeyGet(h[t], key, Get(h[src], key), other);
  }

  /** No value under any of the source's keys is a record, so merging it only assigns. */
  predicate Shallow(h: Heap, src: nat)
    requires src < |h|
  {
    forall key :: key in OwnKeys(h[src]) ==> !IsRecord(h, Get(h[src], key))
  }

  /** The node after assigning each key of `keys`, in order, its value in `s`. */
  function WriteAll(n: Node, s: Node, keys: seq<string>): (r: Node)
    requires !n.ArrayNode?
    ensures !r.ArrayNode?
    decreases |keys|
  {
    if keys == [] then n else WriteAll(WriteKey(n, keys[0], Get(s, keys[0])), s, keys[1..])
  }

  /** After assigning the keys, each of them reads as in `s` and every other key as before. */
  lemma {:induction false} WriteAllGet(n: Node, s: Node, keys: seq<string>, key: string)
    requires !n.ArrayNode?
    ensures Get(WriteAll(n, s, keys), key) == if key in keys then Get(s, key) else Get(n, key)
    decreases |keys|
  {
    if keys != [] {
      var n1 := WriteKey(n, keys[0], Get(s, keys[0]));
      WriteAllGet(n1, s, keys[1..], key);
      WriteKeyGet(n, keys[0], Get(s, keys[0]), key);
      assert key in keys <==> key == keys[0] || key in keys[1..];
    }
  }

  /** Merging a shallow source other than the target assigns its keys in order and touches no other node. */
  lemma {:induction false} ShallowKeys(h: Heap, t: nat, src: nat, keys: seq<string>, d: nat)
    requires TargetOk(h, t) && src < |h| && src != t && Shallow(h, src)
    requires forall i :: 0 <= i < |keys| ==> keys[i] in OwnKeys(h[src])
    ensures MergeKeys(h, t, src, keys, d) == Done(h[t := WriteAll(h[t], h[src], keys)])
    decreases |keys|
  {
    if keys != [] {
      var key := keys[0];
      var sv := Get(h[src], key);
      var h1 := h[t := WriteKey(h[t], key, sv)];
      LeafIsAssigned(h, t, src, key, d, key);
      assert KeyStep(h, t, src, key, d) == Done(h1);
      assert h1[src] == h[src];
      ShallowStays(h, h1, src);
      ShallowKeys(h1, t, src, keys[1..], d);
      assert h1[t := WriteAll(h1[t], h1[src], keys[1..])] == h[t := WriteAll(h[t], h[src], keys)];
    }
  }

  lemma {:induction false} ShallowStays(h: Heap, h1: Heap, src: nat)
    requires src < |h| && Shallow(h, src) && Preserved(h, h1) && h1[src] == h[src]
    ensures Shallow(h1, src)
  {
    forall key | key in OwnKeys(h1[src])
      ensures !IsRecord(h1, Get(h1[src], key))
    {
      var v := Get(h[src], key);
      assert !IsRecord(h, v);
    }
  }

  /**
   * Merging one shallow source other than the target is exactly assigning
   * the source's keys to the target in order (WriteAllGet then says how each
   * key reads): no other node changes.
   */
  lemma {:induction false} ShallowMerge(h: Heap, t: nat, src: nat, depth: nat)
    requires TargetOk(h, t) && src < |h| && src != t && Shallow(h, src) && depth >= 2
    ensures MergeAll(h, t, [Ref(src)], depth) == Done(h[t := WriteAll(h[t], h[src], OwnKeys(h[src]))])
  {
    ShallowSource(h, t, src, depth - 1);
    SingleSource(h, t, src, depth);
  }

  lemma {:induction false} ShallowSource(h: Heap, t: nat, src: nat, d: nat)
    requires TargetOk(h, t) && src < |h| && src != t && Shallow(h, src)
    ensures SourceLoop(h, t, src, d) == Done(h[t := WriteAll(h[t], h[src], OwnKeys(h[src]))])
  {
    ShallowKeys(h, t, src, OwnKeys(h[src]), d);
  }

  /** Merging a single object source is the loop over its keys. */
  lemma {:induction false} SingleSource(h: Heap, t: nat, src: nat, depth: nat)
    requires depth >= 2
    ensures MergeAll(h, t, [Ref(src)], depth) == SourceLoop(h, t, src, depth - 1)
  {
    assert [Ref(src)][1..] == [];
  }

  /** Sources apply left to right: on a key both shallow sources own, the later one wins. */
  lemma {:induction false} LaterSourceWins(h: Heap, t: nat, s1: nat, s2: nat, depth: nat, key: string)
    requires TargetOk(h, t) && s1 < |h| && s2 < |h| && s1 != t && s2 != t
    requires Shallow(h, s1) && Shallow(h, s2) && depth >= 3
    requires key in OwnKeys(h[s2])
    ensures var r := MergeAll(h, t, [Ref(s1), Ref(s2)], depth);
      r.Done? && |r.heap| == |h| && Get(r.heap[t], key) == Get(h[s2], key)
  {
    ShallowSource(h, t, s1, depth - 1);
    var h1 := h[t := WriteAll(h[t], h[s1], OwnKeys(h[s1]))];
    MergeAllStep(h, t, [Ref(s1), Ref(s2)], depth, s1, Done(h1));
    assert [Ref(s1), Ref(s2)][1..] == [Ref(s2)];
    assert h1[s2] == h[s2];
    ShallowStays(h, h1, s2);
    ShallowMerge(h1, t, s2, depth - 1);
    WriteAllGet(h1[t], h[s2], OwnKeys(h[s2]), key);
  }

  /**
   * The evidently intended merge: a source that is not an object is
   * skipped, and the sources after it are still merged.
   */
  function MergeAllSkipping(h: Heap, t: nat, sources: seq<Value>, depth: nat): Outcome
    decreases depth
  {
    if depth == 0 then StackExceeded
    else if sources == [] then Done(h)
    else if !sources[0].Ref? then MergeAllSkipping(h, t, sources[1..], depth - 1)
    else
      match SourceLoop(h, t, sources[0].id, depth - 1)
      case StackExceeded => StackExceeded
      case Done(h1) => MergeAllSkipping(h1, t, sources[1..], depth - 1)
  }

  /** The corrected merge passes over a non-object source, spending only its stack frame. */
  lemma {:induction false} NonObjectSourceSkipped(h: Heap, t: nat, v: Value, rest: seq<Value>, depth: nat)
    requires !v.Ref?
    ensures MergeAllSkipping(h, t, [v] + rest, depth + 1) == MergeAllSkipping(h, t, rest, depth)
  {
    assert ([v] + rest)[0] == v && ([v] + rest)[1..] == rest;
  }

  /** Where every source is an object of the heap, the corrected merge is the merge as written. */
  lemma {:induction false} SkippingAgrees(h: Heap, t: nat, sources: seq<Value>, depth: nat)
    requires forall v :: v in sources ==> v.Ref?
    ensures MergeAllSkipping(h, t, sources, depth) == MergeAll(h, t, sources, depth)
    decreases depth
  {
    if depth > 0 && sources != [] {
      assert sources[0] in sources;
      var src := sources[0].id;
      var m := SourceLoop(h, t, src, depth - 1);
      BothStep(h, t, sources, depth, src, m);
      if m.Done? {
        assert forall v :: v in sources[1..] ==> v in sources;
        SkippingAgrees(m.heap, t, sources[1..], depth - 1);
      }
    }
  }

  /** Both merges, on an object first source whose keys merge to `m`, go on with the remaining sources. */
  lemma {:induction false} BothStep(h: Heap, t: nat, sources: seq<Value>, depth: nat, src: nat, m: Outcome)
    requires depth > 0 && sources != [] && sources[0] == Ref(src)
    requires m == SourceLoop(h, t, src, depth - 1)
    ensures m.Done? ==> MergeAll(h, t, sources, depth) == MergeAll(m.heap, t, sources[1..], depth - 1)
    ensures m.Done? ==> MergeAllSkipping(h, t, sources, depth) == MergeAllSkipping(m.heap, t, sources[1..], depth - 1)
    ensures m.StackExceeded? ==> MergeAll(h, t, sources, depth) == StackExceeded
    ensures m.StackExceeded? ==> MergeAllSkipping(h, t, sources, depth) == StackExceeded
  {
  }

  /**
   * A `null` before an object source: the merge as written returns the
   * target untouched, while the corrected merge still copies the source's
   * keys, so on a key whose values differ the two disagree.
   */
  lemma {:induction false} NullSourceDropsLaterSources(h: Heap, t: nat, s: nat, depth: nat, key: string)
    requires TargetOk(h, t) && s < |h| && s != t && Shallow(h, s) && depth >= 3
    requires key in OwnKeys(h[s]) && Get(h[s], key) != Get(h[t], key)
    ensures MergeAll(h, t, [P(Null), Ref(s)], depth) == Done(h)
    ensures var r := MergeAllSkipping(h, t, [P(Null), Ref(s)], depth);
      r.Done? && |r.heap| == |h| && Get(r.heap[t], key) == Get(h[s], key) && Get(r.heap[t], key) != Get(h[t], key)
  {
    NullThenShallow(h, t, s, depth);
    WriteAllGet(h[t], h[s], OwnKeys(h[s]), key);
  }

  lemma {:induction false} NullThenShallow(h: Heap, t: nat, s: nat, depth: nat)
    requires TargetOk(h, t) && s < |h| && s != t && Shallow(h, s) && depth >= 3
    ensures MergeAllSkipping(h, t, [P(Null), Ref(s)], depth) == Done(h[t := WriteAll(h[t], h[s], OwnKeys(h[s]))])
  {
    assert [P(Null)] + [Ref(s)] == [P(Null), Ref(s)];
    NonObjectSourceSkipped(h, t, P(Null), [Ref(s)], depth - 1);
    SkippingAgrees(h, t, [Ref(s)], depth - 1);
    ShallowMerge(h, t, s, depth - 1);
  }

  /** A step from `h` to the outcome `o` keeps a well-formed heap well formed. */
  predicate KeepsWellFormed(h: Heap, o: Outcome)
  {
    WellFormed(h) && o.Done? ==> WellFormed(o.heap)
  }

  /**
   * Merging keeps a well-formed heap well formed: every write stores a value
   * read from the heap, so references stay in range and keys stay distinct.
   */
  lemma {:induction false} MergeAllWellFormed(h: Heap, t: nat, sources: seq<Value>, depth: nat)
    ensures KeepsWellFormed(h, MergeAll(h, t, sources, depth))
    decreases depth, 0
  {
    if depth > 0 && sources != [] && sources[0].Ref? {
      var src := sources[0].id;
      var m := SourceLoop(h, t, src, depth - 1);
      MergeAllStep(h, t, sources, depth, src, m);
      SourceLoopWellFormed(h, t, src, depth - 1);
      if m.Done? {
        MergeAllWellFormed(m.heap, t, sources[1..], depth - 1);
      }
    }
  }

  lemma {:induction false} SourceLoopWellFormed(h: Heap, t: nat, src: nat, d: nat)
    ensures KeepsWellFormed(h, SourceLoop(h, t, src, d))
    decreases d, 3
  {
    if src < |h| {
      MergeKeysWellFormed(h, t, src, OwnKeys(h[src]), d);
    }
  }

  lemma {:induction false} MergeKeysWellFormed(h: Heap, t: nat, src: nat, keys: seq<string>, d: nat)
    ensures KeepsWellFormed(h, MergeKeys(h, t, src, keys, d))
    decreases d, 2, |keys|
  {
    if keys != [] {
      var m := KeyStep(h, t, src, keys[0], d);
      KeyStepWellFormed(h, t, src, keys[0], d);
      if m.Done? {
        MergeKeysWellFormed(m.heap, t, src, keys[1..], d);
      }
    }
  }

  lemma {:induction false} KeyStepWellFormed(h: Heap, t: nat, src: nat, key: string, d: nat)
    ensures KeepsWellFormed(h, KeyStep(h, t, src, key, d))
    decreases d, 1
  {
    if WellFormed(h) && src < |h| && t < |h| && key in OwnKeys(h[src]) {
      var sv := Get(h[src], key);
      var tv := Get(h[t], key);
      if IsRecord(h, sv) && IsRecord(h, tv) {
        var m := MergeAll(h, tv.id, [sv], d);
        MergeAllWellFormed(h, tv.id, [sv], d);
        MergeAllShape(h, tv.id, [sv], d);
        if m.Done? {
          AssignKeepsWellFormed(m.heap, t, key, tv);
        }
      } else {
        ReadIsRef(h, src, key);
        AssignKeepsWellFormed(h, t, key, sv);
      }
    }
  }

  lemma {:induction false} AssignKeepsWellFormed(h: Heap, t: nat, key: string, v: Value)
    requires WellFormed(h) && IsRefIn(h, v)
    ensures WellFormed(Assign(h, t, key, v))
  {
    if t < |h| && !h[t].ArrayNode? {
      WriteKeepsWellFormed(h, t, key, v);
    }
  }
}
