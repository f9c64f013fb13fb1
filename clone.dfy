/**
 * `deepClone(obj, visited)`: copies the object graph reachable from `obj`
 * into fresh nodes of the arena. `visited` maps each source object already
 * reached to its copy and is filled before a container's children are
 * copied, so cycles and shared objects come out as cycles and shared copies.
 */
module Cloning {
  import opened JsValues
  import opened Heap

  /** The `visited` WeakMap: source object id to the id of its copy. */
  class Visited {
    var table: map<nat, nat>

    constructor ()
      ensures table == map[]
    {
      table := map[];
    }
  }

  /** The copy of a value under a table: an object becomes its copy, a primitive stays itself. */
  function Image(t: map<nat, nat>, v: Value): Value
  {
    if v.Ref? && v.id in t then Ref(t[v.id]) else v
  }

  /** What the copy of a node holds, once its children are copied. */
  function Translate(t: map<nat, nat>, n: Node): Node
  {
    match n
    case DateNode(time, _) => DateNode(time, [])
    case RegExpNode(source, flags, _) => RegExpNode(source, flags, [])
    case ArrayNode(elems) => ArrayNode(seq(|elems|, i requires 0 <= i < |elems| => Image(t, elems[i])))
    case MapNode(entries, _) =>
      MapNode(seq(|entries|, i requires 0 <= i < |entries| => (Image(t, entries[i].0), Image(t, entries[i].1))), [])
    case SetNode(members, _) => SetNode(seq(|members|, i requires 0 <= i < |members| => Image(t, members[i])), [])
    case PlainNode(props) => PlainNode(ImageProps(t, props))
  }

  /** Each property with its value replaced by the value's copy. */
  function ImageProps(t: map<nat, nat>, ps: Props): (r: Props)
    ensures |r| == |ps| && forall i :: 0 <= i < |ps| ==> r[i] == (ps[i].0, Image(t, ps[i].1))
  {
    seq(|ps|, i requires 0 <= i < |ps| => (ps[i].0, Image(t, ps[i].1)))
  }

  /** The values of a node that the copy copies (the extra properties of Dates, RegExps, Maps and Sets are not). */
  function CloneChildren(n: Node): seq<Value>
  {
    match n
    case DateNode(_, _) => []
    case RegExpNode(_, _, _) => []
    case ArrayNode(elems) => elems
    case MapNode(entries, _) => EntryKeys(entries) + EntryValues(entries)
    case SetNode(members, _) => members
    case PlainNode(props) => PropValues(props)
  }

  predicate Covered(t: map<nat, nat>, n: Node)
  {
    forall c :: c in CloneChildren(n) && c.Ref? ==> c.id in t
  }

  predicate Injective(t: map<nat, nat>)
  {
    forall k1, k2 :: k1 in t && k2 in t && k1 != k2 ==> t[k1] != t[k2]
  }

  /** The source graph: the first `n` nodes, well formed and referring only to each other. */
  predicate ClosedBelow(h: Heap, n: nat)
  {
    n <= |h| &&
    forall id :: 0 <= id < n ==>
      WellFormedNode(h[id]) && forall c :: c in Children(h[id]) && c.Ref? ==> c.id < n
  }

  /** The copy of `k` is finished: its children are copied and it holds their copies. */
  predicate Complete(h: Heap, t: map<nat, nat>, k: nat)
    requires k in t && k < |h| && t[k] < |h|
  {
    Covered(t, h[k]) && h[t[k]] == Translate(t, h[k])
  }

  /**
   * The state between steps of the copy: sources below `n`, copies from `n`
   * on, one copy per source, and every copy finished except those of the
   * `pending` sources, whose children are still being copied.
   */
  predicate Inv(h: Heap, t: map<nat, nat>, n: nat, pending: set<nat>)
  {
    ClosedBelow(h, n) &&
    (forall k :: k in t ==> k < n <= t[k] < |h|) &&
    Injective(t) &&
    (forall j :: n <= j < |h| ==> j in t.Values) &&
    (forall k :: k in pending ==> k in t) &&
    (forall k :: k in t && k !in pending ==> Complete(h, t, k))
  }

  /** A step keeps every node that existed and every copy already made. */
  predicate Grows(h0: Heap, h1: Heap, t0: map<nat, nat>, t1: map<nat, nat>)
  {
    |h0| <= |h1| &&
    (forall i :: 0 <= i < |h0| ==> h1[i] == h0[i]) &&
    (forall k :: k in t0 ==> k in t1 && t1[k] == t0[k]) &&
    (forall k :: k in t1 && k !in t0 ==> t1[k] >= |h0|)
  }

  /** The sources not yet reached: what the copy's recursion uses up. */
  function Unvisited(n: nat, t: map<nat, nat>): set<nat>
  {
    set i | 0 <= i < n && i !in t
  }

  lemma {:induction false} CloneChildrenAreChildren(n: Node, c: Value)
    requires c in CloneChildren(n)
    ensures c in Children(n)
  {
  }

  /** Copying more sources does not change the copy of a node whose children were already copied. */
  lemma {:induction false} TranslateExtends(t0: map<nat, nat>, t1: map<nat, nat>, n: Node)
    requires Covered(t0, n)
    requires forall k :: k in t0 ==> k in t1 && t1[k] == t0[k]
    ensures Covered(t1, n) && Translate(t1, n) == Translate(t0, n)
  {
    match n
    case DateNode(_, _) =>
    case RegExpNode(_, _, _) =>
    case ArrayNode(elems) =>
      forall i | 0 <= i < |elems|
        ensures Image(t1, elems[i]) == Image(t0, elems[i])
      {
        assert elems[i] in CloneChildren(n);
      }
    case MapNode(entries, _) =>
      forall i | 0 <= i < |entries|
        ensures Image(t1, entries[i].0) == Image(t0, entries[i].0)
        ensures Image(t1, entries[i].1) == Image(t0, entries[i].1)
      {
        assert EntryKeys(entries)[i] == entries[i].0 && EntryValues(entries)[i] == entries[i].1;
        assert entries[i].0 in CloneChildren(n) && entries[i].1 in CloneChildren(n);
      }
    case SetNode(members, _) =>
      forall i | 0 <= i < |members|
        ensures Image(t1, members[i]) == Image(t0, members[i])
      {
        assert members[i] in CloneChildren(n);
      }
    case PlainNode(props) =>
      forall i | 0 <= i < |props|
        ensures Image(t1, props[i].1) == Image(t0, props[i].1)
      {
        assert PropValues(props)[i] == props[i].1;
        assert props[i].1 in CloneChildren(n);
      }
  }

  /** Distinct values have distinct copies, since copies go to fresh nodes. */
  lemma {:induction false} ImageInjective(t: map<nat, nat>, n: nat, x: Value, y: Value)
    requires Injective(t) && forall k :: k in t ==> k < n <= t[k]
    requires x.Ref? ==> x.id in t
    requires y.Ref? ==> y.id in t
    requires x != y
    ensures Image(t, x) != Image(t, y)
  {
  }

  /** Reaching a new source: its copy is appended and recorded, and is pending. */
  lemma {:induction false} AllocKeepsInv(h: Heap, t: map<nat, nat>, n: nat, pending: set<nat>, id: nat, copy: Node)
    requires Inv(h, t, n, pending) && id < n && id !in t
    ensures Inv(h + [copy], t[id := |h|], n, pending + {id})
  {
    var h1, t1 := h + [copy], t[id := |h|];
    forall k | k in t1 && k !in pending + {id}
      ensures Complete(h1, t1, k)
    {
      assert Complete(h, t, k);
      TranslateExtends(t, t1, h[k]);
    }
    forall j | n <= j < |h1|
      ensures j in t1.Values
    {
      if j < |h| {
        assert j in t.Values;
        var k :| k in t && t[k] == j;
        assert t1[k] == j;
      } else {
        assert t1[id] == j;
      }
    }
  }

  /** Writing into the copy of a pending source keeps every other copy. */
  lemma {:induction false} FillKeepsInv(h: Heap, t: map<nat, nat>, n: nat, pending: set<nat>, s: nat, copy: Node)
    requires Inv(h, t, n, pending) && s in pending
    ensures Inv(h[t[s] := copy], t, n, pending)
  {
    var h1 := h[t[s] := copy];
    forall k | k in t && k !in pending
      ensures Complete(h1, t, k)
    {
      assert Complete(h, t, k);
    }
  }

  /** A pending source whose copy has been filled is finished. */
  lemma {:induction false} FinishKeepsInv(h: Heap, t: map<nat, nat>, n: nat, pending: set<nat>, s: nat)
    requires Inv(h, t, n, pending + {s}) && s !in pending && s in t
    requires Covered(t, h[s]) && h[t[s]] == Translate(t, h[s])
    ensures Inv(h, t, n, pending)
  {
  }

  /** As `Grows`, except for the copy at `c`, which is being filled. */
  predicate GrowsExcept(h0: Heap, h1: Heap, t0: map<nat, nat>, t1: map<nat, nat>, c: nat)
  {
    |h0| <= |h1| &&
    (forall i :: 0 <= i < |h0| && i != c ==> h1[i] == h0[i]) &&
    (forall k :: k in t0 ==> k in t1 && t1[k] == t0[k]) &&
    (forall k :: k in t1 && k !in t0 ==> t1[k] >= |h0|)
  }

  /**
   * The container a copy starts as: a Date or a RegExp is copied whole when
   * it is created, any other kind starts empty and is filled afterwards.
   */
  function FreshCopy(n: Node): Node
  {
    match n
    case DateNode(time, _) => DateNode(time, [])
    case RegExpNode(source, flags, _) => RegExpNode(source, flags, [])
    case ArrayNode(_) => ArrayNode([])
    case MapNode(_, _) => MapNode([], [])
    case SetNode(_, _) => SetNode([], [])
    case PlainNode(_) => PlainNode([])
  }

  lemma {:induction false} AllocGrows(h0: Heap, h2: Heap, t0: map<nat, nat>, t2: map<nat, nat>, id: nat, copy: Node)
    requires id !in t0
    requires GrowsExcept(h0 + [copy], h2, t0[id := |h0|], t2, |h0|)
    ensures Grows(h0, h2, t0, t2)
  {
  }

  /**
   * `deepClone(v, visited)`: a primitive comes back as itself, an object
   * already reached comes back as its recorded copy, and any other object
   * gets a fresh copy, recorded before its children are copied.
   */
  method DeepCloneWith(arena: Arena, visited: Visited, v: Value, ghost n: nat, ghost pending: set<nat>) returns (r: Value)
    modifies arena, visited
    requires Inv(arena.nodes, visited.table, n, pending)
    requires v.Ref? ==> v.id < n
    ensures Inv(arena.nodes, visited.table, n, pending)
    ensures Grows(old(arena.nodes), arena.nodes, old(visited.table), visited.table)
    ensures v.Ref? ==> v.id in visited.table
    ensures r == Image(visited.table, v)
    decreases Unvisited(n, visited.table), 0
  {
    if !v.Ref? {
      return v;
    }
    if v.id in visited.table {
      return Ref(visited.table[v.id]);
    }
    var c := |arena.nodes|;
    var copy := FreshCopy(arena.nodes[v.id]);
    AllocKeepsInv(arena.nodes, visited.table, n, pending, v.id, copy);
    UnvisitedShrinks(n, visited.table, v.id, c);
    arena.nodes := arena.nodes + [copy];
    visited.table := visited.table[v.id := c];
    Fill(arena, visited, v.id, n, pending);
    AllocGrows(old(arena.nodes), arena.nodes, old(visited.table), visited.table, v.id, copy);
    r := Ref(c);
  }

  /** Fills the fresh copy of `s` with the copies of its children, by kind. */
  method Fill(arena: Arena, visited: Visited, s: nat, ghost n: nat, ghost pending: set<nat>)
    modifies arena, visited
    requires Inv(arena.nodes, visited.table, n, pending + {s}) && s !in pending && s < n
    requires arena.nodes[visited.table[s]] == FreshCopy(arena.nodes[s])
    ensures Inv(arena.nodes, visited.table, n, pending)
    ensures GrowsExcept(old(arena.nodes), arena.nodes, old(visited.table), visited.table, old(visited.table)[s])
    decreases Unvisited(n, visited.table), 4
  {
    var node := arena.nodes[s];
    if node.DateNode? || node.RegExpNode? {
      FinishKeepsInv(arena.nodes, visited.table, n, pending, s);
    } else if node.ArrayNode? {
      FillArray(arena, visited, s, n, pending);
    } else if node.MapNode? {
      FillMap(arena, visited, s, n, pending);
    } else if node.SetNode? {
      FillSet(arena, visited, s, n, pending);
    } else {
      FillPlain(arena, visited, s, n, pending);
    }
  }

  /** The copy of an array holds the copies of its first `i` elements. */
  predicate ArrayFilled(h: Heap, t: map<nat, nat>, c: nat, elems: seq<Value>, i: nat)
  {
    c < |h| && h[c].ArrayNode? && |h[c].elems| == i && i <= |elems| &&
    forall j :: 0 <= j < i ==>
      (elems[j].Ref? ==> elems[j].id in t) && h[c].elems[j] == Image(t, elems[j])
  }

  lemma {:induction false} ArrayStep(h0: Heap, t0: map<nat, nat>, h1: Heap, t1: map<nat, nat>, c: nat, elems: seq<Value>, i: nat, x: Value)
    requires ArrayFilled(h0, t0, c, elems, i) && i < |elems| && Grows(h0, h1, t0, t1)
    requires (elems[i].Ref? ==> elems[i].id in t1) && x == Image(t1, elems[i])
    ensures ArrayFilled(h1[c := ArrayNode(h1[c].elems + [x])], t1, c, elems, i + 1)
  {
  }

  lemma {:induction false} GrowsStep(h0: Heap, h1: Heap, h2: Heap, t0: map<nat, nat>, t1: map<nat, nat>, t2: map<nat, nat>, c: nat, filled: Node)
    requires GrowsExcept(h0, h1, t0, t1, c) && Grows(h1, h2, t1, t2) && c < |h0|
    ensures GrowsExcept(h0, h2[c := filled], t0, t2, c)
  {
  }

  lemma {:induction false} GrowsTrans(h0: Heap, h1: Heap, h2: Heap, t0: map<nat, nat>, t1: map<nat, nat>, t2: map<nat, nat>)
    requires Grows(h0, h1, t0, t1) && Grows(h1, h2, t1, t2)
    ensures Grows(h0, h2, t0, t2)
  {
  }

  lemma {:induction false} ImageStable(t0: map<nat, nat>, t1: map<nat, nat>, v: Value)
    requires (v.Ref? ==> v.id in t0) && forall k :: k in t0 ==> k in t1 && t1[k] == t0[k]
    ensures (v.Ref? ==> v.id in t1) && Image(t1, v) == Image(t0, v)
  {
  }

  lemma {:induction false} UnvisitedMonotone(n: nat, t0: map<nat, nat>, t1: map<nat, nat>, u: set<nat>)
    requires Unvisited(n, t0) <= u && forall k :: k in t0 ==> k in t1
    ensures Unvisited(n, t1) <= u
  {
  }

  lemma {:induction false} EntryIsChild(entries: seq<(Value, Value)>, props: Props, i: nat)
    requires i < |entries|
    ensures entries[i].0 in Children(MapNode(entries, props)) && entries[i].1 in Children(MapNode(entries, props))
  {
    assert EntryKeys(entries)[i] == entries[i].0 && EntryValues(entries)[i] == entries[i].1;
  }

  lemma {:induction false} UnvisitedShrinks(n: nat, t: map<nat, nat>, id: nat, c: nat)
    requires id < n && id !in t
    ensures Unvisited(n, t[id := c]) < Unvisited(n, t)
  {
    assert id in Unvisited(n, t);
  }

  /** The copy of a Map holds the copies of its first `i` entries. */
  predicate MapFilled(h: Heap, t: map<nat, nat>, c: nat, entries: seq<(Value, Value)>, i: nat)
  {
    c < |h| && h[c].MapNode? && h[c].props == [] && |h[c].entries| == i && i <= |entries| &&
    forall j :: 0 <= j < i ==>
      (entries[j].0.Ref? ==> entries[j].0.id in t) &&
      (entries[j].1.Ref? ==> entries[j].1.id in t) &&
      h[c].entries[j] == (Image(t, entries[j].0), Image(t, entries[j].1))
  }

  /** A copied key is new to the copy, since distinct keys have distinct copies; so `set` appends. */
  lemma {:induction false} MapStep(h0: Heap, t0: map<nat, nat>, h1: Heap, t1: map<nat, nat>, n: nat, c: nat,
                                   entries: seq<(Value, Value)>, i: nat, key: Value, value: Value)
    requires MapFilled(h0, t0, c, entries, i) && i < |entries| && Grows(h0, h1, t0, t1)
    requires Distinct(EntryKeys(entries)) && Injective(t1) && forall k :: k in t1 ==> k < n <= t1[k]
    requires (entries[i].0.Ref? ==> entries[i].0.id in t1) && key == Image(t1, entries[i].0)
    requires (entries[i].1.Ref? ==> entries[i].1.id in t1) && value == Image(t1, entries[i].1)
    ensures MapFilled(h1[c := MapNode(MapSet(h1[c].entries, key, value), [])], t1, c, entries, i + 1)
  {
    var es := h1[c].entries;
    forall j | 0 <= j < i
      ensures EntryKeys(es)[j] != key
    {
      assert EntryKeys(entries)[j] == entries[j].0 && EntryKeys(entries)[i] == entries[i].0;
      ImageInjective(t1, n, entries[j].0, entries[i].0);
    }
    assert !MapHas(es, key);
  }

  /** The copy of a Set holds the copies of its first `i` members. */
  predicate SetFilled(h: Heap, t: map<nat, nat>, c: nat, members: seq<Value>, i: nat)
  {
    c < |h| && h[c].SetNode? && h[c].props == [] && |h[c].members| == i && i <= |members| &&
    forall j :: 0 <= j < i ==>
      (members[j].Ref? ==> members[j].id in t) && h[c].members[j] == Image(t, members[j])
  }

  /** A copied member is new to the copy, so `add` appends it. */
  lemma {:induction false} SetStep(h0: Heap, t0: map<nat, nat>, h1: Heap, t1: map<nat, nat>, n: nat, c: nat,
                                   members: seq<Value>, i: nat, x: Value)
    requires SetFilled(h0, t0, c, members, i) && i < |members| && Grows(h0, h1, t0, t1)
    requires Distinct(members) && Injective(t1) && forall k :: k in t1 ==> k < n <= t1[k]
    requires (members[i].Ref? ==> members[i].id in t1) && x == Image(t1, members[i])
    ensures SetFilled(h1[c := SetNode(SetAdd(h1[c].members, x), [])], t1, c, members, i + 1)
  {
    var ms := h1[c].members;
    forall j | 0 <= j < i
      ensures ms[j] != x
    {
      ImageInjective(t1, n, members[j], members[i]);
    }
    assert x !in ms;
  }

  /** The copy of a plain object holds the first `i` keys, each with the copy of its value. */
  predicate PlainFilled(h: Heap, t: map<nat, nat>, c: nat, props: Props, i: nat)
  {
    c < |h| && h[c].PlainNode? && |h[c].props| == i && i <= |props| &&
    forall j :: 0 <= j < i ==>
      (props[j].1.Ref? ==> props[j].1.id in t) && h[c].props[j] == (props[j].0, Image(t, props[j].1))
  }

  /** A key of the source is new to the copy, since the source's keys are distinct; so the write appends. */
  lemma {:induction false} PlainStep(h0: Heap, t0: map<nat, nat>, h1: Heap, t1: map<nat, nat>, c: nat,
                                     props: Props, i: nat, x: Value)
    requires PlainFilled(h0, t0, c, props, i) && i < |props| && Grows(h0, h1, t0, t1)
    requires Distinct(KeysOf(props))
    requires (props[i].1.Ref? ==> props[i].1.id in t1) && x == Image(t1, props[i].1)
    ensures PlainFilled(h1[c := PlainNode(PropWrite(h1[c].props, props[i].0, x))], t1, c, props, i + 1)
  {
    var ps := h1[c].props;
    forall j | 0 <= j < i
      ensures KeysOf(ps)[j] != props[i].0
    {
      assert KeysOf(props)[j] == props[j].0 && KeysOf(props)[i] == props[i].0;
    }
    assert props[i].0 !in KeysOf(ps);
    PropWriteAppends(ps, props[i].0, x);
  }


  lemma {:induction false} GrowsExceptTrans(h0: Heap, h1: Heap, h2: Heap, t0: map<nat, nat>, t1: map<nat, nat>, t2: map<nat, nat>, c: nat)
    requires GrowsExcept(h0, h1, t0, t1, c) && GrowsExcept(h1, h2, t1, t2, c)
    ensures GrowsExcept(h0, h2, t0, t2, c)
  {
  }

  lemma {:induction false} ArrayDone(h: Heap, t: map<nat, nat>, c: nat, s: nat)
    requires s < |h| && h[s].ArrayNode? && ArrayFilled(h, t, c, h[s].elems, |h[s].elems|)
    ensures Covered(t, h[s]) && h[c] == Translate(t, h[s])
  {
  }

  lemma {:induction false} MapDone(h: Heap, t: map<nat, nat>, c: nat, s: nat)
    requires s < |h| && h[s].MapNode? && MapFilled(h, t, c, h[s].entries, |h[s].entries|)
    ensures Covered(t, h[s]) && h[c] == Translate(t, h[s])
  {
    var es := h[s].entries;
    forall x | x in CloneChildren(h[s]) && x.Ref?
      ensures x.id in t
    {
      if x in EntryKeys(es) {
        var j :| 0 <= j < |es| && EntryKeys(es)[j] == x;
      } else {
        var j :| 0 <= j < |es| && EntryValues(es)[j] == x;
      }
    }
  }

  lemma {:induction false} SetDone(h: Heap, t: map<nat, nat>, c: nat, s: nat)
    requires s < |h| && h[s].SetNode? && SetFilled(h, t, c, h[s].members, |h[s].members|)
    ensures Covered(t, h[s]) && h[c] == Translate(t, h[s])
  {
  }

  lemma {:induction false} PlainDone(h: Heap, t: map<nat, nat>, c: nat, s: nat)
    requires s < |h| && h[s].PlainNode? && PlainFilled(h, t, c, h[s].props, |h[s].props|)
    ensures Covered(t, h[s]) && h[c] == Translate(t, h[s])
  {
    var ps := h[s].props;
    forall x | x in CloneChildren(h[s]) && x.Ref?
      ensures x.id in t
    {
      var j :| 0 <= j < |ps| && PropValues(ps)[j] == x;
    }
  }

  /** One turn of the array loop: `cloned[i] = deepClone(obj[i], visited)`. */
  method CopyElement(arena: Arena, visited: Visited, s: nat, i: nat, ghost n: nat, ghost p: set<nat>)
    modifies arena, visited
    requires Inv(arena.nodes, visited.table, n, p) && s in p && s < n && arena.nodes[s].ArrayNode?
    requires ArrayFilled(arena.nodes, visited.table, visited.table[s], arena.nodes[s].elems, i)
    requires i < |arena.nodes[s].elems|
    ensures Inv(arena.nodes, visited.table, n, p)
    ensures GrowsExcept(old(arena.nodes), arena.nodes, old(visited.table), visited.table, old(visited.table)[s])
    ensures ArrayFilled(arena.nodes, visited.table, visited.table[s], arena.nodes[s].elems, i + 1)
    ensures Unvisited(n, visited.table) <= old(Unvisited(n, visited.table))
    decreases Unvisited(n, visited.table), 1
  {
    var c := visited.table[s];
    var elems := arena.nodes[s].elems;
    assert elems[i] in Children(arena.nodes[s]);
    ghost var h0, t0 := arena.nodes, visited.table;
    var x := DeepCloneWith(arena, visited, elems[i], n, p);
    // writing index i of an array of length i appends
    var filled := ArrayNode(arena.nodes[c].elems + [x]);
    ArrayStep(h0, t0, arena.nodes, visited.table, c, elems, i, x);
    GrowsStep(h0, h0, arena.nodes, t0, t0, visited.table, c, filled);
    FillKeepsInv(arena.nodes, visited.table, n, p, s, filled);
    UnvisitedMonotone(n, t0, visited.table, Unvisited(n, t0));
    arena.nodes := arena.nodes[c := filled];
  }

  /** The array loop: each index in turn. */
  method FillArray(arena: Arena, visited: Visited, s: nat, ghost n: nat, ghost pending: set<nat>)
    modifies arena, visited
    requires Inv(arena.nodes, visited.table, n, pending + {s}) && s !in pending && s < n
    requires arena.nodes[s].ArrayNode? && arena.nodes[visited.table[s]] == ArrayNode([])
    ensures Inv(arena.nodes, visited.table, n, pending)
    ensures GrowsExcept(old(arena.nodes), arena.nodes, old(visited.table), visited.table, old(visited.table)[s])
    decreases Unvisited(n, visited.table), 2
  {
    var c := visited.table[s];
    var length := |arena.nodes[s].elems|;
    ghost var p := pending + {s};
    ghost var u0 := Unvisited(n, visited.table);
    var i := 0;
    while i < length
      invariant i <= length
      invariant Inv(arena.nodes, visited.table, n, p)
      invariant GrowsExcept(old(arena.nodes), arena.nodes, old(visited.table), visited.table, c)
      invariant arena.nodes[s] == old(arena.nodes[s])
      invariant ArrayFilled(arena.nodes, visited.table, c, arena.nodes[s].elems, i)
      invariant Unvisited(n, visited.table) <= u0
    {
      ghost var h0, t0 := arena.nodes, visited.table;
      CopyElement(arena, visited, s, i, n, p);
      GrowsExceptTrans(old(arena.nodes), h0, arena.nodes, old(visited.table), t0, visited.table, c);
      i := i + 1;
    }
    ArrayDone(arena.nodes, visited.table, c, s);
    FinishKeepsInv(arena.nodes, visited.table, n, pending, s);
  }

  /** The key, then the value, of one entry: `deepClone(key, visited)`, `deepClone(value, visited)`. */
  method CloneEntry(arena: Arena, visited: Visited, e: (Value, Value), ghost n: nat, ghost p: set<nat>) returns (key: Value, value: Value)
    modifies arena, visited
    requires Inv(arena.nodes, visited.table, n, p) && (e.0.Ref? ==> e.0.id < n) && (e.1.Ref? ==> e.1.id < n)
    ensures Inv(arena.nodes, visited.table, n, p)
    ensures Grows(old(arena.nodes), arena.nodes, old(visited.table), visited.table)
    ensures (e.0.Ref? ==> e.0.id in visited.table) && key == Image(visited.table, e.0)
    ensures (e.1.Ref? ==> e.1.id in visited.table) && value == Image(visited.table, e.1)
    decreases Unvisited(n, visited.table), 1
  {
    key := DeepCloneWith(arena, visited, e.0, n, p);
    ghost var h1, t1 := arena.nodes, visited.table;
    value := DeepCloneWith(arena, visited, e.1, n, p);
    GrowsTrans(old(arena.nodes), h1, arena.nodes, old(visited.table), t1, visited.table);
    ImageStable(t1, visited.table, e.0);
  }

  /** One turn of the Map loop: `cloned.set(deepClone(key, visited), deepClone(value, visited))`. */
  method CopyEntry(arena: Arena, visited: Visited, s: nat, i: nat, ghost n: nat, ghost p: set<nat>)
    modifies arena, visited
    requires Inv(arena.nodes, visited.table, n, p) && s in p && s < n && arena.nodes[s].MapNode?
    requires MapFilled(arena.nodes, visited.table, visited.table[s], arena.nodes[s].entries, i)
    requires i < |arena.nodes[s].entries|
    ensures Inv(arena.nodes, visited.table, n, p)
    ensures GrowsExcept(old(arena.nodes), arena.nodes, old(visited.table), visited.table, old(visited.table)[s])
    ensures MapFilled(arena.nodes, visited.table, visited.table[s], arena.nodes[s].entries, i + 1)
    ensures Unvisited(n, visited.table) <= old(Unvisited(n, visited.table))
    decreases Unvisited(n, visited.table), 2
  {
    var c := visited.table[s];
    var entries := arena.nodes[s].entries;
    assert WellFormedNode(arena.nodes[s]);
    EntryIsChild(entries, arena.nodes[s].props, i);
    ghost var h0, t0 := arena.nodes, visited.table;
    var key, value := CloneEntry(arena, visited, entries[i], n, p);
    var filled := MapNode(MapSet(arena.nodes[c].entries, key, value), []);
    MapStep(h0, t0, arena.nodes, visited.table, n, c, entries, i, key, value);
    GrowsStep(h0, h0, arena.nodes, t0, t0, visited.table, c, filled);
    FillKeepsInv(arena.nodes, visited.table, n, p, s, filled);
    UnvisitedMonotone(n, t0, visited.table, Unvisited(n, t0));
    arena.nodes := arena.nodes[c := filled];
  }

  /** The Map loop: each entry in turn. */
  method FillMap(arena: Arena, visited: Visited, s: nat, ghost n: nat, ghost pending: set<nat>)
    modifies arena, visited
    requires Inv(arena.nodes, visited.table, n, pending + {s}) && s !in pending && s < n
    requires arena.nodes[s].MapNode? && arena.nodes[visited.table[s]] == MapNode([], [])
    ensures Inv(arena.nodes, visited.table, n, pending)
    ensures GrowsExcept(old(arena.nodes), arena.nodes, old(visited.table), visited.table, old(visited.table)[s])
    decreases Unvisited(n, visited.table), 3
  {
    var c := visited.table[s];
    var size := |arena.nodes[s].entries|;
    ghost var p := pending + {s};
    ghost var u0 := Unvisited(n, visited.table);
    var i := 0;
    while i < size
      invariant i <= size
      invariant Inv(arena.nodes, visited.table, n, p)
      invariant GrowsExcept(old(arena.nodes), arena.nodes, old(visited.table), visited.table, c)
      invariant arena.nodes[s] == old(arena.nodes[s])
      invariant MapFilled(arena.nodes, visited.table, c, arena.nodes[s].entries, i)
      invariant Unvisited(n, visited.table) <= u0
    {
      ghost var h0, t0 := arena.nodes, visited.table;
      CopyEntry(arena, visited, s, i, n, p);
      GrowsExceptTrans(old(arena.nodes), h0, arena.nodes, old(visited.table), t0, visited.table, c);
      i := i + 1;
    }
    MapDone(arena.nodes, visited.table, c, s);
    FinishKeepsInv(arena.nodes, visited.table, n, pending, s);
  }

  /** One turn of the Set loop: `cloned.add(deepClone(value, visited))`. */
  method CopyMember(arena: Arena, visited: Visited, s: nat, i: nat, ghost n: nat, ghost p: set<nat>)
    modifies arena, visited
    requires Inv(arena.nodes, visited.table, n, p) && s in p && s < n && arena.nodes[s].SetNode?
    requires SetFilled(arena.nodes, visited.table, visited.table[s], arena.nodes[s].members, i)
    requires i < |arena.nodes[s].members|
    ensures Inv(arena.nodes, visited.table, n, p)
    ensures GrowsExcept(old(arena.nodes), arena.nodes, old(visited.table), visited.table, old(visited.table)[s])
    ensures SetFilled(arena.nodes, visited.table, visited.table[s], arena.nodes[s].members, i + 1)
    ensures Unvisited(n, visited.table) <= old(Unvisited(n, visited.table))
    decreases Unvisited(n, visited.table), 1
  {
    var c := visited.table[s];
    var members := arena.nodes[s].members;
    assert WellFormedNode(arena.nodes[s]);
    assert members[i] in Children(arena.nodes[s]);
    ghost var h0, t0 := arena.nodes, visited.table;
    var x := DeepCloneWith(arena, visited, members[i], n, p);
    var filled := SetNode(SetAdd(arena.nodes[c].members, x), []);
    SetStep(h0, t0, arena.nodes, visited.table, n, c, members, i, x);
    GrowsStep(h0, h0, arena.nodes, t0, t0, visited.table, c, filled);
    FillKeepsInv(arena.nodes, visited.table, n, p, s, filled);
    UnvisitedMonotone(n, t0, visited.table, Unvisited(n, t0));
    arena.nodes := arena.nodes[c := filled];
  }

  /** The Set loop: each member in turn. */
  method FillSet(arena: Arena, visited: Visited, s: nat, ghost n: nat, ghost pending: set<nat>)
    modifies arena, visited
    requires Inv(arena.nodes, visited.table, n, pending + {s}) && s !in pending && s < n
    requires arena.nodes[s].SetNode? && arena.nodes[visited.table[s]] == SetNode([], [])
    ensures Inv(arena.nodes, visited.table, n, pending)
    ensures GrowsExcept(old(arena.nodes), arena.nodes, old(visited.table), visited.table, old(visited.table)[s])
    decreases Unvisited(n, visited.table), 2
  {
    var c := visited.table[s];
    var size := |arena.nodes[s].members|;
    ghost var p := pending + {s};
    ghost var u0 := Unvisited(n, visited.table);
    var i := 0;
    while i < size
      invariant i <= size
      invariant Inv(arena.nodes, visited.table, n, p)
      invariant GrowsExcept(old(arena.nodes), arena.nodes, old(visited.table), visited.table, c)
      invariant arena.nodes[s] == old(arena.nodes[s])
      invariant SetFilled(arena.nodes, visited.table, c, arena.nodes[s].members, i)
      invariant Unvisited(n, visited.table) <= u0
    {
      ghost var h0, t0 := arena.nodes, visited.table;
      CopyMember(arena, visited, s, i, n, p);
      GrowsExceptTrans(old(arena.nodes), h0, arena.nodes, old(visited.table), t0, visited.table, c);
      i := i + 1;
    }
    SetDone(arena.nodes, visited.table, c, s);
    FinishKeepsInv(arena.nodes, visited.table, n, pending, s);
  }

  /** One turn of the `for…in` loop: `clonedObj[key] = deepClone(obj[key], visited)`. */
  method CopyProperty(arena: Arena, visited: Visited, s: nat, i: nat, ghost n: nat, ghost p: set<nat>)
    modifies arena, visited
    requires Inv(arena.nodes, visited.table, n, p) && s in p && s < n && arena.nodes[s].PlainNode?
    requires PlainFilled(arena.nodes, visited.table, visited.table[s], arena.nodes[s].props, i)
    requires i < |arena.nodes[s].props|
    ensures Inv(arena.nodes, visited.table, n, p)
    ensures GrowsExcept(old(arena.nodes), arena.nodes, old(visited.table), visited.table, old(visited.table)[s])
    ensures PlainFilled(arena.nodes, visited.table, visited.table[s], arena.nodes[s].props, i + 1)
    ensures Unvisited(n, visited.table) <= old(Unvisited(n, visited.table))
    decreases Unvisited(n, visited.table), 1
  {
    var c := visited.table[s];
    var props := arena.nodes[s].props;
    assert WellFormedNode(arena.nodes[s]);
    var key := props[i].0;
    PropLookupAt(props, i);
    var v := Get(arena.nodes[s], key);
    assert PropValues(props)[i] == v;
    ghost var h0, t0 := arena.nodes, visited.table;
    var x := DeepCloneWith(arena, visited, v, n, p);
    var filled := PlainNode(PropWrite(arena.nodes[c].props, key, x));
    PlainStep(h0, t0, arena.nodes, visited.table, c, props, i, x);
    GrowsStep(h0, h0, arena.nodes, t0, t0, visited.table, c, filled);
    FillKeepsInv(arena.nodes, visited.table, n, p, s, filled);
    UnvisitedMonotone(n, t0, visited.table, Unvisited(n, t0));
    arena.nodes := arena.nodes[c := filled];
  }

  /** The `for…in` loop over the own keys, in order. */
  method FillPlain(arena: Arena, visited: Visited, s: nat, ghost n: nat, ghost pending: set<nat>)
    modifies arena, visited
    requires Inv(arena.nodes, visited.table, n, pending + {s}) && s !in pending && s < n
    requires arena.nodes[s].PlainNode? && arena.nodes[visited.table[s]] == PlainNode([])
    ensures Inv(arena.nodes, visited.table, n, pending)
    ensures GrowsExcept(old(arena.nodes), arena.nodes, old(visited.table), visited.table, old(visited.table)[s])
    decreases Unvisited(n, visited.table), 2
  {
    var c := visited.table[s];
    var size := |arena.nodes[s].props|;
    ghost var p := pending + {s};
    ghost var u0 := Unvisited(n, visited.table);
    var i := 0;
    while i < size
      invariant i <= size
      invariant Inv(arena.nodes, visited.table, n, p)
      invariant GrowsExcept(old(arena.nodes), arena.nodes, old(visited.table), visited.table, c)
      invariant arena.nodes[s] == old(arena.nodes[s])
      invariant PlainFilled(arena.nodes, visited.table, c, arena.nodes[s].props, i)
      invariant Unvisited(n, visited.table) <= u0
    {
      ghost var h0, t0 := arena.nodes, visited.table;
      CopyProperty(arena, visited, s, i, n, p);
      GrowsExceptTrans(old(arena.nodes), h0, arena.nodes, old(visited.table), t0, visited.table, c);
      i := i + 1;
    }
    PlainDone(arena.nodes, visited.table, c, s);
    FinishKeepsInv(arena.nodes, visited.table, n, pending, s);
  }

  /**
   * `h` extends the source heap `src` with a copy of every source object in
   * `t`: a fresh node, one per source, holding the translation of the
   * source's contents; every node past the source is one of these copies.
   */
  predicate IsCopy(src: Heap, h: Heap, t: map<nat, nat>)
  {
    |src| <= |h| && Injective(t) &&
    (forall j :: |src| <= j < |h| ==> j in t.Values) &&
    forall k :: k in t ==>
      k < |src| <= t[k] < |h| && Covered(t, src[k]) && h[t[k]] == Translate(t, src[k])
  }

  /**
   * `deepClone(obj)`, starting from an empty `visited`: the source graph is
   * left as it was, the result is the copy of `v`, and the only nodes added
   * are copies of source objects, each holding the copies of what its
   * source holds.
   */
  method DeepClone(arena: Arena, v: Value) returns (r: Value, ghost t: map<nat, nat>)
    modifies arena
    requires ClosedBelow(arena.nodes, |arena.nodes|) && (v.Ref? ==> v.id < |arena.nodes|)
    ensures |old(arena.nodes)| <= |arena.nodes| && arena.nodes[..|old(arena.nodes)|] == old(arena.nodes)
    ensures IsCopy(old(arena.nodes), arena.nodes, t)
    ensures !v.Ref? ==> r == v
    ensures v.Ref? ==> v.id in t && r == Ref(t[v.id]) && t[v.id] >= |old(arena.nodes)|
  {
    var visited := new Visited();
    ghost var n := |arena.nodes|;
    r := DeepCloneWith(arena, visited, v, n, {});
    t := visited.table;
    assert arena.nodes[..n] == old(arena.nodes);
    assert forall j :: n <= j < |arena.nodes| ==> j in t.Values;
    forall k | k in t
      ensures k < n <= t[k] < |arena.nodes| && Covered(t, old(arena.nodes)[k])
      ensures arena.nodes[t[k]] == Translate(t, old(arena.nodes)[k])
    {
      assert Complete(arena.nodes, t, k);
    }
  }

  lemma {:induction false} ImagePropsLookup(t: map<nat, nat>, ps: Props, key: string)
    ensures PropLookup(ImageProps(t, ps), key) == Image(t, PropLookup(ps, key))
  {
    if ps != [] {
      assert ImageProps(t, ps)[1..] == ImageProps(t, ps[1..]);
      ImagePropsLookup(t, ps[1..], key);
    }
  }

  /**
   * The copy of an array or a plain object has exactly the source's own
   * keys, and reading any key of the copy gives the copy of what the source
   * holds there.
   */
  lemma {:induction false} CopyReadsBack(src: Heap, h: Heap, t: map<nat, nat>, k: nat, key: string)
    requires IsCopy(src, h, t) && k in t && (src[k].ArrayNode? || src[k].PlainNode?)
    ensures OwnKeys(h[t[k]]) == OwnKeys(src[k])
    ensures Get(h[t[k]], key) == Image(t, Get(src[k], key))
  {
    if src[k].PlainNode? {
      ImagePropsLookup(t, src[k].props, key);
    }
  }

  /**
   * The other kinds: a Date copy has the same time, a RegExp copy the same
   * source and flags, and a Map or Set copy the copies of the entries or
   * members, in the same order.
   */
  lemma {:induction false} CopyContents(src: Heap, h: Heap, t: map<nat, nat>, k: nat)
    requires IsCopy(src, h, t) && k in t
    ensures src[k].DateNode? ==> h[t[k]].DateNode? && h[t[k]].time == src[k].time
    ensures src[k].RegExpNode? ==>
      h[t[k]].RegExpNode? && h[t[k]].source == src[k].source && h[t[k]].flags == src[k].flags
    ensures src[k].ArrayNode? ==>
      h[t[k]].ArrayNode? && |h[t[k]].elems| == |src[k].elems| &&
      forall i :: 0 <= i < |src[k].elems| ==> h[t[k]].elems[i] == Image(t, src[k].elems[i])
    ensures src[k].MapNode? ==>
      h[t[k]].MapNode? && |h[t[k]].entries| == |src[k].entries| &&
      forall i :: 0 <= i < |src[k].entries| ==>
        h[t[k]].entries[i] == (Image(t, src[k].entries[i].0), Image(t, src[k].entries[i].1))
    ensures src[k].SetNode? ==>
      h[t[k]].SetNode? && |h[t[k]].members| == |src[k].members| &&
      forall i :: 0 <= i < |src[k].members| ==> h[t[k]].members[i] == Image(t, src[k].members[i])
  {
  }

  /**
   * References are kept: where the source object `a` holds object `b` under
   * `key`, the copy of `a` holds the copy of `b`. So `clone.self === clone`
   * when `a == b`, and two places sharing `b` share its copy.
   */
  lemma {:induction false} CopyKeepsReferences(src: Heap, h: Heap, t: map<nat, nat>, a: nat, b: nat, key: string)
    requires IsCopy(src, h, t) && a in t && (src[a].ArrayNode? || src[a].PlainNode?)
    requires Get(src[a], key) == Ref(b)
    ensures b in t && Get(h[t[a]], key) == Ref(t[b])
  {
    assert Get(src[a], key) in CloneChildren(src[a]);
    CopyReadsBack(src, h, t, a, key);
  }

  /** Every value a copy holds is the copy of a value its source holds. */
  lemma {:induction false} TranslateChild(t: map<nat, nat>, n: Node, x: Value) returns (c: Value)
    requires x in Children(Translate(t, n))
    ensures c in CloneChildren(n) && x == Image(t, c)
  {
    var m := Translate(t, n);
    match n
    case DateNode(_, _) =>
      assert false;
    case RegExpNode(_, _, _) =>
      assert false;
    case ArrayNode(elems) =>
      var i :| 0 <= i < |m.elems| && m.elems[i] == x;
      c := elems[i];
    case MapNode(entries, _) =>
      assert PropValues(m.props) == [];
      if x in EntryKeys(m.entries) {
        var i :| 0 <= i < |m.entries| && EntryKeys(m.entries)[i] == x;
        c := entries[i].0;
        assert EntryKeys(entries)[i] == c;
      } else {
        assert x in EntryValues(m.entries);
        var i :| 0 <= i < |m.entries| && EntryValues(m.entries)[i] == x;
        c := entries[i].1;
        assert EntryValues(entries)[i] == c;
      }
    case SetNode(members, _) =>
      assert PropValues(m.props) == [];
      var i :| 0 <= i < |m.members| && m.members[i] == x;
      c := members[i];
    case PlainNode(props) =>
      var i :| 0 <= i < |m.props| && PropValues(m.props)[i] == x;
      c := props[i].1;
      assert PropValues(props)[i] == c;
  }

  /** The source object a node past the source heap is the copy of. */
  ghost function SourceOf(t: map<nat, nat>, j: nat): (k: nat)
    requires j in t.Values
    ensures k in t && t[k] == j
  {
    var k :| k in t && t[k] == j; k
  }

  /**
   * A copy has no more cycles than its source: ranking every copy like its
   * source ranks the whole new arena.
   */
  lemma {:induction false} CopyRank(src: Heap, h: Heap, t: map<nat, nat>, rank: map<nat, nat>) returns (rank1: map<nat, nat>)
    requires IsCopy(src, h, t) && src == h[..|src|] && RankedOn(src, rank)
    ensures RankedOn(h, rank1)
    ensures forall id :: 0 <= id < |src| ==> id in rank1 && rank1[id] == rank[id]
  {
    rank1 := map j | 0 <= j < |h| :: if j < |src| then rank[j] else rank[SourceOf(t, j)];
    forall id | 0 <= id < |h|
      ensures forall x :: x in Children(h[id]) ==> x.Ref? ==> x.id < |h| && x.id in rank1 && rank1[x.id] < rank1[id]
    {
      if id < |src| {
        assert h[id] == src[id];
      } else {
        CopyNodeRanked(src, h, t, rank, rank1, SourceOf(t, id));
      }
    }
  }

  lemma {:induction false} CopyNodeRanked(src: Heap, h: Heap, t: map<nat, nat>, rank: map<nat, nat>, rank1: map<nat, nat>, k: nat)
    requires IsCopy(src, h, t) && RankedOn(src, rank) && k in t
    requires forall j :: 0 <= j < |h| ==> j in rank1 && rank1[j] == if j < |src| then rank[j] else rank[SourceOf(t, j)]
    ensures forall x :: x in Children(h[t[k]]) ==> x.Ref? ==> x.id < |h| && x.id in rank1 && rank1[x.id] < rank1[t[k]]
  {
    var n := src[k];
    forall x | x in Children(h[t[k]]) && x.Ref?
      ensures x.id < |h| && x.id in rank1 && rank1[x.id] < rank1[t[k]]
    {
      var c := TranslateChild(t, n, x);
      CloneChildrenAreChildren(n, c);
      assert c.Ref? && c.id in t && x.id == t[c.id];
      assert SourceOf(t, x.id) == c.id;
      assert SourceOf(t, t[k]) == k;
    }
  }

  /** Every copy is a new object, distinct from every source object. */
  lemma {:induction false} CopiesAreFresh(src: Heap, h: Heap, t: map<nat, nat>, k: nat, j: nat)
    requires IsCopy(src, h, t) && k in t && j < |src|
    ensures Ref(t[k]) != Ref(j)
  {
  }
}
