/**
 * The objects the deep helpers work on: a heap of nodes addressed by id.
 * A `Ref(id)` value is an object reference, so two references are the same
 * object exactly when their ids are equal.
 */
module Heap {
  import opened Numerals
  import opened JsValues

  /** Own enumerable string-keyed properties, in enumeration order, each key once. */
  type Props = seq<(string, Value)>

  /**
   * The object kinds the helpers tell apart. Every kind except arrays also
   * carries ordinary properties, since a Date, RegExp, Map or Set can hold
   * them too; an array's own enumerable keys are its indices.
   */
  datatype Node =
    | DateNode(time: int, props: Props)
    | RegExpNode(source: string, flags: string, props: Props)
    | ArrayNode(elems: seq<Value>)
    | MapNode(entries: seq<(Value, Value)>, props: Props)
    | SetNode(members: seq<Value>, props: Props)
    | PlainNode(props: Props)

  type Heap = seq<Node>

  function KeysOf(ps: Props): (ks: seq<string>)
    ensures |ks| == |ps| && forall i :: 0 <= i < |ps| ==> ks[i] == ps[i].0
  {
    seq(|ps|, i requires 0 <= i < |ps| => ps[i].0)
  }

  /** `obj[key]` on the properties: the value stored under `key`, or undefined. */
  function PropLookup(ps: Props, key: string): (v: Value)
    ensures key in KeysOf(ps) ==> exists i :: 0 <= i < |ps| && ps[i] == (key, v)
    ensures key !in KeysOf(ps) ==> v == P(Undefined)
  {
    if ps == [] then P(Undefined)
    else if ps[0].0 == key then ps[0].1
    else PropLookup(ps[1..], key)
  }

  /** `obj[key] = v`: an existing key keeps its place, a new key goes last. */
  function PropWrite(ps: Props, key: string, v: Value): Props
  {
    if ps == [] then [(key, v)]
    else if ps[0].0 == key then [(key, v)] + ps[1..]
    else [ps[0]] + PropWrite(ps[1..], key, v)
  }

  /** The array index a key names: a canonical decimal numeral below the length. */
  predicate IsIndexKey(key: string, length: nat)
  {
    NatToString(ParseNat(key)) == key && ParseNat(key) < length
  }

  /** `Object.keys(obj)`: an array's index strings, or the property keys of any other object. */
  function OwnKeys(n: Node): seq<string>
  {
    match n
    case ArrayNode(elems) => seq(|elems|, i requires 0 <= i < |elems| => NatToString(i))
    case _ => KeysOf(n.props)
  }

  /** `obj[key]` for an own key, undefined otherwise (prototype properties are not modelled). */
  function Get(n: Node, key: string): (v: Value)
    ensures v == P(Undefined) || v in Children(n)
  {
    match n
    case ArrayNode(elems) => if IsIndexKey(key, |elems|) then elems[ParseNat(key)] else P(Undefined)
    case _ => PropLookup(n.props, key)
  }

  function PropValues(ps: Props): (vs: seq<Value>)
    ensures |vs| == |ps| && forall i :: 0 <= i < |ps| ==> vs[i] == ps[i].1
  {
    seq(|ps|, i requires 0 <= i < |ps| => ps[i].1)
  }

  function EntryKeys(es: seq<(Value, Value)>): (ks: seq<Value>)
    ensures |ks| == |es| && forall i :: 0 <= i < |es| ==> ks[i] == es[i].0
  {
    seq(|es|, i requires 0 <= i < |es| => es[i].0)
  }

  function EntryValues(es: seq<(Value, Value)>): (vs: seq<Value>)
    ensures |vs| == |es| && forall i :: 0 <= i < |es| ==> vs[i] == es[i].1
  {
    seq(|es|, i requires 0 <= i < |es| => es[i].1)
  }

  /** Every value a node holds. */
  function Children(n: Node): seq<Value>
  {
    match n
    case DateNode(_, props) => PropValues(props)
    case RegExpNode(_, _, props) => PropValues(props)
    case ArrayNode(elems) => elems
    case MapNode(entries, props) => EntryKeys(entries) + EntryValues(entries) + PropValues(props)
    case SetNode(members, props) => members + PropValues(props)
    case PlainNode(props) => PropValues(props)
  }

  /** `map.has(key)`: keys compare by identity (SameValueZero), which is value equality here. */
  predicate MapHas(es: seq<(Value, Value)>, key: Value)
  {
    key in EntryKeys(es)
  }

  /** `map.get(key)` */
  function MapGet(es: seq<(Value, Value)>, key: Value): (v: Value)
    ensures v == P(Undefined) || v in EntryValues(es)
    ensures MapHas(es, key) ==> exists i :: 0 <= i < |es| && es[i] == (key, v)
  {
    if es == [] then P(Undefined)
    else if es[0].0 == key then es[0].1
    else MapGet(es[1..], key)
  }

  /** `map.set(key, v)`: an existing key keeps its place, a new key goes last. */
  function MapSet(es: seq<(Value, Value)>, key: Value, v: Value): (r: seq<(Value, Value)>)
    ensures !MapHas(es, key) ==> r == es + [(key, v)]
  {
    if es == [] then [(key, v)]
    else if es[0].0 == key then [(key, v)] + es[1..]
    else [es[0]] + MapSet(es[1..], key, v)
  }

  /** `set.add(v)`: a member already present is not added again. */
  function SetAdd(ms: seq<Value>, v: Value): (r: seq<Value>)
    ensures v in ms ==> r == ms
    ensures v !in ms ==> r == ms + [v]
  {
    if v in ms then ms else ms + [v]
  }

  predicate Distinct<T(==)>(s: seq<T>)
  {
    forall i, j :: 0 <= i < j < |s| ==> s[i] != s[j]
  }

  /** Keys of properties and of map entries, and set members, occur once. */
  predicate WellFormedNode(n: Node)
  {
    match n
    case ArrayNode(_) => true
    case MapNode(entries, props) => Distinct(EntryKeys(entries)) && Distinct(KeysOf(props))
    case SetNode(members, props) => Distinct(members) && Distinct(KeysOf(props))
    case _ => Distinct(KeysOf(n.props))
  }

  predicate IsRefIn(h: Heap, v: Value)
  {
    v.Ref? ==> v.id < |h|
  }

  /** Every node is well formed and every reference it holds points into the heap. */
  predicate WellFormed(h: Heap)
  {
    forall id :: 0 <= id < |h| ==>
      WellFormedNode(h[id]) && forall c :: c in Children(h[id]) ==> IsRefIn(h, c)
  }

  /**
   * `rank` orders the heap so that every object reference a node holds has a
   * smaller rank than the node: the object graph has no cycles.
   */
  predicate RankedOn(h: Heap, rank: map<nat, nat>)
  {
    forall id :: 0 <= id < |h| ==>
      id in rank && forall c :: c in Children(h[id]) ==> c.Ref? ==> c.id < |h| && c.id in rank && rank[c.id] < rank[id]
  }

  /** The arena that owns every node; the deep helpers read and update it in place. */
  class Arena {
    var nodes: Heap

    constructor (init: Heap)
      ensures nodes == init
    {
      nodes := init;
    }
  }

  lemma {:induction false} KeysOfCons(p: (string, Value), ps: Props)
    ensures KeysOf([p] + ps) == [p.0] + KeysOf(ps)
  {
    var a, b := KeysOf([p] + ps), [p.0] + KeysOf(ps);
    forall i | 0 <= i < |a|
      ensures a[i] == b[i]
    {
      if i > 0 {
        assert ([p] + ps)[i] == ps[i - 1];
      }
    }
    assert a == b;
  }

  /** A new key is appended. */
  lemma {:induction false} PropWriteAppends(ps: Props, key: string, v: Value)
    requires key !in KeysOf(ps)
    ensures PropWrite(ps, key, v) == ps + [(key, v)]
    ensures KeysOf(PropWrite(ps, key, v)) == KeysOf(ps) + [key]
  {
    if ps != [] {
      assert ps == [ps[0]] + ps[1..];
      KeysOfCons(ps[0], ps[1..]);
      PropWriteAppends(ps[1..], key, v);
      assert [ps[0]] + (ps[1..] + [(key, v)]) == ps + [(key, v)];
    }
    var ks := KeysOf(ps + [(key, v)]);
    assert ks == KeysOf(ps) + [key];
  }

  /** An existing key keeps the key sequence as it was. */
  lemma {:induction false} PropWriteSameKeys(ps: Props, key: string, v: Value)
    requires key in KeysOf(ps)
    ensures KeysOf(PropWrite(ps, key, v)) == KeysOf(ps)
  {
    assert ps == [ps[0]] + ps[1..];
    KeysOfCons(ps[0], ps[1..]);
    if ps[0].0 != key {
      PropWriteSameKeys(ps[1..], key, v);
      KeysOfCons(ps[0], PropWrite(ps[1..], key, v));
    } else {
      KeysOfCons((key, v), ps[1..]);
    }
  }

  /** Every property after a write is the written one or one from before. */
  lemma {:induction false} PropWriteFrom(ps: Props, key: string, v: Value)
    ensures forall i :: 0 <= i < |PropWrite(ps, key, v)| ==>
      PropWrite(ps, key, v)[i] == (key, v) || PropWrite(ps, key, v)[i] in ps
  {
    if ps != [] && ps[0].0 != key {
      PropWriteFrom(ps[1..], key, v);
      var r := PropWrite(ps, key, v);
      var r1 := PropWrite(ps[1..], key, v);
      assert r == [ps[0]] + r1;
      forall i | 0 <= i < |r|
        ensures r[i] == (key, v) || r[i] in ps
      {
        if i > 0 {
          assert r[i] == r1[i - 1];
          assert r1[i - 1] in ps[1..] ==> r1[i - 1] in ps;
        } else {
          assert r[0] == ps[0];
        }
      }
    }
  }

  /** Writing a key keeps every other key's value and makes the key read back as written. */
  lemma {:induction false} PropWriteLookup(ps: Props, key: string, v: Value, other: string)
    ensures PropLookup(PropWrite(ps, key, v), key) == v
    ensures other != key ==> PropLookup(PropWrite(ps, key, v), other) == PropLookup(ps, other)
  {
    if ps != [] && ps[0].0 != key {
      PropWriteLookup(ps[1..], key, v, other);
    }
  }

  /** Writing keeps the keys distinct. */
  lemma {:induction false} PropWriteDistinct(ps: Props, key: string, v: Value)
    requires Distinct(KeysOf(ps))
    ensures Distinct(KeysOf(PropWrite(ps, key, v)))
  {
    if key !in KeysOf(ps) {
      PropWriteAppends(ps, key, v);
    } else {
      PropWriteSameKeys(ps, key, v);
    }
  }

  /** The values that a write leaves in the properties: the old ones and the written one. */
  lemma {:induction false} PropWriteValues(ps: Props, key: string, v: Value, c: Value)
    requires c in PropValues(PropWrite(ps, key, v))
    ensures c == v || c in PropValues(ps)
  {
    var r := PropWrite(ps, key, v);
    PropWriteFrom(ps, key, v);
    var i :| 0 <= i < |r| && PropValues(r)[i] == c;
    if r[i] != (key, v) {
      var j :| 0 <= j < |ps| && ps[j] == r[i];
      assert PropValues(ps)[j] == c;
    }
  }

  /** A sequence without repeats has as many distinct elements as it has positions. */
  lemma {:induction false} DistinctCard<T>(s: seq<T>)
    requires Distinct(s)
    ensures |set x | x in s| == |s|
  {
    if s != [] {
      DistinctCard(s[1..]);
      assert (set x | x in s) == {s[0]} + (set x | x in s[1..]);
      assert s[0] !in (set x | x in s[1..]);
    }
  }

  lemma {:induction false} SubsetCard<T>(a: set<T>, b: set<T>)
    requires a <= b
    ensures |a| <= |b|
    decreases a
  {
    if a != {} {
      var x :| x in a;
      SubsetCard(a - {x}, b - {x});
    }
  }

  /**
   * Two repeat-free sequences of the same length, the first contained in the
   * second, hold the same elements.
   */
  lemma {:induction false} ContainedBack<T>(s: seq<T>, t: seq<T>)
    requires Distinct(s) && Distinct(t) && |s| == |t|
    requires forall i :: 0 <= i < |s| ==> s[i] in t
    ensures forall j :: 0 <= j < |t| ==> t[j] in s
  {
    var ss, ts := set x | x in s, set x | x in t;
    DistinctCard(s);
    DistinctCard(t);
    assert ss <= ts;
    forall j | 0 <= j < |t|
      ensures t[j] in s
    {
      if t[j] !in s {
        SubsetCard(ss, ts - {t[j]});
      }
    }
  }

  /** A well-formed node lists each own key once. */
  lemma {:induction false} OwnKeysDistinct(n: Node)
    requires WellFormedNode(n)
    ensures Distinct(OwnKeys(n))
  {
    if n.ArrayNode? {
      var ks := OwnKeys(n);
      forall i, j | 0 <= i < j < |ks|
        ensures ks[i] != ks[j]
      {
        if ks[i] == ks[j] {
          NatToStringInjective(i, j);
        }
      }
    }
  }

  /** With distinct keys, `map.get` of an entry's key is that entry's value. */
  lemma {:induction false} MapGetAt(es: seq<(Value, Value)>, i: nat)
    requires Distinct(EntryKeys(es)) && i < |es|
    ensures MapHas(es, es[i].0) && MapGet(es, es[i].0) == es[i].1
  {
    assert EntryKeys(es)[i] == es[i].0;
    if i > 0 {
      assert EntryKeys(es[1..]) == EntryKeys(es)[1..];
      assert es[0].0 != es[i].0;
      MapGetAt(es[1..], i - 1);
    }
  }

  /** With distinct keys, reading a property's key gives that property's value. */
  lemma {:induction false} PropLookupAt(ps: Props, i: nat)
    requires Distinct(KeysOf(ps)) && i < |ps|
    ensures PropLookup(ps, ps[i].0) == ps[i].1
  {
    if i > 0 {
      assert KeysOf(ps[1..]) == KeysOf(ps)[1..];
      assert KeysOf(ps)[0] != KeysOf(ps)[i];
      PropLookupAt(ps[1..], i - 1);
    }
  }
}
