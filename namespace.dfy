/**
  A Python dict keyed by variable names, as the agent builds its file context
  and its execution scopes: a binding for each key plus the order in which the
  keys were first inserted (`list(d.keys())` prints that order).  Assigning to
  a key that is already present replaces its value and keeps its position.
 */
module Namespaces {
  import opened Values

  datatype Namespace = Namespace(order: seq<string>, binding: map<string, Value>)

  /** Every bound key appears exactly once in the insertion order. */
  predicate WellFormed(d: Namespace) {
    && (forall i, j :: 0 <= i < j < |d.order| ==> d.order[i] != d.order[j])
    && (forall k :: k in d.order ==> k in d.binding)
    && (forall k :: k in d.binding ==> k in d.order)
  }

  const Empty: Namespace := Namespace([], map[])

  /** `d[k] = v`. */
  function Set(d: Namespace, k: string, v: Value): (r: Namespace)
    requires WellFormed(d)
    ensures WellFormed(r)
    ensures r.binding == d.binding[k := v]
    ensures k in d.binding ==> r.order == d.order
    ensures k !in d.binding ==> r.order == d.order + [k]
  {
    Namespace(if k in d.binding then d.order else d.order + [k], d.binding[k := v])
  }

  /** `d.get(k)`: the bound value, or None when `k` is not bound. */
  function Get(d: Namespace, k: string): (v: Value)
    ensures k !in d.binding ==> v == NoneV
    ensures k in d.binding ==> v == d.binding[k]
  {
    if k in d.binding then d.binding[k] else NoneV
  }

  /** Assigns `src[k]` into `d` for each key of `keys`, left to right. */
  function UpdateWith(d: Namespace, keys: seq<string>, src: map<string, Value>): (r: Namespace)
    requires WellFormed(d)
    requires forall k :: k in keys ==> k in src
    ensures WellFormed(r)
    decreases |keys|
  {
    if keys == [] then d
    else UpdateWith(Set(d, keys[0], src[keys[0]]), keys[1..], src)
  }

  /** Every assigned key ends bound to its source value, and every other key
      keeps its binding. */
  lemma {:induction false} UpdateWithBindings(d: Namespace, keys: seq<string>, src: map<string, Value>)
    requires WellFormed(d)
    requires forall k :: k in keys ==> k in src
    ensures var r := UpdateWith(d, keys, src);
            && (forall k :: k in r.binding <==> k in d.binding || k in keys)
            && (forall k :: k in keys ==> r.binding[k] == src[k])
            && (forall k :: k in d.binding && k !in keys ==> r.binding[k] == d.binding[k])
    decreases |keys|
  {
    if keys != [] {
      var next := Set(d, keys[0], src[keys[0]]);
      UpdateWithBindings(next, keys[1..], src);
      assert forall k :: k in keys <==> k == keys[0] || k in keys[1..];
    }
  }

  /** The keys already present keep their places at the front of the order. */
  lemma {:induction false} UpdateWithOrder(d: Namespace, keys: seq<string>, src: map<string, Value>)
    requires WellFormed(d)
    requires forall k :: k in keys ==> k in src
    ensures d.order <= UpdateWith(d, keys, src).order
    decreases |keys|
  {
    if keys != [] {
      var next := Set(d, keys[0], src[keys[0]]);
      UpdateWithOrder(next, keys[1..], src);
      assert d.order <= next.order;
    }
  }

  /** `d.update(e)`: the entries of `e` assigned into `d` in `e`'s order. */
  function Update(d: Namespace, e: Namespace): (r: Namespace)
    requires WellFormed(d) && WellFormed(e)
    ensures WellFormed(r)
    ensures r.binding == d.binding + e.binding
    ensures |d.order| <= |r.order| && r.order[..|d.order|] == d.order
  {
    var r := UpdateWith(d, e.order, e.binding);
    UpdateWithBindings(d, e.order, e.binding);
    UpdateWithOrder(d, e.order, e.binding);
    var u := d.binding + e.binding;
    forall k ensures k in r.binding <==> k in u {
      assert k in e.order <==> k in e.binding;
    }
    assert r.binding.Keys == u.Keys;
    forall k | k in u ensures r.binding[k] == u[k] {
      assert k in e.order <==> k in e.binding;
    }
    assert r.binding == u;
    r
  }
}
