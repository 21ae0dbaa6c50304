/** A JavaScript Map keyed by strings: it iterates in insertion order. */
module JsMaps {

  datatype JsMap<V> = JsMap(order: seq<string>, at: map<string, V>) {

    ghost predicate Ok() {
      (forall k :: k in order <==> k in at) && NoRepeat(order)
    }

    function Get(k: string, default: V): V {
      if k in at then at[k] else default
    }

    /** A new key goes last; a key that is there keeps its place. */
    function Set(k: string, v: V): JsMap<V> {
      JsMap(if k in at then order else order + [k], at[k := v])
    }

    function Delete(k: string): JsMap<V> {
      JsMap(Without(order, k), at - {k})
    }
  }

  ghost predicate NoRepeat(s: seq<string>) {
    forall i, j :: 0 <= i < j < |s| ==> s[i] != s[j]
  }

  function Without(s: seq<string>, k: string): (r: seq<string>)
    ensures forall x :: x in r <==> x in s && x != k
    ensures |r| <= |s|
  {
    if s == [] then []
    else if s[0] == k then Without(s[1..], k)
    else [s[0]] + Without(s[1..], k)
  }

  lemma {:induction false} WithoutNoRepeat(s: seq<string>, k: string)
    requires NoRepeat(s)
    ensures NoRepeat(Without(s, k))
    ensures k !in s ==> Without(s, k) == s
    ensures k in s ==> |Without(s, k)| == |s| - 1
  {
    hide NoRepeat;
    if s != [] {
      NoRepeatRest(s);
      WithoutNoRepeat(s[1..], k);
      NoRepeatMore(s[0], Without(s[1..], k));
    } else {
      NoRepeatNone();
    }
  }

  lemma NoRepeatNone()
    ensures NoRepeat([])
  {
  }

  lemma NoRepeatMore(x: string, s: seq<string>)
    requires NoRepeat(s)
    ensures x !in s ==> NoRepeat([x] + s)
  {
  }

  /** The keys of a list that are still there, in order. */
  function Listed(order: seq<string>, keys: set<string>): seq<string> {
    if order == [] then []
    else (if order[0] in keys then [order[0]] else []) + Listed(order[1..], keys)
  }

  lemma {:induction false} ListedAll(order: seq<string>, keys: set<string>)
    requires forall k :: k in order ==> k in keys
    ensures Listed(order, keys) == order
  {
    if order != [] {
      assert order[0] in order && forall k :: k in order[1..] ==> k in order;
      ListedAll(order[1..], keys);
    }
  }

  lemma {:induction false} ListedWithout(order: seq<string>, keys: set<string>, k: string)
    ensures Listed(order, keys - {k}) == Without(Listed(order, keys), k)
  {
    if order != [] {
      ListedWithout(order[1..], keys, k);
      var rest := Listed(order[1..], keys);
      assert ([order[0]] + rest)[1..] == rest && [] + rest == rest;
    }
  }

  lemma SetOk<V>(m: JsMap<V>, k: string, v: V)
    requires m.Ok()
    ensures m.Set(k, v).Ok() && m.Set(k, v).at == m.at[k := v]
  {
  }

  lemma DeleteOk<V>(m: JsMap<V>, k: string)
    requires m.Ok()
    ensures m.Delete(k).Ok() && m.Delete(k).at == m.at - {k}
    ensures |m.Delete(k).order| == |m.order| - (if k in m.at then 1 else 0)
  {
    WithoutNoRepeat(m.order, k);
  }

  lemma FirstIn<V>(m: JsMap<V>)
    requires m.Ok() && m.order != []
    ensures m.order[0] in m.at
  {
    assert m.order[0] in m.order;
  }

  /** Deleting the first key leaves the rest in order. */
  lemma DeleteFirst<V>(m: JsMap<V>)
    requires m.Ok() && m.order != []
    ensures m.order[0] in m.at
    ensures m.Delete(m.order[0]).Ok() && m.Delete(m.order[0]).order == m.order[1..]
  {
    FirstIn(m);
    DeleteOk(m, m.order[0]);
    WithoutNoRepeat(m.order[1..], m.order[0]);
  }

  lemma DeleteAbsent<V>(m: JsMap<V>, k: string)
    requires m.Ok() && k !in m.at
    ensures m.Delete(k) == m
  {
    WithoutNoRepeat(m.order, k);
  }

  /** Deleting and setting moves a key to the end. */
  lemma Renewed<V>(m: JsMap<V>, k: string, v: V)
    requires m.Ok()
    ensures m.Delete(k).Set(k, v).Ok() && m.Delete(k).Set(k, v).at == m.at[k := v]
    ensures m.Delete(k).Set(k, v).order == Without(m.order, k) + [k]
    ensures |m.Delete(k).Set(k, v).order| == |m.order| + (if k in m.at then 0 else 1)
  {
    DeleteOk(m, k);
    SetOk(m.Delete(k), k, v);
  }

  lemma IterationOk<V>(m: JsMap<V>)
    requires m.Ok()
    ensures NoRepeat(m.order) && forall k :: k in m.order ==> k in m.at
  {
  }

  lemma NoRepeatRest(s: seq<string>)
    requires NoRepeat(s) && s != []
    ensures NoRepeat(s[1..]) && s[0] !in s[1..]
  {
  }
}
