/**
  Rust's `BTreeMap<String, V>` as far as the manifest conversion relies on it:
  a finite map with unique keys, whose `iter()` yields the entries in
  ascending key order and whose `collect()` builds a map by inserting the
  yielded pairs one after another into an empty map.
*/
module BTreeMap {

  /** `Ord` for Rust's `String`: lexicographic comparison of the UTF-8 bytes,
      which orders strings exactly as lexicographic comparison of their
      Unicode scalar values does. */
  predicate KeyLe(a: string, b: string)
  {
    if a == [] then true
    else if b == [] then false
    else if a[0] != b[0] then a[0] < b[0]
    else KeyLe(a[1..], b[1..])
  }

  predicate KeyLt(a: string, b: string)
  {
    KeyLe(a, b) && a != b
  }

  lemma {:induction false} KeyLeReflexive(a: string)
    ensures KeyLe(a, a)
  {
    if a != [] {
      KeyLeReflexive(a[1..]);
    }
  }

  lemma {:induction false} KeyLeTotal(a: string, b: string)
    ensures KeyLe(a, b) || KeyLe(b, a)
  {
    if a != [] && b != [] && a[0] == b[0] {
      KeyLeTotal(a[1..], b[1..]);
    }
  }

  lemma {:induction false} KeyLeAntisymmetric(a: string, b: string)
    requires KeyLe(a, b) && KeyLe(b, a)
    ensures a == b
  {
    if a != [] && b != [] {
      KeyLeAntisymmetric(a[1..], b[1..]);
      assert a == [a[0]] + a[1..] && b == [b[0]] + b[1..];
    }
  }

  lemma {:induction false} KeyLeTransitive(a: string, b: string, c: string)
    requires KeyLe(a, b) && KeyLe(b, c)
    ensures KeyLe(a, c)
  {
    if a != [] && b != [] && c != [] && a[0] == b[0] && b[0] == c[0] {
      KeyLeTransitive(a[1..], b[1..], c[1..]);
    }
  }

  /** `k` is the least key of `s`. */
  predicate IsMinKey(k: string, s: set<string>)
  {
    k in s && forall j :: j in s ==> KeyLe(k, j)
  }

  /** Every non-empty set of keys has a least element. */
  lemma {:induction false} MinKeyExists(s: set<string>)
    requires s != {}
    ensures exists k :: IsMinKey(k, s)
    decreases |s|
  {
    var x :| x in s;
    if s == {x} {
      KeyLeReflexive(x);
      assert IsMinKey(x, s);
    } else {
      var rest := s - {x};
      MinKeyExists(rest);
      var m :| IsMinKey(m, rest);
      KeyLeTotal(x, m);
      if KeyLe(x, m) {
        forall j | j in s
          ensures KeyLe(x, j)
        {
          if j == x {
            KeyLeReflexive(x);
          } else {
            KeyLeTransitive(x, m, j);
          }
        }
        assert IsMinKey(x, s);
      } else {
        assert IsMinKey(m, s);
      }
    }
  }

  /** A set of keys has at most one least element. */
  lemma MinKeyUnique(s: set<string>)
    ensures forall a, b :: IsMinKey(a, s) && IsMinKey(b, s) ==> a == b
  {
    forall a, b | IsMinKey(a, s) && IsMinKey(b, s)
      ensures a == b
    {
      KeyLeAntisymmetric(a, b);
    }
  }

  /** The least key of a non-empty key set: the first key `iter()` yields. */
  function MinKey(s: set<string>): (k: string)
    requires s != {}
    ensures k in s
    ensures forall j :: j in s ==> KeyLe(k, j)
  {
    MinKeyExists(s);
    MinKeyUnique(s);
    var k :| IsMinKey(k, s);
    k
  }

  function KeysOf<V>(es: seq<(string, V)>): set<string>
  {
    set i | 0 <= i < |es| :: es[i].0
  }

  predicate StrictlyAscending<V>(es: seq<(string, V)>)
  {
    forall i, j :: 0 <= i < j < |es| ==> KeyLt(es[i].0, es[j].0)
  }

  predicate DistinctKeys<V>(es: seq<(string, V)>)
  {
    forall i, j :: 0 <= i < j < |es| ==> es[i].0 != es[j].0
  }

  /** The entries of `m`, once each, in ascending key order. */
  ghost predicate InKeyOrder<V>(es: seq<(string, V)>, m: map<string, V>)
  {
    && |es| == |m|
    && KeysOf(es) == m.Keys
    && (forall i :: 0 <= i < |es| ==> es[i].0 in m && m[es[i].0] == es[i].1)
    && StrictlyAscending(es)
  }

  /** Putting the least entry in front of the other entries, in order, lists
      the whole map in order. */
  lemma PrependLeast<V>(m: map<string, V>, k: string, tail: seq<(string, V)>)
    requires IsMinKey(k, m.Keys)
    requires InKeyOrder(tail, m - {k})
    ensures InKeyOrder([(k, m[k])] + tail, m)
  {
    var rest := m - {k};
    var es := [(k, m[k])] + tail;
    assert rest.Keys == m.Keys - {k};
    assert |m.Keys| == |rest.Keys| + 1;
    PrependKeys(k, m[k], tail);
    PrependAgrees(m, k, tail);
    PrependAscending(k, m[k], tail, m.Keys);
  }

  lemma PrependKeys<V>(k: string, v: V, tail: seq<(string, V)>)
    ensures KeysOf([(k, v)] + tail) == {k} + KeysOf(tail)
  {
    var es := [(k, v)] + tail;
    forall x | x in KeysOf(es)
      ensures x in {k} + KeysOf(tail)
    {
      var i :| 0 <= i < |es| && es[i].0 == x;
      if i > 0 {
        assert es[i] == tail[i - 1];
      }
    }
    forall x | x in {k} + KeysOf(tail)
      ensures x in KeysOf(es)
    {
      if x == k {
        assert es[0].0 == x;
      } else {
        var i :| 0 <= i < |tail| && tail[i].0 == x;
        assert es[i + 1].0 == x;
      }
    }
  }

  lemma PrependAgrees<V>(m: map<string, V>, k: string, tail: seq<(string, V)>)
    requires k in m
    requires forall i :: 0 <= i < |tail| ==> tail[i].0 in m - {k} && (m - {k})[tail[i].0] == tail[i].1
    ensures forall i :: 0 <= i < |tail| + 1 ==>
      ([(k, m[k])] + tail)[i].0 in m && m[([(k, m[k])] + tail)[i].0] == ([(k, m[k])] + tail)[i].1
  {
  }

  lemma PrependAscending<V>(k: string, v: V, tail: seq<(string, V)>, s: set<string>)
    requires IsMinKey(k, s)
    requires KeysOf(tail) == s - {k}
    requires StrictlyAscending(tail)
    ensures StrictlyAscending([(k, v)] + tail)
  {
    var es := [(k, v)] + tail;
    forall i, j | 0 <= i < j < |es|
      ensures KeyLt(es[i].0, es[j].0)
    {
      if i == 0 {
        assert es[j] == tail[j - 1];
        assert tail[j - 1].0 in KeysOf(tail);
      } else {
        assert es[i] == tail[i - 1] && es[j] == tail[j - 1];
      }
    }
  }

  /** `m.iter()`: every entry of `m`, once each, in ascending key order. */
  function Entries<V>(m: map<string, V>): (es: seq<(string, V)>)
    ensures InKeyOrder(es, m)
    decreases |m|
  {
    if |m| == 0 then []
    else
      var k := MinKey(m.Keys);
      var rest := m - {k};
      assert rest.Keys == m.Keys - {k};
      assert |rest.Keys| == |m.Keys| - 1;
      var tail := Entries(rest);
      PrependLeast(m, k, tail);
      [(k, m[k])] + tail
  }

  /** The first entry `iter()` yields carries the least key. */
  lemma EntriesStartAtMinKey<V>(m: map<string, V>)
    requires |m| > 0
    ensures Entries(m)[0].0 == MinKey(m.Keys)
  {
  }

  /** `iter.collect::<BTreeMap<_, _>>()`: insert the pairs in order into an
      empty map; a later pair replaces an earlier one with the same key. */
  function Collect<V>(es: seq<(string, V)>): (m: map<string, V>)
    ensures m.Keys == KeysOf(es)
  {
    if es == [] then map[]
    else
      var last := es[|es| - 1];
      assert KeysOf(es) == KeysOf(es[..|es| - 1]) + {last.0};
      Collect(es[..|es| - 1])[last.0 := last.1]
  }

  lemma AscendingIsDistinct<V>(es: seq<(string, V)>)
    requires StrictlyAscending(es)
    ensures DistinctKeys(es)
  {
  }

  /** With distinct keys no insertion is overwritten, so every pair survives. */
  lemma {:induction false} CollectAt<V>(es: seq<(string, V)>, i: nat)
    requires DistinctKeys(es)
    requires i < |es|
    ensures es[i].0 in Collect(es) && Collect(es)[es[i].0] == es[i].1
  {
    if i < |es| - 1 {
      var init := es[..|es| - 1];
      assert DistinctKeys(init);
      CollectAt(init, i);
      assert es[i].0 != es[|es| - 1].0;
    }
  }

  /** Collecting the entries of a map rebuilds that map. */
  lemma {:induction false} CollectEntries<V>(m: map<string, V>)
    ensures Collect(Entries(m)) == m
  {
    var es := Entries(m);
    var c := Collect(es);
    assert c.Keys == m.Keys;
    forall k | k in m
      ensures c[k] == m[k]
    {
      var i := EntryIndex(m, k);
      CollectAt(es, i);
    }
  }

  /** Where key `k` of `m` appears among its entries; the entries' keys are
      distinct. */
  lemma EntryIndex<V>(m: map<string, V>, k: string) returns (i: nat)
    requires k in m
    ensures DistinctKeys(Entries(m))
    ensures i < |Entries(m)| && Entries(m)[i] == (k, m[k])
  {
    var es := Entries(m);
    AscendingIsDistinct(es);
    assert k in KeysOf(es);
    i :| 0 <= i < |es| && es[i].0 == k;
  }
}
