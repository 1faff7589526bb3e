/**
 * Ruby's Hash as the scraper uses it: an association sequence in insertion
 * order. Assigning to a key that is already present replaces its value and
 * keeps its position; assigning to a new key appends it.
 */
module RubyHash {

  /** Ruby's `nil` next to a present value. */
  datatype Option<T> = None | Some(value: T)

  datatype Entry<K, V> = Entry(key: K, value: V)

  type Hash<K, V> = seq<Entry<K, V>>

  /** `Hash#keys`, in insertion order. */
  function Keys<K, V>(m: Hash<K, V>): (ks: seq<K>)
    ensures |ks| == |m|
  {
    if m == [] then [] else [m[0].key] + Keys(m[1..])
  }

  predicate Distinct<K(==,!new)>(ks: seq<K>) {
    forall i, j :: 0 <= i < j < |ks| ==> ks[i] != ks[j]
  }

  /** What assigning `k` does to the key sequence. */
  function AddKey<K(==,!new)>(ks: seq<K>, k: K): (r: seq<K>)
    ensures Distinct(ks) ==> Distinct(r)
  {
    if k in ks then ks else ks + [k]
  }

  /** `m[k]`: the value stored under `k`, or nil. */
  function Lookup<K(==,!new), V>(m: Hash<K, V>, k: K): (r: Option<V>)
    ensures r.Some? <==> k in Keys(m)
  {
    if m == [] then None
    else if m[0].key == k then Some(m[0].value)
    else Lookup(m[1..], k)
  }

  /** `m[k] = v`. */
  function Put<K(==,!new), V>(m: Hash<K, V>, k: K, v: V): (r: Hash<K, V>)
    ensures Keys(r) == AddKey(Keys(m), k)
    ensures Lookup(r, k) == Some(v)
    ensures forall k' :: k' != k ==> Lookup(r, k') == Lookup(m, k')
  {
    if m == [] then [Entry(k, v)]
    else if m[0].key == k then [Entry(k, v)] + m[1..]
    else
      var rest := Put(m[1..], k, v);
      var r := [m[0]] + rest;
      assert r[1..] == rest;
      assert Keys(r) == [m[0].key] + Keys(rest);
      assert Keys(m) == [m[0].key] + Keys(m[1..]);
      r
  }

  lemma {:induction false} KeysAt<K, V>(m: Hash<K, V>, i: nat)
    requires i < |m|
    ensures Keys(m)[i] == m[i].key
  {
    if i > 0 {
      KeysAt(m[1..], i - 1);
    }
  }

  lemma {:induction false} KeysAppend<K, V>(a: Hash<K, V>, b: Hash<K, V>)
    ensures Keys(a + b) == Keys(a) + Keys(b)
  {
    if a == [] {
      assert a + b == b;
    } else {
      assert (a + b)[1..] == a[1..] + b;
      KeysAppend(a[1..], b);
    }
  }

  /** With distinct keys, every entry is what a lookup of its key finds. */
  lemma {:induction false} LookupAt<K(!new), V>(m: Hash<K, V>, i: nat)
    requires Distinct(Keys(m)) && i < |m|
    ensures Lookup(m, m[i].key) == Some(m[i].value)
  {
    if i > 0 {
      assert Keys(m[1..]) == Keys(m)[1..];
      assert m[0].key != m[i].key by {
        KeysAt(m, 0);
        KeysAt(m, i);
      }
      LookupAt(m[1..], i - 1);
    }
  }

  /** In a Hash with distinct keys, the key of entry `i` is not among the keys before it. */
  lemma KeyNewSoFar<K(!new), V>(m: Hash<K, V>, i: nat)
    requires Distinct(Keys(m)) && i < |m|
    ensures m[i].key !in Keys(m)[..i]
  {
    KeysAt(m, i);
    DistinctPrefix(Keys(m), i);
  }

  lemma DistinctPrefix<K(!new)>(ks: seq<K>, i: nat)
    requires Distinct(ks) && i < |ks|
    ensures ks[i] !in ks[..i]
  {
  }

  lemma PrefixStep<T>(s: seq<T>, i: nat)
    requires i < |s|
    ensures s[..i + 1] == s[..i] + [s[i]]
  {
  }

  lemma KeysPrefix<K, V>(m: Hash<K, V>, i: nat)
    requires i <= |m|
    ensures Keys(m[..i]) == Keys(m)[..i]
  {
    forall j | 0 <= j < i ensures Keys(m[..i])[j] == Keys(m)[j] {
      KeysAt(m[..i], j);
      KeysAt(m, j);
    }
  }

  /** Assigning a new key appends one entry. */
  lemma {:induction false} PutFresh<K(!new), V>(m: Hash<K, V>, k: K, v: V)
    requires k !in Keys(m)
    ensures Put(m, k, v) == m + [Entry(k, v)]
  {
    if m != [] {
      assert Keys(m) == [m[0].key] + Keys(m[1..]);
      PutFresh(m[1..], k, v);
      assert [m[0]] + (m[1..] + [Entry(k, v)]) == m + [Entry(k, v)];
    }
  }

  lemma LookupFresh<K(!new), V>(m: Hash<K, V>, k: K, v: V)
    requires k !in Keys(m)
    ensures Lookup(m + [Entry(k, v)], k) == Some(v)
  {
    PutFresh(m, k, v);
  }

  /** Assigning again to the key that was appended last replaces that entry in place. */
  lemma {:induction false} PutLast<K(!new), V>(m: Hash<K, V>, k: K, v: V, w: V)
    requires k !in Keys(m)
    ensures Put(m + [Entry(k, v)], k, w) == m + [Entry(k, w)]
  {
    var mm := m + [Entry(k, v)];
    if m == [] {
      assert mm == [Entry(k, v)];
    } else {
      assert k !in Keys(m[1..]) && mm[0] == m[0] && mm[0].key != k by {
        assert Keys(m) == [m[0].key] + Keys(m[1..]);
      }
      assert mm[1..] == m[1..] + [Entry(k, v)];
      assert Put(mm, k, w) == [m[0]] + Put(mm[1..], k, w);
      assert Put(mm[1..], k, w) == m[1..] + [Entry(k, w)] by {
        PutLast(m[1..], k, v, w);
      }
      assert [m[0]] + (m[1..] + [Entry(k, w)]) == m + [Entry(k, w)];
    }
  }

  /** Position of the first occurrence of `x`. */
  function FirstIndex<K(==,!new)>(xs: seq<K>, x: K): (i: nat)
    requires x in xs
    ensures i < |xs| && xs[i] == x && x !in xs[..i]
  {
    if xs[0] == x then 0 else 1 + FirstIndex(xs[1..], x)
  }

  lemma {:induction false} FirstIndexAppend<K(!new)>(xs: seq<K>, y: K, x: K)
    requires x in xs + [y]
    ensures FirstIndex(xs + [y], x) == if x in xs then FirstIndex(xs, x) else |xs|
  {
    var i, j := FirstIndex(xs + [y], x), if x in xs then FirstIndex(xs, x) else |xs|;
    assert (xs + [y])[j] == x;
    assert (xs + [y])[..j] == xs[..j];
  }

  /** The elements of `xs`, each once, in the order of their first occurrence. */
  function Dedup<K(==,!new)>(xs: seq<K>): seq<K>
  {
    if xs == [] then [] else AddKey(Dedup(xs[..|xs| - 1]), xs[|xs| - 1])
  }

  lemma {:induction false} DedupFirstAppearance<K(!new)>(xs: seq<K>)
    ensures Distinct(Dedup(xs))
    ensures forall x :: x in Dedup(xs) <==> x in xs
    ensures forall i, j :: 0 <= i < j < |Dedup(xs)| ==>
      FirstIndex(xs, Dedup(xs)[i]) < FirstIndex(xs, Dedup(xs)[j])
  {
    if xs != [] {
      var init, y := xs[..|xs| - 1], xs[|xs| - 1];
      assert xs == init + [y];
      DedupFirstAppearance(init);
      var d := Dedup(init);
      forall x | x in d ensures FirstIndex(xs, x) == FirstIndex(init, x) {
        FirstIndexAppend(init, y, x);
      }
      if y !in d {
        FirstIndexAppend(init, y, y);
        forall i, j | 0 <= i < j < |d| + 1
          ensures FirstIndex(xs, (d + [y])[i]) < FirstIndex(xs, (d + [y])[j])
        {
          assert (d + [y])[i] == d[i];
          if j < |d| {
            assert (d + [y])[j] == d[j];
          }
        }
      }
    }
  }
}
