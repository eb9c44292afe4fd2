/** The document model: the values a JSON, XML or YAML parser produces, and
    the Ruby Hash operations the tree engine uses on them. */
module Values {

  /** A tree value. `Node` is a Ruby Hash with string keys kept in insertion
      order; `List` is a Ruby Array whose elements may be of any kind. */
  datatype Value =
    | Nil
    | Bool(b: bool)
    | Int(i: int)
    | Str(s: string)
    | Node(entries: seq<Entry>)
    | List(items: seq<Value>)

  datatype Option<T> = None | Some(value: T)

  /** One key/value pair of a Node, in insertion order. */
  datatype Entry = Entry(key: string, value: Value)

  /** Ruby truthiness: only nil and false are false. */
  predicate Truthy(v: Value) {
    !(v.Nil? || v == Bool(false))
  }

  /** `value.is_a?(Array) ? value : [value]` (convert_to_array). */
  function AsList(v: Value): (r: seq<Value>)
    ensures v.List? ==> r == v.items
    ensures !v.List? ==> r == [v]
    ensures ItemsSize(r) <= 1 + Size(v)
  {
    if v.List? then v.items
    else
      assert [v][1..] == [];
      [v]
  }

  // ---------------------------------------------------------------------------
  // Sizes, used only to prove termination of the walks.

  ghost function Size(v: Value): nat
  {
    match v
    case Node(es) => 1 + EntriesSize(es)
    case List(xs) => 1 + ItemsSize(xs)
    case _ => 1
  }

  ghost function EntriesSize(es: seq<Entry>): (n: nat)
    ensures forall i :: 0 <= i < |es| ==> Size(es[i].value) < n
  {
    if es == [] then 0
    else
      var n := 2 + Size(es[0].value) + EntriesSize(es[1..]);
      assert forall i :: 1 <= i < |es| ==> es[i] == es[1..][i - 1];
      n
  }

  ghost function ItemsSize(xs: seq<Value>): (n: nat)
    ensures forall i :: 0 <= i < |xs| ==> Size(xs[i]) < n
  {
    if xs == [] then 0
    else
      var n := 1 + Size(xs[0]) + ItemsSize(xs[1..]);
      assert forall i :: 1 <= i < |xs| ==> xs[i] == xs[1..][i - 1];
      n
  }

  // ---------------------------------------------------------------------------
  // Hash operations on an entry sequence.

  /** `hash.key?(k)`. */
  predicate HasKey(es: seq<Entry>, k: string) {
    es != [] && (es[0].key == k || HasKey(es[1..], k))
  }

  lemma HasKeyIndex(es: seq<Entry>, k: string)
    ensures HasKey(es, k) <==> exists i :: 0 <= i < |es| && es[i].key == k
  {
    if es != [] {
      HasKeyIndex(es[1..], k);
      if exists i :: 0 <= i < |es| && es[i].key == k {
        var i :| 0 <= i < |es| && es[i].key == k;
        if i > 0 { assert es[1..][i - 1] == es[i]; }
      }
      if HasKey(es[1..], k) {
        var i :| 0 <= i < |es[1..]| && es[1..][i].key == k;
        assert es[i + 1] == es[1..][i];
      }
    }
  }

  /** A hash is empty exactly when no key is present. */
  lemma NoKeyIffEmpty(es: seq<Entry>)
    ensures es == [] <==> forall k :: !HasKey(es, k)
  {
    if es != [] {
      HasKeyIndex(es, es[0].key);
    }
  }

  /** The keys of a Node in insertion order. */
  function Keys(es: seq<Entry>): (ks: seq<string>)
    ensures |ks| == |es| && forall i :: 0 <= i < |es| ==> ks[i] == es[i].key
  {
    seq(|es|, i requires 0 <= i < |es| => es[i].key)
  }

  /** Ruby Hash keys are unique. */
  predicate UniqueKeys(es: seq<Entry>) {
    forall i, j :: 0 <= i < j < |es| ==> es[i].key != es[j].key
  }

  /** `hash[k]`: the value stored under `k`, or nil when the key is absent. */
  function At(es: seq<Entry>, k: string): (v: Value)
    ensures !HasKey(es, k) ==> v == Nil
  {
    if es == [] then Nil
    else if es[0].key == k then es[0].value
    else At(es[1..], k)
  }

  /** With unique keys, the entry holding `k` is the one `At` reads. */
  lemma AtUnique(es: seq<Entry>, i: nat)
    requires UniqueKeys(es) && i < |es|
    ensures At(es, es[i].key) == es[i].value
  {
    if i > 0 {
      assert es[1..][i - 1] == es[i];
      assert es[0].key != es[i].key;
      AtUnique(es[1..], i - 1);
    }
  }

  /** `hash[k] = v`: an existing key keeps its position, a new key goes last. */
  function Put(es: seq<Entry>, k: string, v: Value): (r: seq<Entry>)
    ensures HasKey(r, k) && At(r, k) == v
    ensures forall j :: j != k ==> At(r, j) == At(es, j) && (HasKey(r, j) <==> HasKey(es, j))
    ensures HasKey(es, k) ==> |r| == |es|
    ensures !HasKey(es, k) ==> r == es + [Entry(k, v)]
  {
    if es == [] then [Entry(k, v)]
    else if es[0].key == k then
      var r := [Entry(k, v)] + es[1..];
      assert r[1..] == es[1..];
      r
    else
      var r := [es[0]] + Put(es[1..], k, v);
      assert r[1..] == Put(es[1..], k, v);
      assert !HasKey(es, k) ==> es[1..] + [Entry(k, v)] == (es + [Entry(k, v)])[1..];
      r
  }

  /** With unique keys, `Put` on a present key rewrites that one entry in place. */
  lemma PutInPlace(es: seq<Entry>, k: string, v: Value)
    requires UniqueKeys(es) && HasKey(es, k)
    ensures forall i :: 0 <= i < |es| ==> Put(es, k, v)[i] == (if es[i].key == k then Entry(k, v) else es[i])
  {
    var r := Put(es, k, v);
    if es[0].key != k {
      PutInPlace(es[1..], k, v);
      forall i | 0 <= i < |es| ensures r[i] == (if es[i].key == k then Entry(k, v) else es[i]) {
        if i > 0 {
          assert r[i] == Put(es[1..], k, v)[i - 1];
          assert es[i] == es[1..][i - 1];
        }
      }
    } else {
      forall i | 0 < i < |es| ensures r[i] == es[i] && es[i].key != k {
        assert es[0].key != es[i].key;
      }
    }
  }

  /** Writing back the value a key already holds changes nothing. */
  lemma PutSame(h: seq<Entry>, i: nat)
    requires UniqueKeys(h) && i < |h|
    ensures Put(h, h[i].key, h[i].value) == h
  {
    HasKeyIndex(h, h[i].key);
    PutInPlace(h, h[i].key, h[i].value);
    var r := Put(h, h[i].key, h[i].value);
    forall j | 0 <= j < |h| ensures r[j] == h[j] {
      if h[j].key == h[i].key {
        assert j == i;
      }
    }
  }

  /** `hash.delete(k)`. */
  function Delete(es: seq<Entry>, k: string): (r: seq<Entry>)
    ensures !HasKey(r, k)
    ensures forall j :: j != k ==> At(r, j) == At(es, j) && (HasKey(r, j) <==> HasKey(es, j))
    ensures forall e :: e in r ==> e in es
  {
    if es == [] then []
    else if es[0].key == k then Delete(es[1..], k)
    else
      var r := [es[0]] + Delete(es[1..], k);
      assert r[1..] == Delete(es[1..], k);
      r
  }

  /** Lookups in a hash grown by one entry at the end. */
  lemma {:induction false} LookupSnoc(es: seq<Entry>, e: Entry, k: string)
    ensures HasKey(es + [e], k) <==> HasKey(es, k) || e.key == k
    ensures At(es + [e], k) == if HasKey(es, k) then At(es, k) else if e.key == k then e.value else Nil
    ensures Delete(es + [e], k) == Delete(es, k) + (if e.key == k then [] else [e])
  {
    if es != [] {
      assert (es + [e])[1..] == es[1..] + [e];
      LookupSnoc(es[1..], e, k);
    } else {
      assert [e][1..] == [];
    }
  }

  lemma PutUnique(es: seq<Entry>, k: string, v: Value)
    requires UniqueKeys(es)
    ensures UniqueKeys(Put(es, k, v))
  {
    if HasKey(es, k) {
      PutInPlace(es, k, v);
    } else {
      var r := Put(es, k, v);
      HasKeyIndex(es, k);
      forall i, j | 0 <= i < j < |r| ensures r[i].key != r[j].key {
        if j == |es| {
          assert r[i] == es[i];
        }
      }
    }
  }

  lemma DeleteUnique(es: seq<Entry>, k: string)
    requires UniqueKeys(es)
    ensures UniqueKeys(Delete(es, k))
  {
    if es != [] {
      DeleteUnique(es[1..], k);
      if es[0].key != k {
        var r := Delete(es, k);
        forall i, j | 0 <= i < j < |r| ensures r[i].key != r[j].key {
          if i == 0 {
            assert r[j] in Delete(es[1..], k);
            assert r[j] in es[1..];
          }
        }
      }
    }
  }

  // ---------------------------------------------------------------------------
  // Well-formedness and Ruby equality.

  /** Every Node of the tree has unique keys, as every Ruby Hash does. */
  ghost predicate WellFormed(v: Value)
    decreases Size(v)
  {
    match v
    case Node(es) => EntriesWellFormed(es)
    case List(xs) => forall i :: 0 <= i < |xs| ==> WellFormed(xs[i])
    case _ => true
  }

  ghost predicate EntriesWellFormed(es: seq<Entry>)
    decreases EntriesSize(es)
  {
    UniqueKeys(es) && forall i :: 0 <= i < |es| ==> WellFormed(es[i].value)
  }

  /** A value stored in a hash of a well-formed tree is well-formed. */
  lemma MemberWellFormed(es: seq<Entry>, e: Entry)
    requires EntriesWellFormed(es) && e in es
    ensures WellFormed(e.value)
  {
    var i :| 0 <= i < |es| && es[i] == e;
  }

  /** `hash[k] = v` keeps a hash well-formed. */
  lemma PutWellFormed(es: seq<Entry>, k: string, v: Value)
    requires EntriesWellFormed(es) && WellFormed(v)
    ensures EntriesWellFormed(Put(es, k, v))
  {
    PutUnique(es, k, v);
    var r := Put(es, k, v);
    if HasKey(es, k) {
      PutInPlace(es, k, v);
    } else {
      assert forall i :: 0 <= i < |es| ==> r[i] == es[i];
    }
  }

  /** A value read from a well-formed hash is well-formed. */
  lemma AtWellFormed(es: seq<Entry>, k: string)
    requires EntriesWellFormed(es)
    ensures WellFormed(At(es, k))
  {
    HasKeyIndex(es, k);
    if HasKey(es, k) {
      var i :| 0 <= i < |es| && es[i].key == k;
      AtUnique(es, i);
    }
  }

  /** `hash.delete(k)` keeps a hash well-formed. */
  lemma DeleteWellFormed(es: seq<Entry>, k: string)
    requires EntriesWellFormed(es)
    ensures EntriesWellFormed(Delete(es, k))
  {
    DeleteUnique(es, k);
    var r := Delete(es, k);
    forall i | 0 <= i < |r| ensures WellFormed(r[i].value) {
      assert r[i] in r;
      MemberWellFormed(es, r[i]);
    }
  }

  /** Ruby `==` on tree values: two hashes are equal when they have the same
      number of keys and every pair of the first is matched in the second,
      whatever the order; arrays compare element by element. */
  predicate Equal(a: Value, b: Value)
    decreases Size(a)
  {
    if a.Node? && b.Node? then
      |a.entries| == |b.entries| &&
      forall i :: 0 <= i < |a.entries| ==>
        HasKey(b.entries, a.entries[i].key) && Equal(a.entries[i].value, At(b.entries, a.entries[i].key))
    else if a.List? && b.List? then
      |a.items| == |b.items| && forall i :: 0 <= i < |a.items| ==> Equal(a.items[i], b.items[i])
    else if a.Node? || a.List? || b.Node? || b.List? then false
    else a == b
  }

  /** Ruby `==` is reflexive on every well-formed value. */
  lemma {:induction false} EqualReflexive(v: Value)
    requires WellFormed(v)
    ensures Equal(v, v)
    decreases Size(v)
  {
    match v
    case Node(es) =>
      forall i | 0 <= i < |es|
        ensures HasKey(es, es[i].key) && Equal(es[i].value, At(es, es[i].key))
      {
        AtUnique(es, i);
        HasKeyIndex(es, es[i].key);
        EqualReflexive(es[i].value);
      }
    case List(xs) =>
      forall i | 0 <= i < |xs| ensures Equal(xs[i], xs[i]) {
        EqualReflexive(xs[i]);
      }
    case _ =>
  }

  /** Ruby `==` on hashes ignores insertion order: two hashes of the same
      size with the same keys, each key holding the same value in both, are
      equal however their pairs are ordered. */
  lemma EqualUpToKeyOrder(a: seq<Entry>, b: seq<Entry>)
    requires EntriesWellFormed(a) && |a| == |b|
    requires forall k :: HasKey(a, k) ==> HasKey(b, k) && At(b, k) == At(a, k)
    ensures Equal(Node(a), Node(b))
  {
    forall i | 0 <= i < |a|
      ensures HasKey(b, a[i].key) && Equal(a[i].value, At(b, a[i].key))
    {
      HasKeyIndex(a, a[i].key);
      AtUnique(a, i);
      EqualReflexive(a[i].value);
    }
  }

  /** For instance two pairs swapped: Ruby-equal, although the sequences of
      pairs differ. */
  lemma EqualIgnoresKeyOrder(k1: string, v1: Value, k2: string, v2: Value)
    requires k1 != k2 && v1.Str? && v2.Str?
    ensures Equal(Node([Entry(k1, v1), Entry(k2, v2)]), Node([Entry(k2, v2), Entry(k1, v1)]))
    ensures Node([Entry(k1, v1), Entry(k2, v2)]) != Node([Entry(k2, v2), Entry(k1, v1)])
  {
    var a := [Entry(k1, v1), Entry(k2, v2)];
    var b := [Entry(k2, v2), Entry(k1, v1)];
    assert a[1..] == [Entry(k2, v2)] && b[1..] == [Entry(k1, v1)];
    assert a[1..][1..] == [] && b[1..][1..] == [];
    forall k | HasKey(a, k) ensures HasKey(b, k) && At(b, k) == At(a, k) {
      HasKeyIndex(a, k);
      var i :| 0 <= i < |a| && a[i].key == k;
      assert b[1 - i] == a[i];
    }
    EqualUpToKeyOrder(a, b);
  }

  // ---------------------------------------------------------------------------
  // Array#flatten.

  /** `[v].flatten`: nested arrays are spliced in, recursively, so no array
      is left in the result. */
  function Flatten(v: Value): (r: seq<Value>)
    ensures forall x :: x in r ==> !x.List?
    decreases Size(v), 1
  {
    if v.List? then FlattenItems(v.items) else [v]
  }

  function FlattenItems(xs: seq<Value>): (r: seq<Value>)
    ensures forall x :: x in r ==> !x.List?
    decreases ItemsSize(xs), 0
  {
    if xs == [] then [] else Flatten(xs[0]) + FlattenItems(xs[1..])
  }

  /** An array without nested arrays flattens to itself. */
  lemma {:induction false} FlattenItemsOfFlat(xs: seq<Value>)
    requires forall i :: 0 <= i < |xs| ==> !xs[i].List?
    ensures FlattenItems(xs) == xs
    decreases |xs|
  {
    if xs != [] {
      FlattenItemsOfFlat(xs[1..]);
    }
  }
}
