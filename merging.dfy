/** What `merge` does to a tree: `merge_children` as a fold over the pairs of
    the incoming hash, in their order. The imperative version in the
    HashTrees module is proved to compute exactly this. */
module Merging {
  import opened Values

  /** The value `merge_children` stores under a key: where the existing value
      is truthy and the incoming one a hash, the two hashes are merged (a
      truthy non-hash existing value is kept, which only happens without a
      crash when the incoming hash is empty); otherwise the incoming value
      replaces the existing one. */
  function MergeValue(cur: Value, v: Value): Value
    decreases Size(v), 1
  {
    if Truthy(cur) && v.Node? then
      if cur.Node? then Node(MergeChildren(cur.entries, v.entries)) else cur
    else v
  }

  /** `merge_children(hash, other)`: each pair of `other`, in order, is written
      into `hash` with `hash[key] =`. Keys `other` does not have keep their
      value, and no key is lost. */
  function MergeChildren(h: seq<Entry>, other: seq<Entry>): (r: seq<Entry>)
    ensures forall k :: !HasKey(other, k) ==> At(r, k) == At(h, k)
    ensures forall k :: HasKey(r, k) <==> HasKey(h, k) || HasKey(other, k)
    decreases EntriesSize(other), 0
  {
    if other == [] then h
    else
      var k := other[0].key;
      MergeChildren(Put(h, k, MergeValue(At(h, k), other[0].value)), other[1..])
  }

  /** `merge_children` stays on hashes: wherever a non-empty incoming hash
      meets a truthy existing value, that value is a hash, and the same holds
      further down. Anything else makes Ruby raise, or splice into a String
      with `String#[]=`. */
  ghost predicate Mergeable(h: seq<Entry>, other: seq<Entry>)
    decreases EntriesSize(other)
  {
    forall i :: 0 <= i < |other| ==>
      var cur := At(h, other[i].key);
      var v := other[i].value;
      (v.Node? && v.entries != [] && Truthy(cur) ==> cur.Node? && Mergeable(cur.entries, v.entries))
  }

  /** Every key of `other` ends up with the merge of its old and its incoming
      value, whatever comes after it in `other`. */
  lemma {:induction false} MergeLookup(h: seq<Entry>, other: seq<Entry>, i: nat)
    requires UniqueKeys(other) && i < |other|
    ensures At(MergeChildren(h, other), other[i].key) == MergeValue(At(h, other[i].key), other[i].value)
    decreases |other|
  {
    var k := other[0].key;
    var h' := Put(h, k, MergeValue(At(h, k), other[0].value));
    if i == 0 {
      assert !HasKey(other[1..], k) by {
        HasKeyIndex(other[1..], k);
        forall j | 0 <= j < |other[1..]| ensures other[1..][j].key != k {
          assert other[1..][j] == other[j + 1];
        }
      }
    } else {
      assert other[1..][i - 1] == other[i];
      MergeLookup(h', other[1..], i - 1);
    }
  }

  /** Merging into an empty hash copies the incoming hash. */
  lemma {:induction false} MergeIntoEmpty(acc: seq<Entry>, other: seq<Entry>)
    requires UniqueKeys(acc + other)
    ensures MergeChildren(acc, other) == acc + other
    decreases |other|
  {
    if other != [] {
      var k := other[0].key;
      assert !HasKey(acc, k) by {
        HasKeyIndex(acc, k);
        forall j | 0 <= j < |acc| ensures acc[j].key != k {
          assert (acc + other)[j] == acc[j] && (acc + other)[|acc|] == other[0];
        }
      }
      assert acc + other == (acc + [other[0]]) + other[1..];
      MergeIntoEmpty(acc + [other[0]], other[1..]);
    }
  }

  /** Merging a hash with a part of itself changes nothing; in particular
      merging a well-formed hash into itself is the identity. */
  lemma {:induction false} MergeSubset(h: seq<Entry>, s: seq<Entry>)
    requires EntriesWellFormed(h)
    requires forall e :: e in s ==> e in h
    ensures MergeChildren(h, s) == h
    decreases EntriesSize(s)
  {
    if s != [] {
      var e := s[0];
      assert e in h;
      var i :| 0 <= i < |h| && h[i] == e;
      AtUnique(h, i);
      MemberWellFormed(h, e);
      if Truthy(e.value) && e.value.Node? {
        MergeSubset(e.value.entries, e.value.entries);
      }
      assert MergeValue(At(h, e.key), e.value) == e.value;
      PutSame(h, i);
      assert forall x :: x in s[1..] ==> x in s;
      MergeSubset(h, s[1..]);
    }
  }

  lemma MergeSelf(h: seq<Entry>)
    requires EntriesWellFormed(h)
    ensures MergeChildren(h, h) == h
  {
    MergeSubset(h, h);
  }

  /** Merging keeps a well-formed tree well-formed. */
  lemma {:induction false} MergeWellFormed(h: seq<Entry>, other: seq<Entry>)
    requires EntriesWellFormed(h) && EntriesWellFormed(other)
    ensures EntriesWellFormed(MergeChildren(h, other))
    decreases EntriesSize(other)
  {
    if other != [] {
      var e := other[0];
      MemberWellFormed(other, e);
      AtWellFormed(h, e.key);
      var cur := At(h, e.key);
      if Truthy(cur) && e.value.Node? && cur.Node? {
        MergeWellFormed(cur.entries, e.value.entries);
      }
      PutWellFormed(h, e.key, MergeValue(cur, e.value));
      assert EntriesWellFormed(other[1..]) by {
        forall i | 0 <= i < |other[1..]| ensures WellFormed(other[1..][i].value) {
          assert other[1..][i] == other[i + 1];
        }
      }
      MergeWellFormed(Put(h, e.key, MergeValue(cur, e.value)), other[1..]);
    }
  }
}
