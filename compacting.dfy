/** What `compact!` does to a tree: `compact`, `compact_array` and
    `compact_simple_hash` as functions of the old tree. The imperative
    version in the HashTrees module is proved to compute exactly these. */
module Compacting {
  import opened Values

  /** `compact_simple_hash`: `delete_if { |k, v| not v }` keeps the pairs with
      a truthy value, in order. */
  function DropFalsy(es: seq<Entry>): (r: seq<Entry>)
    ensures forall e :: e in r <==> e in es && Truthy(e.value)
    ensures |r| <= |es|
  {
    if es == [] then []
    else
      var rest := DropFalsy(es[..|es| - 1]);
      assert forall e :: e in es <==> e in es[..|es| - 1] || e == es[|es| - 1];
      rest + (if Truthy(es[|es| - 1].value) then [es[|es| - 1]] else [])
  }

  /** `array.compact!` drops the nil elements (and only those), in order. */
  function DropNils(xs: seq<Value>): (r: seq<Value>)
    ensures forall x :: x in r <==> x in xs && x != Nil
    ensures |r| <= |xs|
  {
    if xs == [] then []
    else
      var rest := DropNils(xs[..|xs| - 1]);
      assert forall x :: x in xs <==> x in xs[..|xs| - 1] || x == xs[|xs| - 1];
      rest + (if xs[|xs| - 1] != Nil then [xs[|xs| - 1]] else [])
  }

  /** The value `compact` stores under a key before the falsy pairs go: an
      array is compacted by `compact_array`, a hash by `compact`, both nil
      when emptied; anything else is kept. */
  function CompactValue(v: Value): Value
    decreases Size(v), 2
  {
    if v.List? then CompactArray(v.items)
    else if v.Node? then Compact(v.entries)
    else v
  }

  /** The hash `compact(hash)` leaves behind, in place: every value compacted,
      then every falsy pair deleted. */
  function CompactEntries(es: seq<Entry>): (r: seq<Entry>)
    decreases EntriesSize(es), 0
  {
    DropFalsy(seq(|es|, i requires 0 <= i < |es| => Entry(es[i].key, CompactValue(es[i].value))))
  }

  /** `compact(hash)`: the compacted hash, or nil when it came out empty. */
  function Compact(es: seq<Entry>): (r: Value)
    ensures r == Nil || r == Node(CompactEntries(es))
    ensures r == Nil <==> CompactEntries(es) == []
    decreases EntriesSize(es), 1
  {
    var c := CompactEntries(es);
    if c == [] then Nil else Node(c)
  }

  /** `compact_array(array)`: each hash element is compacted in place, so an
      emptied one stays as `{}`; other elements are not looked into; then
      the nils are dropped, and an empty array gives nil. */
  function CompactArray(xs: seq<Value>): (r: Value)
    decreases ItemsSize(xs), 1
  {
    var kept := DropNils(CompactItems(xs));
    if kept == [] then Nil else List(kept)
  }

  function CompactItems(xs: seq<Value>): (r: seq<Value>)
    ensures |r| == |xs|
    decreases ItemsSize(xs), 0
  {
    seq(|xs|, j requires 0 <= j < |xs| => if xs[j].Node? then Node(CompactEntries(xs[j].entries)) else xs[j])
  }

  // ---------------------------------------------------------------------------
  // What a compacted tree looks like.

  /** A compacted hash: every value is truthy; a hash value is non-empty and
      compacted; an array value is non-empty, holds no nil, and its hash
      elements are compacted (they may be empty). */
  ghost predicate CompactedEntries(es: seq<Entry>)
    decreases EntriesSize(es), 1
  {
    forall i :: 0 <= i < |es| ==> Truthy(es[i].value) && CompactedValue(es[i].value)
  }

  ghost predicate CompactedValue(v: Value)
    decreases Size(v), 0
  {
    match v
    case Node(es) => es != [] && CompactedEntries(es)
    case List(xs) =>
      xs != [] && forall j :: 0 <= j < |xs| ==> xs[j] != Nil && (xs[j].Node? ==> CompactedEntries(xs[j].entries))
    case _ => true
  }

  /** `compact` leaves a compacted hash: no nil or false value remains. */
  lemma {:induction false} CompactEntriesCompacted(es: seq<Entry>)
    ensures CompactedEntries(CompactEntries(es))
    decreases EntriesSize(es)
  {
    var m := seq(|es|, i requires 0 <= i < |es| => Entry(es[i].key, CompactValue(es[i].value)));
    forall i | 0 <= i < |es| ensures CompactedValue(m[i].value) {
      CompactValueCompacted(es[i].value);
    }
    var r := CompactEntries(es);
    forall i | 0 <= i < |r| ensures Truthy(r[i].value) && CompactedValue(r[i].value) {
      assert r[i] in m;
    }
  }

  lemma {:induction false} CompactValueCompacted(v: Value)
    ensures CompactedValue(CompactValue(v))
    decreases Size(v)
  {
    if v.List? {
      CompactArrayCompacted(v.items);
    } else if v.Node? {
      CompactEntriesCompacted(v.entries);
    }
  }

  lemma {:induction false} CompactArrayCompacted(xs: seq<Value>)
    ensures CompactedValue(CompactArray(xs))
    decreases ItemsSize(xs)
  {
    var c := CompactItems(xs);
    forall j | 0 <= j < |c| && c[j].Node? ensures CompactedEntries(c[j].entries) {
      CompactEntriesCompacted(xs[j].entries);
    }
    var kept := DropNils(c);
    forall j | 0 <= j < |kept| ensures kept[j] != Nil && (kept[j].Node? ==> CompactedEntries(kept[j].entries)) {
      assert kept[j] in c;
    }
  }

  /** On a compacted hash `compact` changes nothing. */
  lemma {:induction false} CompactedFixed(es: seq<Entry>)
    requires CompactedEntries(es)
    ensures CompactEntries(es) == es
    decreases EntriesSize(es)
  {
    var m := seq(|es|, i requires 0 <= i < |es| => Entry(es[i].key, CompactValue(es[i].value)));
    forall i | 0 <= i < |es| ensures m[i] == es[i] {
      CompactValueFixed(es[i].value);
    }
    assert m == es;
    DropFalsyNone(es);
  }

  lemma {:induction false} CompactValueFixed(v: Value)
    requires Truthy(v) && CompactedValue(v)
    ensures CompactValue(v) == v
    decreases Size(v)
  {
    if v.List? {
      var c := CompactItems(v.items);
      forall j | 0 <= j < |c| ensures c[j] == v.items[j] {
        if v.items[j].Node? {
          CompactedFixed(v.items[j].entries);
        }
      }
      assert c == v.items;
      DropNilsNone(c);
    } else if v.Node? {
      CompactedFixed(v.entries);
    }
  }

  lemma {:induction false} DropFalsyNone(es: seq<Entry>)
    requires forall i :: 0 <= i < |es| ==> Truthy(es[i].value)
    ensures DropFalsy(es) == es
  {
    if es != [] {
      var init, last := es[..|es| - 1], es[|es| - 1];
      assert es == init + [last];
      DropFalsyNone(init);
      DropFalsySnoc(init, last);
      calc {
        DropFalsy(es);
        DropFalsy(init + [last]);
        DropFalsy(init) + [last];
        init + [last];
      }
    }
  }

  lemma DropFalsySnoc(init: seq<Entry>, last: Entry)
    ensures DropFalsy(init + [last]) == DropFalsy(init) + (if Truthy(last.value) then [last] else [])
  {
    var es := init + [last];
    assert es[..|es| - 1] == init;
  }

  lemma {:induction false} DropNilsNone(xs: seq<Value>)
    requires forall j :: 0 <= j < |xs| ==> xs[j] != Nil
    ensures DropNils(xs) == xs
  {
    if xs != [] {
      var init, last := xs[..|xs| - 1], xs[|xs| - 1];
      assert xs == init + [last];
      DropNilsNone(init);
      DropNilsSnoc(init, last);
      calc {
        DropNils(xs);
        DropNils(init + [last]);
        DropNils(init) + [last];
        init + [last];
      }
    }
  }

  lemma DropNilsSnoc(init: seq<Value>, last: Value)
    ensures DropNils(init + [last]) == DropNils(init) + (if last != Nil then [last] else [])
  {
    var xs := init + [last];
    assert xs[..|xs| - 1] == init;
  }

  /** `compact!` twice is `compact!` once (while the root is still a hash). */
  lemma CompactIdempotent(es: seq<Entry>)
    requires Compact(es).Node?
    ensures Compact(Compact(es).entries) == Compact(es)
  {
    CompactEntriesCompacted(es);
    CompactedFixed(CompactEntries(es));
  }

  /** Which pairs `compact` keeps: a key stays, with its compacted value,
      exactly when that value is truthy; a truthy scalar is kept as it is;
      no key is added. */
  lemma CompactKeeps(es: seq<Entry>)
    ensures forall i :: 0 <= i < |es| ==>
      (Entry(es[i].key, CompactValue(es[i].value)) in CompactEntries(es) <==> Truthy(CompactValue(es[i].value)))
    ensures forall i :: 0 <= i < |es| && Truthy(es[i].value) && !es[i].value.Node? && !es[i].value.List? ==>
      es[i] in CompactEntries(es)
    ensures forall e :: e in CompactEntries(es) ==> e.key in Keys(es)
  {
    var m := seq(|es|, i requires 0 <= i < |es| => Entry(es[i].key, CompactValue(es[i].value)));
    var r := CompactEntries(es);
    assert r == DropFalsy(m);
    forall i | 0 <= i < |es|
      ensures Entry(es[i].key, CompactValue(es[i].value)) in r <==> Truthy(CompactValue(es[i].value))
    {
      assert m[i] in m;
    }
    forall i | 0 <= i < |es| && Truthy(es[i].value) && !es[i].value.Node? && !es[i].value.List?
      ensures es[i] in r
    {
      assert m[i] == es[i];
      assert m[i] in m;
    }
    forall e | e in r ensures e.key in Keys(es) {
      var i :| 0 <= i < |m| && m[i] == e;
      assert Keys(es)[i] == e.key;
    }
  }

  // ---------------------------------------------------------------------------
  // Well-formedness.

  lemma {:induction false} DropFalsyUnique(es: seq<Entry>)
    requires UniqueKeys(es)
    ensures UniqueKeys(DropFalsy(es))
  {
    if es != [] {
      var init := es[..|es| - 1];
      DropFalsyUnique(init);
      var rest := DropFalsy(init);
      forall i | 0 <= i < |rest| ensures rest[i].key != es[|es| - 1].key {
        assert rest[i] in init;
      }
    }
  }

  /** Compacting keeps a well-formed tree well-formed. */
  lemma {:induction false} CompactWellFormed(es: seq<Entry>)
    requires EntriesWellFormed(es)
    ensures EntriesWellFormed(CompactEntries(es))
    decreases EntriesSize(es)
  {
    var m := seq(|es|, i requires 0 <= i < |es| => Entry(es[i].key, CompactValue(es[i].value)));
    forall i | 0 <= i < |es| ensures WellFormed(m[i].value) {
      CompactValueWellFormed(es[i].value);
    }
    assert Keys(m) == Keys(es);
    assert UniqueKeys(m) by {
      forall i, j | 0 <= i < j < |m| ensures m[i].key != m[j].key {
        assert Keys(m)[i] == Keys(es)[i] && Keys(m)[j] == Keys(es)[j];
      }
    }
    DropFalsyUnique(m);
    var r := CompactEntries(es);
    forall i | 0 <= i < |r| ensures WellFormed(r[i].value) {
      assert r[i] in m;
    }
  }

  lemma {:induction false} CompactValueWellFormed(v: Value)
    requires WellFormed(v)
    ensures WellFormed(CompactValue(v))
    decreases Size(v)
  {
    if v.List? {
      var c := CompactItems(v.items);
      forall j | 0 <= j < |c| ensures WellFormed(c[j]) {
        if v.items[j].Node? {
          CompactWellFormed(v.items[j].entries);
        }
      }
      var kept := DropNils(c);
      forall j | 0 <= j < |kept| ensures WellFormed(kept[j]) {
        assert kept[j] in c;
      }
    } else if v.Node? {
      CompactWellFormed(v.entries);
    }
  }

  // ---------------------------------------------------------------------------
  // The edge cases of `compact`.

  /** A hash whose only value is nil compacts to nil, and so does one whose
      only value is a hash that compacts away; `compact!` can therefore set
      the whole tree to nil. */
  lemma CompactToNil(k: string, j: string)
    ensures Compact([Entry(k, Nil)]) == Nil
    ensures Compact([Entry(k, Node([Entry(j, Bool(false))]))]) == Nil
  {
    assert CompactValue(Nil) == Nil;
    assert CompactEntries([Entry(k, Nil)]) == DropFalsy([Entry(k, Nil)]);
    assert [Entry(k, Nil)][..0] == [];
    assert CompactEntries([Entry(j, Bool(false))]) == DropFalsy([Entry(j, Bool(false))]);
    assert [Entry(j, Bool(false))][..0] == [];
    assert CompactValue(Node([Entry(j, Bool(false))])) == Nil;
  }

  /** A hash inside an array that compacts to nothing stays in the array as
      an empty hash. */
  lemma CompactArrayKeepsEmptiedHash(k: string)
    ensures CompactArray([Node([Entry(k, Nil)])]) == List([Node([])])
  {
    var m := [Entry(k, Nil)];
    assert CompactEntries(m) == DropFalsy(m);
    assert m[..0] == [];
    assert CompactItems([Node(m)]) == [Node([])];
    DropNilsNone([Node([])]);
  }

  /** An array whose elements are all nil goes. */
  lemma CompactArrayOfNils()
    ensures CompactArray([Nil, Nil]) == Nil
  {
    assert CompactItems([Nil, Nil]) == [Nil, Nil];
    DropNilsSnoc([], Nil);
    DropNilsSnoc([Nil], Nil);
    assert [] + [Nil] == [Nil] && [Nil] + [Nil] == [Nil, Nil];
  }
}
