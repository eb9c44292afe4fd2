/** What `rename_key!` does to a tree. The imperative version in the
    HashTrees module is proved to compute exactly this. */
module Renaming {
  import opened Values
  import opened Paths
  import opened Queries

  /** `rename_key!(path, new_name, hash)` on the segments of the path. At
      the last segment the key is deleted and its value added back under
      `newName` with `merge!`, which overwrites an existing `newName` in its
      place or appends it; before the last segment every hash reached through
      the first segment, directly or as an array element, is renamed in. */
  function RenameKey(es: seq<Entry>, parts: seq<string>, newName: string): (r: seq<Entry>)
    decreases |parts|, 0
  {
    if parts == [] then es
    else if |parts| == 1 then
      if HasKey(es, parts[0]) then Put(Delete(es, parts[0]), newName, At(es, parts[0])) else es
    else
      seq(|es|, i requires 0 <= i < |es| =>
        if es[i].key == parts[0] then Entry(es[i].key, RenameValue(es[i].value, parts[1..], newName)) else es[i])
  }

  /** The renaming applied to every hash of `convert_to_array(value)`. */
  function RenameValue(v: Value, parts: seq<string>, newName: string): Value
    requires parts != []
    decreases |parts|, 2
  {
    if v.Node? then Node(RenameKey(v.entries, parts, newName))
    else if v.List? then List(RenameItems(v.items, parts, newName))
    else v
  }

  function RenameItems(items: seq<Value>, parts: seq<string>, newName: string): (r: seq<Value>)
    requires parts != []
    ensures |r| == |items|
    ensures forall j :: 0 <= j < |items| ==>
      r[j] == if items[j].Node? then Node(RenameKey(items[j].entries, parts, newName)) else items[j]
    decreases |parts|, 1
  {
    seq(|items|, j requires 0 <= j < |items| =>
      if items[j].Node? then Node(RenameKey(items[j].entries, parts, newName)) else items[j])
  }

  /** Renaming below a value keeps its elements in place: each hash element
      is renamed in, the others are untouched. */
  lemma RenameValueShape(v: Value, parts: seq<string>, newName: string)
    requires parts != []
    ensures |AsList(RenameValue(v, parts, newName))| == |AsList(v)|
    ensures forall j :: 0 <= j < |AsList(v)| ==>
      AsList(RenameValue(v, parts, newName))[j] ==
        if AsList(v)[j].Node? then Node(RenameKey(AsList(v)[j].entries, parts, newName)) else AsList(v)[j]
  {
  }

  /** Renaming one key of a hash: the value moves to `newName`, the old key
      is gone, every other key keeps its value, and when `newName` was not a
      key the renamed pair comes last. A missing key renames nothing. */
  lemma RenameOneKey(es: seq<Entry>, k: string, newName: string)
    ensures var r := RenameKey(es, [k], newName);
      && (!HasKey(es, k) ==> r == es)
      && (HasKey(es, k) ==> HasKey(r, newName) && At(r, newName) == At(es, k))
      && (HasKey(es, k) && k != newName ==> !HasKey(r, k))
      && (forall j :: j != k && j != newName ==> At(r, j) == At(es, j) && (HasKey(r, j) <==> HasKey(es, j)))
      && (HasKey(es, k) && (!HasKey(es, newName) || newName == k) ==>
            r == Delete(es, k) + [Entry(newName, At(es, k))])
  {
  }

  /** Renaming onto a key the hash already has: `merge!` overwrites that key
      where it stands, so the renamed value takes the place of `newName`
      among the remaining pairs instead of coming last. */
  lemma RenameOntoExistingKey(es: seq<Entry>, k: string, newName: string)
    requires UniqueKeys(es) && HasKey(es, k) && HasKey(es, newName) && k != newName
    ensures var d := Delete(es, k);
      var r := RenameKey(es, [k], newName);
      && |r| == |d|
      && forall i :: 0 <= i < |d| ==> r[i] == (if d[i].key == newName then Entry(newName, At(es, k)) else d[i])
  {
    DeleteUnique(es, k);
    PutInPlace(Delete(es, k), newName, At(es, k));
  }

  /** Renaming a key and renaming it back gives every key its old value;
      only the position of the key changes, to the end. */
  lemma RenameRoundTrip(es: seq<Entry>, k: string, newName: string)
    requires HasKey(es, k) && !HasKey(es, newName)
    ensures var back := RenameKey(RenameKey(es, [k], newName), [newName], k);
      && back == Delete(es, k) + [Entry(k, At(es, k))]
      && forall j :: At(back, j) == At(es, j) && (HasKey(back, j) <==> HasKey(es, j))
  {
    var once := RenameKey(es, [k], newName);
    RenameOneKey(es, k, newName);
    RenameOneKey(once, newName, k);
    assert Delete(once, newName) == Delete(es, k) by {
      DeleteSnocAbsent(Delete(es, k), Entry(newName, At(es, k)));
    }
    LookupSnoc(Delete(es, k), Entry(k, At(es, k)), k);
    forall j ensures At(Delete(es, k) + [Entry(k, At(es, k))], j) == At(es, j) {
      LookupSnoc(Delete(es, k), Entry(k, At(es, k)), j);
    }
    forall j ensures HasKey(Delete(es, k) + [Entry(k, At(es, k))], j) == HasKey(es, j) {
      LookupSnoc(Delete(es, k), Entry(k, At(es, k)), j);
    }
  }

  /** The new name is free at the last segment of a path: no hash the path
      reaches at its last segment (through arrays too) has a key `newName`. */
  ghost predicate NameFree(es: seq<Entry>, parts: seq<string>, newName: string)
    requires parts != []
    decreases |parts|, 0
  {
    if |parts| == 1 then !HasKey(es, newName)
    else forall i :: 0 <= i < |es| && es[i].key == parts[0] ==> ValueNameFree(es[i].value, parts[1..], newName)
  }

  ghost predicate ValueNameFree(v: Value, parts: seq<string>, newName: string)
    requires parts != []
    decreases |parts|, 1
  {
    forall x :: x in AsList(v) && x.Node? ==> NameFree(x.entries, parts, newName)
  }

  /** Renaming along a dotted path and back is Ruby-equal to the tree it
      started from, at every depth and through every array on the way: only
      the renamed keys move, each to the end of its hash. */
  lemma {:induction false} RenamePathRoundTrip(es: seq<Entry>, parts: seq<string>, newName: string)
    requires parts != [] && EntriesWellFormed(es) && NameFree(es, parts, newName)
    ensures Equal(Node(es), Node(RenameKey(RenameKey(es, parts, newName),
                                           parts[..|parts| - 1] + [newName], parts[|parts| - 1])))
    decreases |parts|, 0
  {
    var k := parts[|parts| - 1];
    var back' := parts[..|parts| - 1] + [newName];
    var once := RenameKey(es, parts, newName);
    var back := RenameKey(once, back', k);
    if |parts| == 1 {
      assert back' == [newName] && k == parts[0];
      if HasKey(es, k) {
        RenameRoundTrip(es, k, newName);
        DeleteLength(es, k);
        EqualUpToKeyOrder(es, back);
      } else {
        EqualReflexive(Node(es));
      }
    } else {
      RenameWellFormed(es, parts, newName);
      RenameWellFormed(once, back', k);
      LastReplacedTail(parts, newName);
      assert back'[0] == parts[0] && parts[1..][|parts[1..]| - 1] == k;
      forall i | 0 <= i < |es|
        ensures HasKey(back, es[i].key) && Equal(es[i].value, At(back, es[i].key))
      {
        assert back[i].key == es[i].key;
        HasKeyIndex(back, es[i].key);
        AtUnique(back, i);
        if es[i].key == parts[0] {
          RenameValuePathRoundTrip(es[i].value, parts[1..], newName);
        } else {
          EqualReflexive(es[i].value);
        }
      }
    }
  }

  lemma {:induction false} RenameValuePathRoundTrip(v: Value, parts: seq<string>, newName: string)
    requires parts != [] && WellFormed(v) && ValueNameFree(v, parts, newName)
    ensures Equal(v, RenameValue(RenameValue(v, parts, newName),
                                 parts[..|parts| - 1] + [newName], parts[|parts| - 1]))
    decreases |parts|, 1
  {
    var back' := parts[..|parts| - 1] + [newName];
    var k := parts[|parts| - 1];
    if v.Node? {
      assert v in AsList(v);
      RenamePathRoundTrip(v.entries, parts, newName);
    } else if v.List? {
      var r := RenameItems(RenameItems(v.items, parts, newName), back', k);
      forall j | 0 <= j < |v.items| ensures Equal(v.items[j], r[j]) {
        if v.items[j].Node? {
          assert v.items[j] in AsList(v);
          RenamePathRoundTrip(v.items[j].entries, parts, newName);
        } else {
          EqualReflexive(v.items[j]);
        }
      }
    } else {
      EqualReflexive(v);
    }
  }

  /** Deleting a key present once takes exactly one pair off. */
  lemma {:induction false} DeleteLength(es: seq<Entry>, k: string)
    requires UniqueKeys(es) && HasKey(es, k)
    ensures |Delete(es, k)| == |es| - 1
  {
    assert UniqueKeys(es[1..]) by {
      forall i, j | 0 <= i < j < |es[1..]| ensures es[1..][i].key != es[1..][j].key {
        assert es[1..][i] == es[i + 1] && es[1..][j] == es[j + 1];
      }
    }
    if es[0].key == k {
      HasKeyIndex(es[1..], k);
      forall i | 0 <= i < |es[1..]| ensures es[1..][i].key != k {
        assert es[1..][i] == es[i + 1];
      }
      DeleteAbsent(es[1..], k);
    } else {
      DeleteLength(es[1..], k);
    }
  }

  /** Deleting the key of an appended entry, absent before, takes it back off. */
  lemma DeleteSnocAbsent(es: seq<Entry>, e: Entry)
    requires !HasKey(es, e.key)
    ensures Delete(es + [e], e.key) == es
  {
    LookupSnoc(es, e, e.key);
    DeleteAbsent(es, e.key);
  }

  lemma {:induction false} DeleteAbsent(es: seq<Entry>, k: string)
    requires !HasKey(es, k)
    ensures Delete(es, k) == es
  {
    if es != [] {
      DeleteAbsent(es[1..], k);
    }
  }

  /** After renaming, the old path no longer exists (unless renamed to
      itself). */
  lemma {:induction false} RenamedPathGone(es: seq<Entry>, parts: seq<string>, newName: string)
    requires parts != [] && newName != parts[|parts| - 1]
    ensures !ExistsIn(RenameKey(es, parts, newName), parts)
    decreases |parts|
  {
    var r := RenameKey(es, parts, newName);
    if |parts| == 1 {
      HasKeyIndex(r, parts[0]);
    } else {
      forall i, j | 0 <= i < |r| && r[i].key == parts[0] &&
        0 <= j < |AsList(r[i].value)| && AsList(r[i].value)[j].Node?
        ensures !ExistsIn(AsList(r[i].value)[j].entries, parts[1..])
      {
        RenameValueShape(es[i].value, parts[1..], newName);
        RenamedPathGone(AsList(es[i].value)[j].entries, parts[1..], newName);
      }
    }
  }

  /** After renaming, what existed under the old path exists under the new
      last segment. */
  lemma {:induction false} RenamedPathPresent(es: seq<Entry>, parts: seq<string>, newName: string)
    requires ExistsIn(es, parts)
    ensures ExistsIn(RenameKey(es, parts, newName), parts[..|parts| - 1] + [newName])
    decreases |parts|, 1
  {
    if |parts| == 1 {
      var r := RenameKey(es, parts, newName);
      HasKeyIndex(es, parts[0]);
      HasKeyIndex(r, newName);
      assert parts[..0] + [newName] == [newName];
    } else {
      var i, j :| 0 <= i < |es| && es[i].key == parts[0] &&
        0 <= j < |AsList(es[i].value)| && AsList(es[i].value)[j].Node? &&
        ExistsIn(AsList(es[i].value)[j].entries, parts[1..]);
      RenamedPathPresentBelow(es, parts, newName, i, j);
    }
  }

  lemma {:induction false} RenamedPathPresentBelow(es: seq<Entry>, parts: seq<string>, newName: string, i: nat, j: nat)
    requires |parts| > 1 && i < |es| && es[i].key == parts[0]
    requires j < |AsList(es[i].value)| && AsList(es[i].value)[j].Node?
    requires ExistsIn(AsList(es[i].value)[j].entries, parts[1..])
    ensures ExistsIn(RenameKey(es, parts, newName), parts[..|parts| - 1] + [newName])
    decreases |parts|, 0
  {
    var r := RenameKey(es, parts, newName);
    var target := parts[..|parts| - 1] + [newName];
    var item := AsList(es[i].value)[j];
    RenameValueShape(es[i].value, parts[1..], newName);
    RenamedPathPresent(item.entries, parts[1..], newName);
    LastReplacedTail(parts, newName);
    assert r[i] == Entry(parts[0], RenameValue(es[i].value, parts[1..], newName));
    assert AsList(r[i].value)[j] == Node(RenameKey(item.entries, parts[1..], newName));
    ExistsInBelow(r, target, i, j);
  }

  /** Replacing the last segment commutes with dropping the first one. */
  lemma LastReplacedTail(parts: seq<string>, x: string)
    requires |parts| > 1
    ensures (parts[..|parts| - 1] + [x])[1..] == parts[1..][..|parts[1..]| - 1] + [x]
  {
    var a, b := (parts[..|parts| - 1] + [x])[1..], parts[1..][..|parts[1..]| - 1] + [x];
    assert |a| == |b|;
    forall k | 0 <= k < |a| ensures a[k] == b[k] {
    }
  }

  /** Renaming keeps a well-formed tree well-formed. */
  lemma {:induction false} RenameWellFormed(es: seq<Entry>, parts: seq<string>, newName: string)
    requires EntriesWellFormed(es)
    ensures EntriesWellFormed(RenameKey(es, parts, newName))
    decreases |parts|, 0
  {
    if |parts| == 1 {
      if HasKey(es, parts[0]) {
        DeleteWellFormed(es, parts[0]);
        HasKeyIndex(es, parts[0]);
        var i :| 0 <= i < |es| && es[i].key == parts[0];
        AtUnique(es, i);
        PutWellFormed(Delete(es, parts[0]), newName, At(es, parts[0]));
      }
    } else if |parts| > 1 {
      var r := RenameKey(es, parts, newName);
      assert Keys(r) == Keys(es);
      forall i | 0 <= i < |es| ensures WellFormed(r[i].value) {
        if es[i].key == parts[0] {
          RenameValueWellFormed(es[i].value, parts[1..], newName);
        }
      }
      forall i, j | 0 <= i < j < |r| ensures r[i].key != r[j].key {
        assert Keys(r)[i] == Keys(es)[i] && Keys(r)[j] == Keys(es)[j];
      }
    }
  }

  lemma {:induction false} RenameValueWellFormed(v: Value, parts: seq<string>, newName: string)
    requires parts != [] && WellFormed(v)
    ensures WellFormed(RenameValue(v, parts, newName))
    decreases |parts|, 2
  {
    if v.Node? {
      RenameWellFormed(v.entries, parts, newName);
    } else if v.List? {
      var r := RenameItems(v.items, parts, newName);
      forall j | 0 <= j < |r| ensures WellFormed(r[j]) {
        if v.items[j].Node? {
          RenameWellFormed(v.items[j].entries, parts, newName);
        }
      }
    }
  }
}
