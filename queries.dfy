/** The read-only queries of HashTree: `get`, `exists?`, `children` and
    `slash`, all built on the walks of the Traversal module. */
module Queries {
  import opened Values
  import opened Paths
  import opened Traversal

  /** The `:force` option of `get`: no cast, or the `Array` cast. */
  datatype Force = NoForce | ForceArray

  /** `cast(value, force)` for the nil and `Array` casts. */
  function Cast(v: Value, force: Force): Value {
    if force == ForceArray then List(AsList(v)) else v
  }

  /** The `Array` cast wraps a non-array once and leaves an array alone, so
      casting twice is casting once. */
  lemma CastArrayIdempotent(v: Value)
    ensures Cast(v, ForceArray).List?
    ensures Cast(Cast(v, ForceArray), ForceArray) == Cast(v, ForceArray)
    ensures v.List? ==> Cast(v, ForceArray) == v
  {
  }

  /** What `get` collects: the values of the scoped walk, each cast. */
  function Collect(root: seq<Entry>, path: string, force: Force): seq<Value> {
    var vs := Each(root, Some(path));
    seq(|vs|, i requires 0 <= i < |vs| => Cast(vs[i].value, force))
  }

  /** `get(path, :default => default, :force => force)`. */
  function Get(root: seq<Entry>, path: string, default: Value, force: Force): Value {
    if path == "" then Node(root)
    else
      var data := Collect(root, path, force);
      if |data| == 0 then default
      else if |data| == 1 then (if data[0] == Nil then default else data[0])
      else List(data)
  }

  /** `exists?` on the segments of a path: the first segment is a key of
      the hash and either it is the last one (whatever its value, nil
      included) or some hash among the elements of its value has the rest. */
  predicate ExistsIn(es: seq<Entry>, parts: seq<string>)
    decreases |parts|
  {
    && parts != []
    && exists i ::
         0 <= i < |es| && es[i].key == parts[0] &&
         (|parts| == 1 ||
          exists j :: 0 <= j < |AsList(es[i].value)| && AsList(es[i].value)[j].Node? &&
            ExistsIn(AsList(es[i].value)[j].entries, parts[1..]))
  }
  /** A path exists when its first segment leads to a hash in which the rest
      of the path exists. */
  lemma ExistsInBelow(es: seq<Entry>, parts: seq<string>, i: nat, j: nat)
    requires |parts| > 1 && i < |es| && es[i].key == parts[0]
    requires j < |AsList(es[i].value)| && AsList(es[i].value)[j].Node?
    requires ExistsIn(AsList(es[i].value)[j].entries, parts[1..])
    ensures ExistsIn(es, parts)
  {
  }

  /** A one-segment path exists where its segment is a key. */
  lemma ExistsInHere(es: seq<Entry>, parts: seq<string>, i: nat)
    requires |parts| == 1 && i < |es| && es[i].key == parts[0]
    ensures ExistsIn(es, parts)
  {
  }


  /** `exists?(path)`. The source re-splits the joined remaining segments at
      each level; `Paths.SplitJoin` shows that gives back the same segments. */
  predicate Exists(root: seq<Entry>, path: string) {
    ExistsIn(root, Split(path))
  }

  /** An empty path exists nowhere. */
  lemma ExistsEmptyPath(root: seq<Entry>)
    ensures !Exists(root, "")
  {
    assert Split("") == [] by { assert SplitRaw("") == [""]; assert TrimTrailing([""]) == TrimTrailing([]); }
  }

  /** `exists?` agrees with the reference definition: a path exists exactly
      when something is stored under its last segment. */
  lemma {:induction false} ExistsIffTerminals(es: seq<Entry>, parts: seq<string>)
    requires EntriesWellFormed(es) && parts != []
    ensures ExistsIn(es, parts) <==> Terminals(es, parts) != []
    decreases |parts|, 2, 0
  {
    var k := parts[0];
    HasKeyIndex(es, k);
    if HasKey(es, k) {
      var i :| 0 <= i < |es| && es[i].key == k;
      AtUnique(es, i);
      if |parts| > 1 {
        assert WellFormed(es[i].value);
        ItemsExistIffTerminals(AsList(es[i].value), parts[1..]);
        forall i' | 0 <= i' < |es| && es[i'].key == k ensures i' == i {}
      }
    } else if |parts| > 1 {
      assert TerminalsIn([Nil], parts[1..]) == [] + TerminalsIn([], parts[1..]);
    }
  }

  lemma {:induction false} ItemsExistIffTerminals(items: seq<Value>, parts: seq<string>)
    requires parts != [] && forall i :: 0 <= i < |items| ==> WellFormed(items[i])
    ensures (exists j :: 0 <= j < |items| && items[j].Node? && ExistsIn(items[j].entries, parts))
            <==> TerminalsIn(items, parts) != []
    decreases |parts| + 1, 1, |items|
  {
    if items != [] {
      if items[0].Node? {
        ExistsIffTerminals(items[0].entries, parts);
      }
      ItemsExistIffTerminals(items[1..], parts);
      assert forall j :: 1 <= j < |items| ==> items[j] == items[1..][j - 1];
    }
  }

  /** Whatever exists is found by `get`: the walk scoped to an existing
      path yields at least once. */
  lemma ExistsIsCollected(root: seq<Entry>, parts: seq<string>)
    requires ExistsIn(root, parts)
    ensures Each(root, Some(Join(parts))) != []
  {
    assert parts[..0] == [];
    var i :| 0 <= i < |root| && root[i].key == parts[0] &&
      (|parts| == 1 ||
       exists j :: 0 <= j < |AsList(root[i].value)| && AsList(root[i].value)[j].Node? &&
         ExistsIn(AsList(root[i].value)[j].entries, parts[1..]));
    EntriesCollected(root, root, parts, 0, i);
  }

  lemma {:induction false} EntriesCollected(owner: seq<Entry>, es: seq<Entry>, parts: seq<string>, d: nat, i: nat)
    requires d < |parts| && i < |es| && es[i].key == parts[d]
    requires d == |parts| - 1 ||
      exists j :: 0 <= j < |AsList(es[i].value)| && AsList(es[i].value)[j].Node? &&
        ExistsIn(AsList(es[i].value)[j].entries, parts[d + 1..])
    ensures EachEntries(owner, es, parts[..d], Some(Join(parts))) != []
    decreases |parts| - d, 1, |es|
  {
    if i == 0 {
      var kp := parts[..d] + [es[0].key];
      assert kp == parts[..d + 1];
      JoinPrefixInScope(parts, d + 1);
      if d + 1 < |parts| {
        var j :| 0 <= j < |AsList(es[0].value)| && AsList(es[0].value)[j].Node? &&
          ExistsIn(AsList(es[0].value)[j].entries, parts[d + 1..]);
        ItemsCollected(owner, es[0].key, AsList(es[0].value), parts, d + 1, j);
      } else {
        assert parts[..d + 1] == parts;
      }
    } else {
      assert es[1..][i - 1] == es[i];
      EntriesCollected(owner, es[1..], parts, d, i - 1);
    }
  }

  lemma {:induction false} ItemsCollected(owner: seq<Entry>, key: string, items: seq<Value>, parts: seq<string>, d: nat, j: nat)
    requires 0 < d < |parts|
    requires j < |items| && items[j].Node? && ExistsIn(items[j].entries, parts[d..])
    ensures EachItems(owner, key, items, parts[..d], Some(Join(parts))) != []
    decreases |parts| - d, 2, |items|
  {
    if j == 0 {
      var rest := parts[d..];
      assert rest[0] == parts[d] && rest[1..] == parts[d + 1..];
      var es := items[0].entries;
      var i :| 0 <= i < |es| && es[i].key == rest[0] &&
        (|rest| == 1 ||
         exists j :: 0 <= j < |AsList(es[i].value)| && AsList(es[i].value)[j].Node? &&
           ExistsIn(AsList(es[i].value)[j].entries, rest[1..]));
      EntriesCollected(es, es, parts, d, i);
    } else {
      assert items[1..][j - 1] == items[j];
      ItemsCollected(owner, key, items[1..], parts, d, j - 1);
    }
  }

  // ---------------------------------------------------------------------------
  // `get` reads the terminals of the path.

  /** The values of a sequence of visits, in walk order. */
  function VisitValues(vs: seq<Visit>): (r: seq<Value>)
    ensures |r| == |vs| && forall i :: 0 <= i < |vs| ==> r[i] == vs[i].value
  {
    seq(|vs|, i requires 0 <= i < |vs| => vs[i].value)
  }

  lemma VisitValuesAppend(a: seq<Visit>, b: seq<Visit>)
    ensures VisitValues(a + b) == VisitValues(a) + VisitValues(b)
  {
  }

  /** The path `all` is plain below the hash `es` met at depth `d`: the key
      `all[d]`, when present, holds only hashes (or a hash) unless it is the
      last segment, and the path is plain below each of them; no other key
      of `es` has a dotted key path that is a character prefix of the whole
      path. Scoped walks then find nothing but the terminals. */
  ghost predicate PlainPath(es: seq<Entry>, all: seq<string>, d: nat)
    requires d < |all|
    decreases |all| - d
  {
    forall i :: 0 <= i < |es| ==>
      if es[i].key == all[d] then
        d + 1 < |all| ==> forall x :: x in AsList(es[i].value) ==> x.Node? && PlainPath(x.entries, all, d + 1)
      else !InScope(Join(all[..d] + [es[i].key]), Some(Join(all)))
  }

  /** The terminals of a hash without the key of the next segment are none. */
  lemma TerminalsWithoutKey(es: seq<Entry>, parts: seq<string>)
    requires parts != [] && !HasKey(es, parts[0])
    ensures Terminals(es, parts) == []
  {
    if |parts| > 1 {
      assert TerminalsIn([Nil], parts[1..]) == [] + TerminalsIn([], parts[1..]);
    }
  }

  /** Dropping a first entry whose key is not the next segment keeps the
      terminals. */
  lemma TerminalsSkip(es: seq<Entry>, parts: seq<string>)
    requires es != [] && parts != [] && es[0].key != parts[0]
    ensures Terminals(es, parts) == Terminals(es[1..], parts)
  {
  }

  lemma {:induction false} EntriesReadTerminals(owner: seq<Entry>, es: seq<Entry>, all: seq<string>, d: nat)
    requires d < |all| && EntriesWellFormed(es) && PlainPath(es, all, d)
    ensures VisitValues(EachEntries(owner, es, all[..d], Some(Join(all)))) == Terminals(es, all[d..])
    decreases |all| - d, 1, |es|
  {
    var p := all[d..];
    assert p[0] == all[d];
    if es == [] {
      TerminalsWithoutKey(es, p);
    } else {
      assert forall i :: 0 <= i < |es[1..]| ==> es[1..][i] == es[i + 1];
      EntriesReadTerminals(owner, es[1..], all, d);
      if es[0].key != all[d] {
        TerminalsSkip(es, p);
        OtherKeyYieldsNothing(owner, es, all, d);
      } else {
        HasKeyIndex(es[1..], all[d]);
        TerminalsWithoutKey(es[1..], p);
        if d + 1 == |all| {
          LastSegmentYieldsValue(owner, es, all, d);
        } else {
          ItemsReadTerminals(owner, all[d], AsList(es[0].value), all, d + 1);
          InnerSegmentYieldsItems(owner, es, all, d);
        }
      }
    }
  }

  lemma OtherKeyYieldsNothing(owner: seq<Entry>, es: seq<Entry>, all: seq<string>, d: nat)
    requires d < |all| && es != [] && es[0].key != all[d] && PlainPath(es, all, d)
    ensures EachEntries(owner, es, all[..d], Some(Join(all))) == EachEntries(owner, es[1..], all[..d], Some(Join(all)))
  {
    assert EachEntries(owner, es, all[..d], Some(Join(all))) == [] + EachEntries(owner, es[1..], all[..d], Some(Join(all)));
  }

  lemma LastSegmentYieldsValue(owner: seq<Entry>, es: seq<Entry>, all: seq<string>, d: nat)
    requires d + 1 == |all| && es != [] && es[0].key == all[d]
    requires VisitValues(EachEntries(owner, es[1..], all[..d], Some(Join(all)))) == []
    ensures VisitValues(EachEntries(owner, es, all[..d], Some(Join(all)))) == Terminals(es, all[d..])
  {
    var k := all[d];
    assert all[..d] + [k] == all;
    JoinPrefixInScope(all, d + 1);
    assert all[..d + 1] == all && all[d..] == [k];
    assert EachEntries(owner, es, all[..d], Some(Join(all))) ==
      [Visit(owner, k, es[0].value, Join(all))] + EachEntries(owner, es[1..], all[..d], Some(Join(all)));
  }

  lemma InnerSegmentYieldsItems(owner: seq<Entry>, es: seq<Entry>, all: seq<string>, d: nat)
    requires d + 1 < |all| && es != [] && es[0].key == all[d]
    requires VisitValues(EachEntries(owner, es[1..], all[..d], Some(Join(all)))) == []
    requires VisitValues(EachItems(owner, all[d], AsList(es[0].value), all[..d + 1], Some(Join(all)))) ==
      TerminalsIn(AsList(es[0].value), all[d + 1..])
    ensures VisitValues(EachEntries(owner, es, all[..d], Some(Join(all)))) == Terminals(es, all[d..])
  {
    var k := all[d];
    var scope := Some(Join(all));
    assert all[..d] + [k] == all[..d + 1];
    JoinPrefixInScope(all, d + 1);
    assert all[d..][1..] == all[d + 1..];
    var inner := EachItems(owner, k, AsList(es[0].value), all[..d + 1], scope);
    var rest := EachEntries(owner, es[1..], all[..d], scope);
    assert EachEntries(owner, es, all[..d], scope) == inner + rest;
    VisitValuesAppend(inner, rest);
  }

  lemma {:induction false} ItemsReadTerminals(owner: seq<Entry>, key: string, items: seq<Value>, all: seq<string>, d: nat)
    requires 0 < d < |all|
    requires forall x :: x in items ==> x.Node? && PlainPath(x.entries, all, d)
    requires forall i :: 0 <= i < |items| ==> WellFormed(items[i])
    ensures VisitValues(EachItems(owner, key, items, all[..d], Some(Join(all)))) == TerminalsIn(items, all[d..])
    decreases |all| - d, 2, |items|
  {
    if items != [] {
      var scope := Some(Join(all));
      assert items[0] in items;
      EntriesReadTerminals(items[0].entries, items[0].entries, all, d);
      assert forall i :: 0 <= i < |items[1..]| ==> items[1..][i] == items[i + 1];
      ItemsReadTerminals(owner, key, items[1..], all, d);
      VisitValuesAppend(EachEntries(items[0].entries, items[0].entries, all[..d], scope),
                        EachItems(owner, key, items[1..], all[..d], scope));
    }
  }

  /** Along a plain path, what `get` collects is exactly the terminals of
      the path, in walk order. */
  lemma CollectIsTerminals(root: seq<Entry>, parts: seq<string>)
    requires parts != [] && EntriesWellFormed(root) && PlainPath(root, parts, 0)
    ensures Collect(root, Join(parts), NoForce) == Terminals(root, parts)
  {
    assert parts[..0] == [] && parts[0..] == parts;
    EntriesReadTerminals(root, root, parts, 0);
  }

  /** A path of segments is not the empty string. */
  lemma JoinNotEmpty(parts: seq<string>)
    requires parts != [] && Segments(parts)
    ensures Join(parts) != ""
  {
    if |parts| > 1 {
      assert Join(parts) == parts[0] + "." + Join(parts[1..]);
    }
  }

  /** `get` along a plain path answers from the terminals: the default when
      there are none or a single nil, the single terminal, or an array of
      them all. */
  lemma GetReadsTerminals(root: seq<Entry>, parts: seq<string>, default: Value)
    requires parts != [] && Segments(parts) && EntriesWellFormed(root) && PlainPath(root, parts, 0)
    ensures var t := Terminals(root, parts);
      Get(root, Join(parts), default, NoForce) ==
        if t == [] || t == [Nil] then default else if |t| == 1 then t[0] else List(t)
  {
    JoinNotEmpty(parts);
    CollectIsTerminals(root, parts);
  }

  /** `exists?` and `get` agree along a plain path: for a default that no
      terminal equals, `get` answers with something else exactly when the
      path exists (a single nil terminal aside, which `get` reports as
      missing). */
  lemma ExistsIffGetNotDefault(root: seq<Entry>, parts: seq<string>, default: Value)
    requires parts != [] && Segments(parts) && EntriesWellFormed(root) && PlainPath(root, parts, 0)
    requires !default.List? && default !in Terminals(root, parts) && Terminals(root, parts) != [Nil]
    ensures ExistsIn(root, parts) <==> Get(root, Join(parts), default, NoForce) != default
  {
    GetReadsTerminals(root, parts, default);
    ExistsIffTerminals(root, parts);
  }

  /** `slash` along a plain path that reaches exactly one hash (held
      directly, or as the only element of an array) re-roots the tree at
      that hash. */
  lemma SlashAtSingleHash(root: seq<Entry>, parts: seq<string>, h: seq<Entry>)
    requires parts != [] && Segments(parts) && EntriesWellFormed(root) && PlainPath(root, parts, 0)
    requires Terminals(root, parts) == [Node(h)] || Terminals(root, parts) == [List([Node(h)])]
    ensures Slash(root, Join(parts)) == h
  {
    SplitJoin(parts);
    ExistsIffTerminals(root, parts);
    GetReadsTerminals(root, parts, Str(""));
  }

  /** With the `Array` cast, `get` on an existing path always answers with
      an array, never with the default. */
  lemma GetExistingForced(root: seq<Entry>, parts: seq<string>, default: Value)
    requires Segments(parts) && ExistsIn(root, parts)
    ensures Get(root, Join(parts), default, ForceArray).List?
  {
    ExistsIsCollected(root, parts);
    if |parts| > 1 {
      assert Join(parts) == parts[0] + "." + Join(parts[1..]);
    }
  }

  /** A scalar met above the path is collected too: `get` reads it although
      `exists?` denies the path. */
  lemma GetReadsScalarAbovePath(k: string, s: Value, more: seq<string>)
    requires s != Nil && !s.Node? && !s.List? && more != []
    ensures Get([Entry(k, s)], Join([k] + more), Str(""), NoForce) == s
    ensures !ExistsIn([Entry(k, s)], [k] + more)
  {
    var parts := [k] + more;
    JoinPrefixInScope(parts, 1);
    assert parts[..1] == [k];
    assert Join(parts) != "" by { JoinAppend([k], more); }
    assert [k] + [k] != [];
    var root := [Entry(k, s)];
    assert [] + [k] == [k] && Join([k]) == k;
    assert AsList(s) == [s] && [s][1..] == [];
    assert EachEntries(root, root[1..], [], Some(Join(parts))) == [];
    assert EachItems(root, k, [s], [k], Some(Join(parts))) ==
      [Visit(root, k, s, k)] + EachItems(root, k, [], [k], Some(Join(parts)));
    assert Each(root, Some(Join(parts))) == [Visit(root, k, s, k)];
  }

  /** The key of a collection is the plural of its elements' key:
      `children` reads `hash[name][name.chop]`. Ruby raises when
      `hash[name]` is an array, an integer or true. */
  predicate ChildrenDefined(root: seq<Entry>, name: string) {
    var v := At(root, name);
    !Truthy(v) || v.Node? || v.Str?
  }

  /** `children(name)`: `[hash[name][name.chop]].flatten`, or nothing.
      On a string `[]` is the substring lookup of Ruby's `String#[]`. */
  function Children(root: seq<Entry>, name: string): (r: seq<Value>)
    requires ChildrenDefined(root, name)
    ensures forall x :: x in r ==> !x.List?
  {
    var v := At(root, name);
    if !Truthy(v) then []
    else
      var inner :=
        if v.Node? then At(v.entries, Chop(name))
        else if Contains(v.s, Chop(name)) then Str(Chop(name))
        else Nil;
      if Truthy(inner) then Flatten(inner) else []
  }

  /** A collection stored as an array comes back element by element, a
      single element as a one-element list, and a missing one as nothing. */
  lemma ChildrenOfCollection(root: seq<Entry>, name: string, items: seq<Value>)
    requires At(root, name).Node? && At(At(root, name).entries, Chop(name)) == List(items)
    requires forall i :: 0 <= i < |items| ==> !items[i].List?
    ensures Children(root, name) == items
  {
    FlattenItemsOfFlat(items);
  }

  lemma ChildrenOfSingle(root: seq<Entry>, name: string, child: Value)
    requires At(root, name).Node? && At(At(root, name).entries, Chop(name)) == child
    requires Truthy(child) && !child.List?
    ensures Children(root, name) == [child]
  {
  }

  lemma ChildrenMissing(root: seq<Entry>, name: string)
    requires !HasKey(root, name)
    ensures Children(root, name) == []
  {
  }

  /** `slash(path)`: the root of the tree re-rooted at `get(path)`. A
      one-element array holding a hash is unwrapped; the constructor turns
      anything but a hash into `{}`; a missing path keeps the whole root. */
  function Slash(root: seq<Entry>, path: string): seq<Entry> {
    if Exists(root, path) then
      var t := Get(root, path, Str(""), NoForce);
      var t' := if t.List? && |t.items| == 1 && t.items[0].Node? then t.items[0] else t;
      if t'.Node? then t'.entries else []
    else root
  }

  /** What `get` returns from a well-formed tree is well-formed. */
  lemma GetWellFormed(root: seq<Entry>, path: string)
    requires EntriesWellFormed(root)
    ensures WellFormed(Get(root, path, Str(""), NoForce))
  {
    if path != "" {
      EachYieldsWellFormed(root, Some(path));
      var vs := Each(root, Some(path));
      var data := Collect(root, path, NoForce);
      forall i | 0 <= i < |data| ensures WellFormed(data[i]) {
        assert vs[i] in vs;
      }
    }
  }

  /** Slashing keeps a well-formed tree well-formed, and a missing path
      changes nothing. */
  lemma SlashWellFormed(root: seq<Entry>, path: string)
    requires EntriesWellFormed(root)
    ensures EntriesWellFormed(Slash(root, path))
    ensures !Exists(root, path) ==> Slash(root, path) == root
  {
    if Exists(root, path) && path != "" {
      EachYieldsWellFormed(root, Some(path));
      var vs := Each(root, Some(path));
      var data := Collect(root, path, NoForce);
      if |data| == 1 {
        assert vs[0] in vs;
        assert WellFormed(data[0]);
      }
    }
  }

  /** Slashing at the only key of the root, when it holds a hash, makes that
      hash the new root. */
  lemma SlashAtOnlyKey(k: string, es: seq<Entry>)
    requires k != "" && '.' !in k
    ensures Slash([Entry(k, Node(es))], k) == es
  {
    var root := [Entry(k, Node(es))];
    SplitRawWord(k);
    assert Split(k) == [k];
    assert ExistsIn(root, [k]) by { assert root[0].key == k; }
    assert Join([k]) == k;
    JoinPrefixInScope([k], 1);
    assert [k][..1] == [k];
    assert EachEntries(root, root[1..], [], Some(k)) == [];
    assert Each(root, Some(k)) == [Visit(root, k, Node(es), k)];
  }
}
