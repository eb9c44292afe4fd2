/** The two walks of HashTree: `each`, a depth-first walk that yields every
    leaf with its owning hash and dotted key path, and `each_node`, a walk
    anchored on one path that yields every occurrence of its end together
    with the hashes met on the way. Both only read the tree, so both are
    functions returning the sequence of what the Ruby block receives. */
module Traversal {
  import opened Values
  import opened Paths

  /** One yield of `each`: the hash owning `key`, the key, the leaf value and
      the dotted key path (list indices never appear in it). */
  datatype Visit = Visit(owner: seq<Entry>, key: string, value: Value, path: string)

  /** `each(:scope => scope)` started at the root hash. */
  function Each(root: seq<Entry>, scope: Option<string>): seq<Visit> {
    EachEntries(root, root, [], scope)
  }

  /** The yields for the entries `es` (a suffix of the hash `owner`), whose
      keys extend the key path `keyPath`. */
  function EachEntries(owner: seq<Entry>, es: seq<Entry>, keyPath: seq<string>, scope: Option<string>): seq<Visit>
    decreases EntriesSize(es), 1
  {
    if es == [] then []
    else
      var key := es[0].key;
      var kp := keyPath + [key];
      var kps := Join(kp);
      var here :=
        if !InScope(kps, scope) then []
        else if scope == Some(kps) then [Visit(owner, key, es[0].value, kps)]
        else EachItems(owner, key, AsList(es[0].value), kp, scope);
      here + EachEntries(owner, es[1..], keyPath, scope)
  }

  /** The yields for the elements of `cast(value, Array)`: a hash is walked
      with the same key path, anything else is yielded. */
  function EachItems(owner: seq<Entry>, key: string, items: seq<Value>, kp: seq<string>, scope: Option<string>): seq<Visit>
    decreases ItemsSize(items), 0
  {
    if items == [] then []
    else
      (if items[0].Node? then EachEntries(items[0].entries, items[0].entries, kp, scope)
       else [Visit(owner, key, items[0], Join(kp))])
      + EachItems(owner, key, items[1..], kp, scope)
  }

  /** The value of a yield is held by its owner under its key: it is that
      value, or one element of it when it is an array. */
  ghost predicate Owned(v: Visit) {
    exists e :: e in v.owner && e.key == v.key && (v.value == e.value || v.value in AsList(e.value))
  }

  /** Every yield of `each` is owned, and its key path is in scope. */
  lemma EachIsOwnedAndInScope(root: seq<Entry>, scope: Option<string>)
    ensures forall v :: v in Each(root, scope) ==> Owned(v) && InScope(v.path, scope)
  {
    EntriesOwned(root, root, [], scope);
  }

  lemma {:induction false} EntriesOwned(owner: seq<Entry>, es: seq<Entry>, keyPath: seq<string>, scope: Option<string>)
    requires forall e :: e in es ==> e in owner
    ensures forall v :: v in EachEntries(owner, es, keyPath, scope) ==> Owned(v) && InScope(v.path, scope)
    decreases EntriesSize(es), 1
  {
    if es != [] {
      var key := es[0].key;
      var kp := keyPath + [key];
      if InScope(Join(kp), scope) && scope != Some(Join(kp)) {
        ItemsOwned(owner, key, AsList(es[0].value), kp, scope, es[0]);
      }
      EntriesOwned(owner, es[1..], keyPath, scope);
    }
  }

  lemma {:induction false} ItemsOwned(owner: seq<Entry>, key: string, items: seq<Value>, kp: seq<string>, scope: Option<string>, e: Entry)
    requires e in owner && e.key == key && InScope(Join(kp), scope)
    requires forall x :: x in items ==> x in AsList(e.value)
    ensures forall v :: v in EachItems(owner, key, items, kp, scope) ==> Owned(v) && InScope(v.path, scope)
    decreases ItemsSize(items), 0
  {
    if items != [] {
      if items[0].Node? {
        EntriesOwned(items[0].entries, items[0].entries, kp, scope);
      }
      ItemsOwned(owner, key, items[1..], kp, scope, e);
    }
  }

  /** `owner` is a hash reached from the hash `h` by the keys `kp`: each key
      holds a value one of whose hash elements (the value itself, when it is a
      hash) is where the next key is looked up. */
  ghost predicate Reaches(h: seq<Entry>, kp: seq<string>, owner: seq<Entry>)
    decreases |kp|
  {
    if kp == [] then owner == h
    else exists i, j ::
      && 0 <= i < |h| && h[i].key == kp[0] && 0 <= j < |AsList(h[i].value)|
      && AsList(h[i].value)[j].Node? && Reaches(AsList(h[i].value)[j].entries, kp[1..], owner)
  }

  lemma ReachesStep(h: seq<Entry>, i: nat, j: nat, kp: seq<string>, owner: seq<Entry>)
    requires i < |h| && j < |AsList(h[i].value)| && AsList(h[i].value)[j].Node?
    requires Reaches(AsList(h[i].value)[j].entries, kp, owner)
    ensures Reaches(h, [h[i].key] + kp, owner)
  {
    assert ([h[i].key] + kp)[1..] == kp;
  }

  /** A leaf below the hash `h`, whose own key path is `keyPath`, as `each`
      reports it: the owner is a hash reached from `h`, the key is one of its
      keys, the value is a non-hash element of what that key holds, and the
      path is the dotted key path down to the key. */
  ghost predicate LeafAt(h: seq<Entry>, keyPath: seq<string>, v: Visit) {
    && !v.value.Node?
    && (exists i :: 0 <= i < |v.owner| && v.owner[i].key == v.key && v.value in AsList(v.owner[i].value))
    && (exists kp :: Reaches(h, kp, v.owner) && v.path == Join(keyPath + kp + [v.key]))
  }

  /** Without a scope `each` yields exactly the leaves of the tree: every
      yield is a leaf reached from the root with its dotted key path, and
      every such leaf is yielded. */
  lemma EachYieldsExactlyTheLeaves(root: seq<Entry>)
    ensures forall v :: v in Each(root, None) <==> LeafAt(root, [], v)
  {
    EntriesLeaves(root, root, []);
    forall v | LeafAt(root, [], v) ensures v in Each(root, None) {
      var i :| 0 <= i < |v.owner| && v.owner[i].key == v.key && v.value in AsList(v.owner[i].value);
      var kp :| Reaches(root, kp, v.owner) && v.path == Join([] + kp + [v.key]);
      LeafIsYielded(root, [], kp, v.owner, i, v.value);
    }
  }

  lemma {:induction false} EntriesLeaves(h: seq<Entry>, es: seq<Entry>, keyPath: seq<string>)
    requires forall e :: e in es ==> e in h
    ensures forall v :: v in EachEntries(h, es, keyPath, None) ==> LeafAt(h, keyPath, v)
    decreases EntriesSize(es), 1
  {
    if es != [] {
      assert es[0] in h;
      var i :| 0 <= i < |h| && h[i] == es[0];
      ItemsLeaves(h, es[0].key, AsList(es[0].value), keyPath, i);
      EntriesLeaves(h, es[1..], keyPath);
    }
  }

  lemma {:induction false} ItemsLeaves(h: seq<Entry>, key: string, items: seq<Value>, keyPath: seq<string>, i: nat)
    requires i < |h| && h[i].key == key
    requires forall x :: x in items ==> x in AsList(h[i].value)
    ensures forall v :: v in EachItems(h, key, items, keyPath + [key], None) ==> LeafAt(h, keyPath, v)
    decreases ItemsSize(items), 0
  {
    if items != [] {
      var y := items[0];
      assert y in AsList(h[i].value);
      var j :| 0 <= j < |AsList(h[i].value)| && AsList(h[i].value)[j] == y;
      if y.Node? {
        EntriesLeaves(y.entries, y.entries, keyPath + [key]);
        LiftLeaves(h, i, j, keyPath, EachEntries(y.entries, y.entries, keyPath + [key], None));
      } else {
        ScalarLeaf(h, i, j, keyPath);
      }
      ItemsLeaves(h, key, items[1..], keyPath, i);
    }
  }

  lemma ScalarLeaf(h: seq<Entry>, i: nat, j: nat, keyPath: seq<string>)
    requires i < |h| && j < |AsList(h[i].value)| && !AsList(h[i].value)[j].Node?
    ensures LeafAt(h, keyPath, Visit(h, h[i].key, AsList(h[i].value)[j], Join(keyPath + [h[i].key])))
  {
    assert Reaches(h, [], h);
    assert keyPath + [] + [h[i].key] == keyPath + [h[i].key];
  }

  /** Leaves below a hash element of `h[i]` are leaves below `h`. */
  lemma LiftLeaves(h: seq<Entry>, i: nat, j: nat, keyPath: seq<string>, vs: seq<Visit>)
    requires i < |h| && j < |AsList(h[i].value)| && AsList(h[i].value)[j].Node?
    requires forall v :: v in vs ==> LeafAt(AsList(h[i].value)[j].entries, keyPath + [h[i].key], v)
    ensures forall v :: v in vs ==> LeafAt(h, keyPath, v)
  {
    forall v | v in vs ensures LeafAt(h, keyPath, v) {
      LiftLeaf(h, i, j, keyPath, v);
    }
  }

  lemma LiftLeaf(h: seq<Entry>, i: nat, j: nat, keyPath: seq<string>, v: Visit)
    requires i < |h| && j < |AsList(h[i].value)| && AsList(h[i].value)[j].Node?
    requires LeafAt(AsList(h[i].value)[j].entries, keyPath + [h[i].key], v)
    ensures LeafAt(h, keyPath, v)
  {
    var kp2 :| Reaches(AsList(h[i].value)[j].entries, kp2, v.owner) && v.path == Join(keyPath + [h[i].key] + kp2 + [v.key]);
    ReachesStep(h, i, j, kp2, v.owner);
    ConcatRegroup(keyPath, h[i].key, kp2, v.key);
  }

  lemma ConcatRegroup(a: seq<string>, b: string, c: seq<string>, d: string)
    ensures a + ([b] + c) + [d] == a + [b] + c + [d]
  {
  }

  /** The converse: a leaf reached by `kp` is yielded with its key path. */
  lemma {:induction false} LeafIsYielded(h: seq<Entry>, keyPath: seq<string>, kp: seq<string>, owner: seq<Entry>, i: nat, x: Value)
    requires Reaches(h, kp, owner) && i < |owner| && x in AsList(owner[i].value) && !x.Node?
    ensures Visit(owner, owner[i].key, x, Join(keyPath + kp + [owner[i].key])) in EachEntries(h, h, keyPath, None)
    decreases |kp|
  {
    var key := owner[i].key;
    if kp == [] {
      assert keyPath + kp + [key] == keyPath + [key];
      TopLeafIsYielded(h, keyPath, i, x);
    } else {
      var i0, j0 := ReachesFirst(h, kp, owner);
      var y := AsList(h[i0].value)[j0];
      LeafIsYielded(y.entries, keyPath + [kp[0]], kp[1..], owner, i, x);
      DeepLeafIsYielded(h, i0, j0, keyPath, kp, Visit(owner, key, x, Join(keyPath + kp + [key])));
    }
  }

  /** The first step of a non-empty key path. */
  lemma ReachesFirst(h: seq<Entry>, kp: seq<string>, owner: seq<Entry>) returns (i: nat, j: nat)
    requires kp != [] && Reaches(h, kp, owner)
    ensures i < |h| && h[i].key == kp[0] && j < |AsList(h[i].value)| && AsList(h[i].value)[j].Node?
    ensures Reaches(AsList(h[i].value)[j].entries, kp[1..], owner)
  {
    i, j :|
      && 0 <= i < |h| && h[i].key == kp[0] && 0 <= j < |AsList(h[i].value)|
      && AsList(h[i].value)[j].Node? && Reaches(AsList(h[i].value)[j].entries, kp[1..], owner);
  }

  lemma TopLeafIsYielded(h: seq<Entry>, keyPath: seq<string>, i: nat, x: Value)
    requires i < |h| && x in AsList(h[i].value) && !x.Node?
    ensures Visit(h, h[i].key, x, Join(keyPath + [h[i].key])) in EachEntries(h, h, keyPath, None)
  {
    var j :| 0 <= j < |AsList(h[i].value)| && AsList(h[i].value)[j] == x;
    ItemsIncludeScalar(h, h[i].key, AsList(h[i].value), keyPath + [h[i].key], j);
    EntriesInclude(h, h, keyPath, i);
  }

  lemma DeepLeafIsYielded(h: seq<Entry>, i: nat, j: nat, keyPath: seq<string>, kp: seq<string>, v: Visit)
    requires kp != [] && i < |h| && h[i].key == kp[0] && j < |AsList(h[i].value)| && AsList(h[i].value)[j].Node?
    requires v.path == Join(keyPath + kp + [v.key])
    requires Visit(v.owner, v.key, v.value, Join(keyPath + [kp[0]] + kp[1..] + [v.key])) in
      EachEntries(AsList(h[i].value)[j].entries, AsList(h[i].value)[j].entries, keyPath + [kp[0]], None)
    ensures v in EachEntries(h, h, keyPath, None)
  {
    assert [kp[0]] + kp[1..] == kp;
    ConcatRegroup(keyPath, kp[0], kp[1..], v.key);
    ItemsIncludeHash(h, h[i].key, AsList(h[i].value), keyPath + [h[i].key], j);
    EntriesInclude(h, h, keyPath, i);
  }

  lemma {:induction false} EntriesInclude(owner: seq<Entry>, es: seq<Entry>, keyPath: seq<string>, i: nat)
    requires i < |es|
    ensures forall v :: v in EachItems(owner, es[i].key, AsList(es[i].value), keyPath + [es[i].key], None) ==>
      v in EachEntries(owner, es, keyPath, None)
    decreases i
  {
    if i > 0 {
      assert es[1..][i - 1] == es[i];
      EntriesInclude(owner, es[1..], keyPath, i - 1);
    }
  }

  lemma {:induction false} ItemsIncludeScalar(owner: seq<Entry>, key: string, items: seq<Value>, kp: seq<string>, j: nat)
    requires j < |items| && !items[j].Node?
    ensures Visit(owner, key, items[j], Join(kp)) in EachItems(owner, key, items, kp, None)
    decreases j
  {
    if j > 0 {
      assert items[1..][j - 1] == items[j];
      ItemsIncludeScalar(owner, key, items[1..], kp, j - 1);
    }
  }

  lemma {:induction false} ItemsIncludeHash(owner: seq<Entry>, key: string, items: seq<Value>, kp: seq<string>, j: nat)
    requires j < |items| && items[j].Node?
    ensures forall v :: v in EachEntries(items[j].entries, items[j].entries, kp, None) ==>
      v in EachItems(owner, key, items, kp, None)
    decreases j
  {
    if j > 0 {
      assert items[1..][j - 1] == items[j];
      ItemsIncludeHash(owner, key, items[1..], kp, j - 1);
    }
  }

  /** Without a scope `each` yields only leaves: a hash is always walked into,
      never yielded. */
  lemma EachUnscopedYieldsNoHash(root: seq<Entry>)
    ensures forall v :: v in Each(root, None) ==> !v.value.Node?
  {
    EntriesUnscoped(root, root, []);
  }

  lemma {:induction false} EntriesUnscoped(owner: seq<Entry>, es: seq<Entry>, keyPath: seq<string>)
    ensures forall v :: v in EachEntries(owner, es, keyPath, None) ==> !v.value.Node?
    decreases EntriesSize(es), 1
  {
    if es != [] {
      ItemsUnscoped(owner, es[0].key, AsList(es[0].value), keyPath + [es[0].key]);
      EntriesUnscoped(owner, es[1..], keyPath);
    }
  }

  lemma {:induction false} ItemsUnscoped(owner: seq<Entry>, key: string, items: seq<Value>, kp: seq<string>)
    ensures forall v :: v in EachItems(owner, key, items, kp, None) ==> !v.value.Node?
    decreases ItemsSize(items), 0
  {
    if items != [] {
      if items[0].Node? {
        EntriesUnscoped(items[0].entries, items[0].entries, kp);
      }
      ItemsUnscoped(owner, key, items[1..], kp);
    }
  }

  /** On a well-formed tree every yield of `each` carries a well-formed
      owner and a well-formed value. */
  lemma EachYieldsWellFormed(root: seq<Entry>, scope: Option<string>)
    requires EntriesWellFormed(root)
    ensures forall v :: v in Each(root, scope) ==> EntriesWellFormed(v.owner) && WellFormed(v.value)
  {
    EntriesYieldWellFormed(root, root, [], scope);
  }

  lemma {:induction false} EntriesYieldWellFormed(owner: seq<Entry>, es: seq<Entry>, keyPath: seq<string>, scope: Option<string>)
    requires EntriesWellFormed(owner) && forall i :: 0 <= i < |es| ==> WellFormed(es[i].value)
    ensures forall v :: v in EachEntries(owner, es, keyPath, scope) ==> EntriesWellFormed(v.owner) && WellFormed(v.value)
    decreases EntriesSize(es), 1
  {
    if es != [] {
      var kp := keyPath + [es[0].key];
      if InScope(Join(kp), scope) && scope != Some(Join(kp)) {
        ItemsYieldWellFormed(owner, es[0].key, AsList(es[0].value), kp, scope);
      }
      assert forall i :: 0 <= i < |es[1..]| ==> es[1..][i] == es[i + 1];
      EntriesYieldWellFormed(owner, es[1..], keyPath, scope);
    }
  }

  lemma {:induction false} ItemsYieldWellFormed(owner: seq<Entry>, key: string, items: seq<Value>, kp: seq<string>, scope: Option<string>)
    requires EntriesWellFormed(owner) && forall i :: 0 <= i < |items| ==> WellFormed(items[i])
    ensures forall v :: v in EachItems(owner, key, items, kp, scope) ==> EntriesWellFormed(v.owner) && WellFormed(v.value)
    decreases ItemsSize(items), 0
  {
    if items != [] {
      if items[0].Node? {
        EntriesYieldWellFormed(items[0].entries, items[0].entries, kp, scope);
      }
      assert forall i :: 0 <= i < |items[1..]| ==> items[1..][i] == items[i + 1];
      ItemsYieldWellFormed(owner, key, items[1..], kp, scope);
    }
  }

  // ---------------------------------------------------------------------------
  // each_node

  /** One yield of `each_node`: the map from each consumed dotted prefix to
      the hash holding that key, and the value at the end of the path. */
  datatype NodeVisit = NodeVisit(parents: map<string, seq<Entry>>, value: Value)

  /** `each_node(path)`: nothing for an empty path. */
  function EachNode(root: seq<Entry>, path: string): seq<NodeVisit> {
    if path == "" then []
    else
      var all := Split(path);
      if all == [] then [] else EachNodeAt(root, all, [], map[])
  }

  /** One level of `each_node`: `keyPath` is the part of `all` consumed so far. */
  function EachNodeAt(h: seq<Entry>, all: seq<string>, keyPath: seq<string>, parents: map<string, seq<Entry>>): seq<NodeVisit>
    requires |keyPath| < |all| && keyPath == all[..|keyPath|]
    decreases |all| - |keyPath|, 0, 0
  {
    var key := all[|keyPath|];
    var kp := keyPath + [key];
    var value := At(h, key);
    if !Truthy(value) then []
    else
      var ps := parents[Join(kp) := h];
      if kp == all then [NodeVisit(ps, value)]
      else if value.List? then EachNodeItems(value.items, all, kp, ps)
      else if value.Node? then EachNodeAt(value.entries, all, kp, ps)
      else []
  }

  /** The hash elements of an array met before the end of the path. */
  function EachNodeItems(items: seq<Value>, all: seq<string>, kp: seq<string>, parents: map<string, seq<Entry>>): seq<NodeVisit>
    requires |kp| < |all| && kp == all[..|kp|]
    decreases |all| - |kp|, 1, |items|
  {
    if items == [] then []
    else
      (if items[0].Node? then EachNodeAt(items[0].entries, all, kp, parents) else [])
      + EachNodeItems(items[1..], all, kp, parents)
  }

  // ---------------------------------------------------------------------------
  // A reference definition of "the values at the end of a path".

  /** Every value stored under the last segment of `parts`, reached through
      hashes and through the hash elements of arrays, in tree order. */
  function Terminals(es: seq<Entry>, parts: seq<string>): seq<Value>
    requires parts != []
    decreases |parts|, 0, 0
  {
    if |parts| == 1 then (if HasKey(es, parts[0]) then [At(es, parts[0])] else [])
    else TerminalsIn(AsList(At(es, parts[0])), parts[1..])
  }

  function TerminalsIn(items: seq<Value>, parts: seq<string>): seq<Value>
    requires parts != []
    decreases |parts|, 1, |items|
  {
    if items == [] then []
    else (if items[0].Node? then Terminals(items[0].entries, parts) else []) + TerminalsIn(items[1..], parts)
  }

  function KeepTruthy(vs: seq<Value>): (r: seq<Value>)
    ensures forall x :: x in r ==> Truthy(x) && x in vs
  {
    if vs == [] then []
    else (if Truthy(vs[0]) then [vs[0]] else []) + KeepTruthy(vs[1..])
  }

  lemma {:induction false} KeepTruthyAppend(a: seq<Value>, b: seq<Value>)
    ensures KeepTruthy(a + b) == KeepTruthy(a) + KeepTruthy(b)
  {
    if a != [] {
      assert (a + b)[0] == a[0] && (a + b)[1..] == a[1..] + b;
      KeepTruthyAppend(a[1..], b);
    } else {
      assert a + b == b;
    }
  }

  function ValuesOf(vs: seq<NodeVisit>): seq<Value> {
    if vs == [] then [] else [vs[0].value] + ValuesOf(vs[1..])
  }

  lemma {:induction false} ValuesOfAppend(a: seq<NodeVisit>, b: seq<NodeVisit>)
    ensures ValuesOf(a + b) == ValuesOf(a) + ValuesOf(b)
  {
    if a != [] {
      assert (a + b)[0] == a[0] && (a + b)[1..] == a[1..] + b;
      ValuesOfAppend(a[1..], b);
    } else {
      assert a + b == b;
    }
  }

  /** `each_node` yields exactly the truthy values at the end of the path, in
      tree order: it stops silently at a missing key, at nil or false, and at
      a scalar met before the end of the path. */
  lemma EachNodeYieldsTruthyTerminals(root: seq<Entry>, path: string)
    requires Split(path) != []
    ensures ValuesOf(EachNode(root, path)) == KeepTruthy(Terminals(root, Split(path)))
  {
    assert path != "" by { assert SplitRaw("") == [""]; assert TrimTrailing([""]) == TrimTrailing([]); }
    NodeAtValues(root, Split(path), [], map[]);
  }

  lemma {:induction false} NodeAtValues(h: seq<Entry>, all: seq<string>, keyPath: seq<string>, parents: map<string, seq<Entry>>)
    requires |keyPath| < |all| && keyPath == all[..|keyPath|]
    ensures ValuesOf(EachNodeAt(h, all, keyPath, parents)) == KeepTruthy(Terminals(h, all[|keyPath|..]))
    decreases |all| - |keyPath|, 0, 0
  {
    var rest := all[|keyPath|..];
    var key := all[|keyPath|];
    var kp := keyPath + [key];
    var value := At(h, key);
    assert rest[0] == key;
    if |rest| > 1 {
      assert kp != all;
      assert rest[1..] == all[|kp|..];
      assert kp == all[..|kp|];
      if !Truthy(value) || (!value.List? && !value.Node?) {
        assert TerminalsIn(AsList(value), rest[1..]) == [];
      } else if value.List? {
        NodeItemsValues(value.items, all, kp, parents[Join(kp) := h]);
      } else {
        NodeAtValues(value.entries, all, kp, parents[Join(kp) := h]);
        assert [value][1..] == [];
        assert TerminalsIn([value], rest[1..]) == Terminals(value.entries, rest[1..]) + TerminalsIn([], rest[1..]);
        assert Terminals(h, rest) == Terminals(value.entries, rest[1..]);
        assert EachNodeAt(h, all, keyPath, parents) == EachNodeAt(value.entries, all, kp, parents[Join(kp) := h]);
      }
    } else {
      assert kp == all;
      assert Terminals(h, rest) == if HasKey(h, key) then [value] else [];
      if Truthy(value) {
        assert HasKey(h, key);
        assert KeepTruthy([value]) == [value] + KeepTruthy([]);
        var vs := EachNodeAt(h, all, keyPath, parents);
        assert ValuesOf(vs) == [vs[0].value] + ValuesOf([]);
      } else if HasKey(h, key) {
        assert KeepTruthy([value]) == [] + KeepTruthy([]);
      }
    }
  }

  lemma {:induction false} NodeItemsValues(items: seq<Value>, all: seq<string>, kp: seq<string>, parents: map<string, seq<Entry>>)
    requires |kp| < |all| && kp == all[..|kp|]
    ensures ValuesOf(EachNodeItems(items, all, kp, parents)) == KeepTruthy(TerminalsIn(items, all[|kp|..]))
    decreases |all| - |kp|, 1, |items|
  {
    if items != [] {
      var first := if items[0].Node? then EachNodeAt(items[0].entries, all, kp, parents) else [];
      if items[0].Node? {
        NodeAtValues(items[0].entries, all, kp, parents);
      }
      NodeItemsValues(items[1..], all, kp, parents);
      ValuesOfAppend(first, EachNodeItems(items[1..], all, kp, parents));
      KeepTruthyAppend(if items[0].Node? then Terminals(items[0].entries, all[|kp|..]) else [], TerminalsIn(items[1..], all[|kp|..]));
    }
  }

  /** The map of parents after consuming `d` segments of `all`: one entry per
      consumed dotted prefix, each holding the hash that has the prefix's
      last segment as a key. */
  ghost predicate ParentsChain(parents: map<string, seq<Entry>>, all: seq<string>, d: nat)
    requires d <= |all|
  {
    && parents.Keys == (set k | 1 <= k <= d :: Join(all[..k]))
    && forall k :: 1 <= k <= d ==> HasKey(parents[Join(all[..k])], all[k - 1])
  }

  lemma JoinPrefixesDiffer(all: seq<string>, k: nat, d: nat)
    requires 1 <= k < d <= |all|
    ensures Join(all[..k]) != Join(all[..d])
  {
    JoinPrefixInScope(all[..d], k);
    assert all[..d][..k] == all[..k];
  }

  /** Every yield of `each_node` carries the whole chain of parents, and its
      value is the one its last parent holds under the last segment. */
  lemma EachNodeParents(root: seq<Entry>, path: string)
    requires Split(path) != []
    ensures forall v :: v in EachNode(root, path) ==>
      ParentsChain(v.parents, Split(path), |Split(path)|) && Join(Split(path)) in v.parents
      && At(v.parents[Join(Split(path))], Split(path)[|Split(path)| - 1]) == v.value
  {
    assert path != "" by { assert SplitRaw("") == [""]; assert TrimTrailing([""]) == TrimTrailing([]); }
    NodeAtParents(root, Split(path), [], map[]);
  }

  /** Recording the hash that holds the next segment extends the chain. */
  lemma ChainStep(parents: map<string, seq<Entry>>, all: seq<string>, d: nat, h: seq<Entry>)
    requires 1 <= d <= |all| && ParentsChain(parents, all, d - 1) && HasKey(h, all[d - 1])
    ensures ParentsChain(parents[Join(all[..d]) := h], all, d)
  {
    var ps := parents[Join(all[..d]) := h];
    forall k | 1 <= k <= d ensures HasKey(ps[Join(all[..k])], all[k - 1]) {
      if k < d {
        JoinPrefixesDiffer(all, k, d);
        assert ps[Join(all[..k])] == parents[Join(all[..k])];
      }
    }
    calc {
      ps.Keys;
      parents.Keys + {Join(all[..d])};
      (set k | 1 <= k <= d - 1 :: Join(all[..k])) + {Join(all[..d])};
      (set k | 1 <= k <= d :: Join(all[..k]));
    }
  }

  lemma {:induction false} NodeAtParents(h: seq<Entry>, all: seq<string>, keyPath: seq<string>, parents: map<string, seq<Entry>>)
    requires |keyPath| < |all| && keyPath == all[..|keyPath|]
    requires ParentsChain(parents, all, |keyPath|)
    ensures forall v :: v in EachNodeAt(h, all, keyPath, parents) ==>
      ParentsChain(v.parents, all, |all|) && Join(all) in v.parents && At(v.parents[Join(all)], all[|all| - 1]) == v.value
    decreases |all| - |keyPath|, 0, 0
  {
    var key := all[|keyPath|];
    var kp := keyPath + [key];
    var value := At(h, key);
    if Truthy(value) {
      var d := |kp|;
      assert kp == all[..d];
      var ps := parents[Join(kp) := h];
      ChainStep(parents, all, d, h);
      if kp == all {
        assert Join(all) in ps;
      } else if value.List? {
        NodeItemsParents(value.items, all, kp, ps);
      } else if value.Node? {
        NodeAtParents(value.entries, all, kp, ps);
      }
    }
  }

  lemma {:induction false} NodeItemsParents(items: seq<Value>, all: seq<string>, kp: seq<string>, parents: map<string, seq<Entry>>)
    requires |kp| < |all| && kp == all[..|kp|]
    requires ParentsChain(parents, all, |kp|)
    ensures forall v :: v in EachNodeItems(items, all, kp, parents) ==>
      ParentsChain(v.parents, all, |all|) && Join(all) in v.parents && At(v.parents[Join(all)], all[|all| - 1]) == v.value
    decreases |all| - |kp|, 1, |items|
  {
    if items != [] {
      if items[0].Node? {
        NodeAtParents(items[0].entries, all, kp, parents);
      }
      NodeItemsParents(items[1..], all, kp, parents);
    }
  }
}
