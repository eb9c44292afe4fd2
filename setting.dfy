/** What `set`, `remove` and `insert` do to a tree, as functions from the old
    root hash to the new one. The imperative versions in the HashTrees
    module are proved to compute exactly these. */
module Setting {
  import opened Values
  import opened Paths
  import opened Traversal
  import opened Conditions
  import opened Queries

  /** The options of `set`: `:if`, `:unless`, `:remove_leaf`, `:accept_nil`. */
  datatype Options = Options(ifs: seq<Condition>, unlesses: seq<Condition>, removeLeaf: bool, acceptNil: bool)

  /** The defaults `remove` merges the caller's options over: no conditions,
      `:remove_leaf` on, and `set`'s own default `:accept_nil` on. */
  function RemoveOptions(ifs: seq<Condition>, unlesses: seq<Condition>): Options {
    Options(ifs, unlesses, true, true)
  }

  /** `set_children(root, parts, value, options)`. Before the last segment a
      missing, nil, false or scalar value is replaced by `{}`, a hash is
      descended into and the hash elements of an array are each descended
      into; at the last segment the value is stored when the conditions hold
      on the parent hash. Only the key of the first segment changes. */
  function SetChildren(root: seq<Entry>, parts: seq<string>, value: Value, opts: Options): (r: seq<Entry>)
    requires parts != []
    ensures forall k :: k != parts[0] ==> At(r, k) == At(root, k) && (HasKey(r, k) <==> HasKey(root, k))
    decreases |parts|, 2
  {
    var sel := parts[0];
    if |parts| > 1 then
      var cur := At(root, sel);
      var target := if !Truthy(cur) || (!cur.Node? && !cur.List?) then Node([]) else cur;
      var updated :=
        if target.List? then List(SetItems(target.items, parts, value, opts))
        else Node(SetChildrenNode(target.entries, parts, value, opts));
      Put(root, sel, updated)
    else if MixedHold(Node(root), opts.ifs, opts.unlesses) then Put(root, sel, value)
    else root
  }

  /** The broadcast over an array: every hash element goes through
      `set_children_node`, the other elements are left alone. */
  function SetItems(items: seq<Value>, parts: seq<string>, value: Value, opts: Options): (r: seq<Value>)
    requires |parts| > 1
    ensures |r| == |items|
    ensures forall i :: 0 <= i < |items| ==>
      r[i] == if items[i].Node? then Node(SetChildrenNode(items[i].entries, parts, value, opts)) else items[i]
    decreases |parts|, 1
  {
    seq(|items|, i requires 0 <= i < |items| =>
      if items[i].Node? then Node(SetChildrenNode(items[i].entries, parts, value, opts)) else items[i])
  }

  /** `set_children_node(hash, parts, ...)`: `hash` was reached by the first
      segment. With `:remove_leaf` and one segment left, the leaf is removed
      when the conditions hold on it (on each element, for an array, the key
      going once the array is empty); otherwise `set_children` goes on with
      the remaining segments. */
  function SetChildrenNode(hash: seq<Entry>, parts: seq<string>, value: Value, opts: Options): seq<Entry>
    requires |parts| > 1
    decreases |parts|, 0
  {
    if opts.removeLeaf && |parts| == 2 then
      var child := parts[1];
      var cur := At(hash, child);
      if cur.List? then
        var kept := Reject(cur.items, opts.ifs, opts.unlesses);
        if kept == [] then Delete(hash, child) else Put(hash, child, List(kept))
      else if MixedHold(cur, opts.ifs, opts.unlesses) then Delete(hash, child)
      else hash
    else SetChildren(hash, parts[1..], value, opts)
  }

  /** `array.delete_if { |i| check_mixed_conditions(i, ...) }`. */
  function Reject(items: seq<Value>, ifs: seq<Condition>, unlesses: seq<Condition>): (r: seq<Value>)
    ensures forall x :: x in r ==> x in items && !MixedHold(x, ifs, unlesses)
    ensures forall x :: x in items && !MixedHold(x, ifs, unlesses) ==> x in r
    decreases |items|
  {
    if items == [] then []
    else
      var init := items[..|items| - 1];
      var last := items[|items| - 1];
      assert items == init + [last];
      if MixedHold(last, ifs, unlesses) then Reject(init, ifs, unlesses)
      else Reject(init, ifs, unlesses) + [last]
  }

  /** When every element passes the conditions, `delete_if` empties the array. */
  lemma {:induction false} RejectAll(items: seq<Value>, ifs: seq<Condition>, unlesses: seq<Condition>)
    requires ifs == [] && unlesses == []
    ensures Reject(items, ifs, unlesses) == []
    decreases |items|
  {
    if items != [] {
      RejectAll(items[..|items| - 1], ifs, unlesses);
    }
  }

  /** `set(path, value, options)`: nothing when nil or false is given and
      `:accept_nil` is off. */
  function SetTree(root: seq<Entry>, path: string, value: Value, opts: Options): seq<Entry>
    requires Split(path) != []
  {
    if opts.acceptNil || Truthy(value) then SetChildren(root, Split(path), value, opts) else root
  }

  /** `remove(path, options)`: `set(path, nil, options)`, only when the path
      exists. `opts` is the caller's options merged over `RemoveOptions`. */
  function Remove(root: seq<Entry>, path: string, opts: Options): seq<Entry> {
    if Exists(root, path) then SetTree(root, path, Nil, opts) else root
  }

  /** `insert(path, content)`: the value found by `get` is extended when it
      is an array (by the elements of an array, or by the content itself)
      and set back at the path. */
  function Insert(root: seq<Entry>, path: string, content: Value): seq<Entry>
    requires Split(path) != []
  {
    var cur := Get(root, path, Str(""), NoForce);
    var v := if cur.List? then List(cur.items + AsList(content)) else cur;
    SetTree(root, path, v, Options([], [], false, true))
  }

  // ---------------------------------------------------------------------------
  // Well-formedness is preserved.

  lemma {:induction false} SetChildrenWellFormed(root: seq<Entry>, parts: seq<string>, value: Value, opts: Options)
    requires parts != [] && EntriesWellFormed(root) && WellFormed(value)
    ensures EntriesWellFormed(SetChildren(root, parts, value, opts))
    decreases |parts|, 2
  {
    var sel := parts[0];
    if |parts| > 1 {
      var cur := At(root, sel);
      AtWellFormed(root, sel);
      var target := if !Truthy(cur) || (!cur.Node? && !cur.List?) then Node([]) else cur;
      var updated :=
        if target.List? then List(SetItems(target.items, parts, value, opts))
        else Node(SetChildrenNode(target.entries, parts, value, opts));
      if target.List? {
        SetItemsWellFormed(target.items, parts, value, opts);
      } else {
        SetChildrenNodeWellFormed(target.entries, parts, value, opts);
      }
      PutWellFormed(root, sel, updated);
    } else {
      PutWellFormed(root, sel, value);
    }
  }

  lemma {:induction false} SetItemsWellFormed(items: seq<Value>, parts: seq<string>, value: Value, opts: Options)
    requires |parts| > 1 && WellFormed(value) && forall i :: 0 <= i < |items| ==> WellFormed(items[i])
    ensures WellFormed(List(SetItems(items, parts, value, opts)))
    decreases |parts|, 1
  {
    var r := SetItems(items, parts, value, opts);
    forall i | 0 <= i < |items| ensures WellFormed(r[i]) {
      if items[i].Node? {
        SetChildrenNodeWellFormed(items[i].entries, parts, value, opts);
      }
    }
  }

  lemma {:induction false} SetChildrenNodeWellFormed(hash: seq<Entry>, parts: seq<string>, value: Value, opts: Options)
    requires |parts| > 1 && EntriesWellFormed(hash) && WellFormed(value)
    ensures EntriesWellFormed(SetChildrenNode(hash, parts, value, opts))
    decreases |parts|, 0
  {
    if opts.removeLeaf && |parts| == 2 {
      var child := parts[1];
      var cur := At(hash, child);
      DeleteWellFormed(hash, child);
      if cur.List? {
        AtWellFormed(hash, child);
        var kept := Reject(cur.items, opts.ifs, opts.unlesses);
        forall i | 0 <= i < |kept| ensures WellFormed(kept[i]) {
          assert kept[i] in cur.items;
        }
        PutWellFormed(hash, child, List(kept));
      }
    } else {
      SetChildrenWellFormed(hash, parts[1..], value, opts);
    }
  }

  // ---------------------------------------------------------------------------
  // What `set` writes.

  predicate Unconditional(opts: Options) {
    opts.ifs == [] && opts.unlesses == []
  }

  /** Without conditions, `set` stores the value at every place the path
      reaches: every value under the last segment is the new value. */
  lemma {:induction false} SetWritesEveryTerminal(root: seq<Entry>, parts: seq<string>, value: Value, opts: Options)
    requires parts != [] && Unconditional(opts) && !opts.removeLeaf
    ensures forall x :: x in Terminals(SetChildren(root, parts, value, opts), parts) ==> x == value
    decreases |parts|, 2
  {
    var r := SetChildren(root, parts, value, opts);
    if |parts| > 1 {
      var sel := parts[0];
      var cur := At(root, sel);
      var target := if !Truthy(cur) || (!cur.Node? && !cur.List?) then Node([]) else cur;
      if target.List? {
        SetItemsWritesEveryTerminal(target.items, parts, value, opts);
        assert At(r, sel) == List(SetItems(target.items, parts, value, opts));
      } else {
        SetWritesEveryTerminal(target.entries, parts[1..], value, opts);
        var updated := Node(SetChildrenNode(target.entries, parts, value, opts));
        assert updated.entries == SetChildren(target.entries, parts[1..], value, opts);
        assert At(r, sel) == updated;
        assert TerminalsIn([updated], parts[1..]) == Terminals(updated.entries, parts[1..]) + TerminalsIn([], parts[1..]);
      }
    }
  }

  lemma {:induction false} SetItemsWritesEveryTerminal(items: seq<Value>, parts: seq<string>, value: Value, opts: Options)
    requires |parts| > 1 && Unconditional(opts) && !opts.removeLeaf
    ensures forall x :: x in TerminalsIn(SetItems(items, parts, value, opts), parts[1..]) ==> x == value
    decreases |parts|, 1, |items|
  {
    if items != [] {
      var r := SetItems(items, parts, value, opts);
      assert r[1..] == SetItems(items[1..], parts, value, opts);
      if items[0].Node? {
        SetWritesEveryTerminal(items[0].entries, parts[1..], value, opts);
        assert r[0].entries == SetChildren(items[0].entries, parts[1..], value, opts);
      }
      SetItemsWritesEveryTerminal(items[1..], parts, value, opts);
    }
  }

  /** The path meets no array before its last segment. */
  predicate ListFree(es: seq<Entry>, parts: seq<string>)
    requires parts != []
    decreases |parts|
  {
    |parts| == 1 ||
      (var v := At(es, parts[0]); !v.List? && (v.Node? ==> ListFree(v.entries, parts[1..])))
  }

  /** Without conditions and without an array on the way, `set` makes the
      value the one and only thing under the path, creating the missing
      hashes and overwriting the scalars on the way. */
  lemma {:induction false} SetThenLookup(root: seq<Entry>, parts: seq<string>, value: Value, opts: Options)
    requires parts != [] && Unconditional(opts) && !opts.removeLeaf && ListFree(root, parts)
    ensures Terminals(SetChildren(root, parts, value, opts), parts) == [value]
    decreases |parts|
  {
    if |parts| > 1 {
      var cur := At(root, parts[0]);
      var target := if !Truthy(cur) || !cur.Node? then Node([]) else cur;
      assert ListFree(target.entries, parts[1..]);
      SetThenLookup(target.entries, parts[1..], value, opts);
      var below := SetChildren(target.entries, parts[1..], value, opts);
      var r := SetChildren(root, parts, value, opts);
      assert !cur.List? && SetChildrenNode(target.entries, parts, value, opts) == below;
      assert r == Put(root, parts[0], Node(below));
      calc {
        Terminals(r, parts);
        TerminalsIn([Node(below)], parts[1..]);
        Terminals(below, parts[1..]) + TerminalsIn([], parts[1..]);
        [value];
      }
    }
  }

  /** Without an array on the way, a path has at most one terminal. */
  lemma {:induction false} ListFreeTerminals(es: seq<Entry>, parts: seq<string>)
    requires parts != [] && ListFree(es, parts)
    ensures |Terminals(es, parts)| <= 1
    decreases |parts|
  {
    if |parts| > 1 {
      var v := At(es, parts[0]);
      TerminalsThroughValue(es, parts);
      if v.Node? {
        ListFreeTerminals(v.entries, parts[1..]);
      }
    }
  }

  /** Past a value that is not an array, the terminals are those below it
      when it is a hash, and none otherwise. */
  lemma TerminalsThroughValue(es: seq<Entry>, parts: seq<string>)
    requires |parts| > 1
    ensures var v := At(es, parts[0]);
      !v.List? ==> Terminals(es, parts) == if v.Node? then Terminals(v.entries, parts[1..]) else []
  {
    var v := At(es, parts[0]);
    if v.Node? {
      assert TerminalsIn([v], parts[1..]) == Terminals(v.entries, parts[1..]) + TerminalsIn([], parts[1..]);
    } else if !v.List? {
      assert TerminalsIn([v], parts[1..]) == [] + TerminalsIn([], parts[1..]);
    }
  }

  /** Without conditions, storing the one terminal of a path back at the
      path changes nothing. */
  lemma {:induction false} SetChildrenSame(root: seq<Entry>, parts: seq<string>, v: Value, opts: Options)
    requires parts != [] && EntriesWellFormed(root) && ListFree(root, parts)
    requires Terminals(root, parts) == [v] && Unconditional(opts) && !opts.removeLeaf
    ensures SetChildren(root, parts, v, opts) == root
    decreases |parts|
  {
    var sel := parts[0];
    var cur := At(root, sel);
    HasKeyIndex(root, sel);
    if |parts| > 1 {
      TerminalsThroughValue(root, parts);
      AtWellFormed(root, sel);
      SetChildrenSame(cur.entries, parts[1..], v, opts);
    }
    var i :| 0 <= i < |root| && root[i].key == sel;
    AtUnique(root, i);
    PutSame(root, i);
  }

  /** `set(path, get(path))` leaves the tree alone when the path exists,
      holds no array on the way and is plain, and its value is not nil
      (which `get` would report as its default, `""`). */
  lemma SetOwnValueBack(root: seq<Entry>, parts: seq<string>, opts: Options)
    requires parts != [] && Segments(parts) && EntriesWellFormed(root)
    requires ExistsIn(root, parts) && ListFree(root, parts) && PlainPath(root, parts, 0)
    requires Terminals(root, parts) != [Nil] && Unconditional(opts) && !opts.removeLeaf
    ensures Split(Join(parts)) == parts
    ensures SetTree(root, Join(parts), Get(root, Join(parts), Str(""), NoForce), opts) == root
  {
    SplitJoin(parts);
    ExistsIffTerminals(root, parts);
    ListFreeTerminals(root, parts);
    GetReadsTerminals(root, parts, Str(""));
    var t := Terminals(root, parts);
    SetChildrenSame(root, parts, t[0], opts);
  }

  /** With `:accept_nil` off, setting nil or false leaves the tree alone. */
  lemma SetRefusesNil(root: seq<Entry>, path: string, value: Value, opts: Options)
    requires Split(path) != [] && !opts.acceptNil && !Truthy(value)
    ensures SetTree(root, path, value, opts) == root
  {
  }

  /** At the last segment the conditions are tested on the parent hash: when
      they fail nothing is stored. */
  lemma SetGuardedByParent(root: seq<Entry>, k: string, value: Value, opts: Options)
    ensures MixedHold(Node(root), opts.ifs, opts.unlesses) ==> SetChildren(root, [k], value, opts) == Put(root, k, value)
    ensures !MixedHold(Node(root), opts.ifs, opts.unlesses) ==> SetChildren(root, [k], value, opts) == root
  {
  }

  // ---------------------------------------------------------------------------
  // What `remove` does.

  /** A missing path is not removed. */
  lemma RemoveMissing(root: seq<Entry>, path: string, opts: Options)
    requires !Exists(root, path)
    ensures Remove(root, path, opts) == root
  {
  }

  /** A one-segment `remove` does not delete the key: it stores nil under it. */
  lemma RemoveOneSegmentStoresNil(root: seq<Entry>, k: string)
    requires k != "" && '.' !in k && HasKey(root, k)
    ensures HasKey(Remove(root, k, RemoveOptions([], [])), k) && At(Remove(root, k, RemoveOptions([], [])), k) == Nil
    ensures |Remove(root, k, RemoveOptions([], []))| == |root|
  {
    SplitRawWord(k);
    assert Split(k) == [k];
    HasKeyIndex(root, k);
    var i :| 0 <= i < |root| && root[i].key == k;
    assert ExistsIn(root, [k]);
  }

  /** Without conditions, a `remove` of two segments or more leaves nothing
      under the path. */
  lemma {:induction false} RemoveClears(root: seq<Entry>, parts: seq<string>, ifs: seq<Condition>, unlesses: seq<Condition>)
    requires |parts| > 1 && ifs == [] && unlesses == []
    ensures Terminals(SetChildren(root, parts, Nil, RemoveOptions(ifs, unlesses)), parts) == []
    decreases |parts|, 2
  {
    var opts := RemoveOptions(ifs, unlesses);
    var sel := parts[0];
    var cur := At(root, sel);
    var target := if !Truthy(cur) || (!cur.Node? && !cur.List?) then Node([]) else cur;
    if target.List? {
      RemoveClearsItems(target.items, parts, ifs, unlesses);
    } else {
      RemoveClearsNode(target.entries, parts, ifs, unlesses);
      var updated := Node(SetChildrenNode(target.entries, parts, Nil, opts));
      assert TerminalsIn([updated], parts[1..]) == Terminals(updated.entries, parts[1..]) + TerminalsIn([], parts[1..]);
    }
  }

  lemma {:induction false} RemoveClearsItems(items: seq<Value>, parts: seq<string>, ifs: seq<Condition>, unlesses: seq<Condition>)
    requires |parts| > 1 && ifs == [] && unlesses == []
    ensures TerminalsIn(SetItems(items, parts, Nil, RemoveOptions(ifs, unlesses)), parts[1..]) == []
    decreases |parts|, 1, |items|
  {
    if items != [] {
      var opts := RemoveOptions(ifs, unlesses);
      var r := SetItems(items, parts, Nil, opts);
      assert r[1..] == SetItems(items[1..], parts, Nil, opts);
      if items[0].Node? {
        RemoveClearsNode(items[0].entries, parts, ifs, unlesses);
      }
      RemoveClearsItems(items[1..], parts, ifs, unlesses);
    }
  }

  lemma {:induction false} RemoveClearsNode(hash: seq<Entry>, parts: seq<string>, ifs: seq<Condition>, unlesses: seq<Condition>)
    requires |parts| > 1 && ifs == [] && unlesses == []
    ensures Terminals(SetChildrenNode(hash, parts, Nil, RemoveOptions(ifs, unlesses)), parts[1..]) == []
    decreases |parts|, 0
  {
    if |parts| == 2 {
      var cur := At(hash, parts[1]);
      if cur.List? {
        RejectAll(cur.items, ifs, unlesses);
      }
      assert parts[1..] == [parts[1]];
    } else {
      RemoveClears(hash, parts[1..], ifs, unlesses);
    }
  }

  /** Without conditions, a path of two segments or more no longer exists
      once removed. */
  lemma RemovedPathIsGone(root: seq<Entry>, path: string)
    requires EntriesWellFormed(root) && |Split(path)| > 1
    ensures !Exists(Remove(root, path, RemoveOptions([], [])), path)
  {
    var parts := Split(path);
    if Exists(root, path) {
      RemoveClears(root, parts, [], []);
      SetChildrenWellFormed(root, parts, Nil, RemoveOptions([], []));
      ExistsIffTerminals(Remove(root, path, RemoveOptions([], [])), parts);
    }
  }

  /** With `:accept_nil => false` the nil that `remove` passes to `set` is
      refused: nothing changes. */
  lemma RemoveRefusedWithoutAcceptNil(root: seq<Entry>, path: string, opts: Options)
    requires !opts.acceptNil
    ensures Remove(root, path, opts) == root
  {
  }

  /** With `:remove_leaf => false` and no conditions, `remove` of an existing
      path without arrays on the way stores nil there, as `set(path, nil)`
      does: the path then reaches exactly one value, nil. */
  lemma RemoveKeepingLeafStoresNil(root: seq<Entry>, path: string, opts: Options)
    requires Exists(root, path) && ListFree(root, Split(path))
    requires !opts.removeLeaf && opts.acceptNil && Unconditional(opts)
    ensures Terminals(Remove(root, path, opts), Split(path)) == [Nil]
  {
    SetThenLookup(root, Split(path), Nil, opts);
  }

  /** A `remove` reaching a hash element of an array that lacks the
      intermediate key still gives that element the key, holding `{}`. */
  lemma RemoveGrowsMissingBranch(hash: seq<Entry>, parts: seq<string>)
    requires |parts| == 3 && !HasKey(hash, parts[1])
    ensures SetChildrenNode(hash, parts, Nil, RemoveOptions([], [])) == hash + [Entry(parts[1], Node([]))]
  {
    var opts := RemoveOptions([], []);
    assert parts[1..][0] == parts[1] && parts[1..][1] == parts[2];
    assert SetChildrenNode([], parts[1..], Nil, opts) == Delete([], parts[2]);
  }

  // ---------------------------------------------------------------------------
  // What `insert` does.

  /** When `get` finds an array, `insert` stores that array extended by the
      content at every place the path reaches. */
  lemma InsertAppends(root: seq<Entry>, path: string, content: Value, items: seq<Value>)
    requires Split(path) != [] && Get(root, path, Str(""), NoForce) == List(items)
    ensures forall x :: x in Terminals(Insert(root, path, content), Split(path)) ==> x == List(items + AsList(content))
  {
    SetWritesEveryTerminal(root, Split(path), List(items + AsList(content)), Options([], [], false, true));
  }

  /** When `get` finds nothing, `insert` drops the content and stores the
      empty string, the default of `get`. */
  lemma InsertOnMissingStoresEmptyString(root: seq<Entry>, path: string, content: Value)
    requires Split(path) != [] && path != "" && Each(root, Some(path)) == []
    ensures forall x :: x in Terminals(Insert(root, path, content), Split(path)) ==> x == Str("")
  {
    SetWritesEveryTerminal(root, Split(path), Str(""), Options([], [], false, true));
  }
}
