/** The `HashTree` object: a root hash that the public operations update in
    place, and the private helpers that walk and rewrite it step by step.
    Each helper is proved to compute the function of the Setting, Renaming,
    Merging, Compacting or Replacing module that states what it does. */
module HashTrees {
  import opened Values
  import opened Paths
  import opened Conditions
  import opened Queries
  import opened Setting
  import opened Renaming
  import opened Merging
  import opened Compacting
  import opened Replacing

  // ---------------------------------------------------------------------------
  // set_children / set_children_node

  /** `set_children(root, path, value, options)` on the segments of the path. */
  method SetChildrenIn(root: seq<Entry>, parts: seq<string>, value: Value, opts: Options) returns (r: seq<Entry>)
    requires parts != []
    ensures r == SetChildren(root, parts, value, opts)
    decreases |parts|, 1
  {
    var sel := parts[0];
    if |parts| > 1 {
      var cur := At(root, sel);
      if !Truthy(cur) || (!cur.Node? && !cur.List?) {
        cur := Node([]);
      }
      if cur.List? {
        // each_with_index over the array, rewriting its hash elements
        var items := cur.items;
        var i := 0;
        while i < |items|
          invariant 0 <= i <= |items| == |cur.items|
          invariant forall j :: 0 <= j < i ==> items[j] == SetItems(cur.items, parts, value, opts)[j]
          invariant forall j :: i <= j < |items| ==> items[j] == cur.items[j]
        {
          if items[i].Node? {
            var h := SetChildrenNodeIn(items[i].entries, parts, value, opts);
            items := items[i := Node(h)];
          }
          i := i + 1;
        }
        assert items == SetItems(cur.items, parts, value, opts);
        r := Put(root, sel, List(items));
      } else {
        var h := SetChildrenNodeIn(cur.entries, parts, value, opts);
        r := Put(root, sel, Node(h));
      }
    } else {
      var ok := CheckMixedConditions(Node(root), opts.ifs, opts.unlesses);
      r := if ok then Put(root, sel, value) else root;
    }
  }

  /** `set_children_node(hash, path, children, value, options)`. */
  method SetChildrenNodeIn(hash: seq<Entry>, parts: seq<string>, value: Value, opts: Options) returns (r: seq<Entry>)
    requires |parts| > 1
    ensures r == SetChildrenNode(hash, parts, value, opts)
    decreases |parts|, 0
  {
    if opts.removeLeaf && |parts| == 2 {
      var child := parts[1];
      var cur := At(hash, child);
      if cur.List? {
        var kept := DeleteIf(cur.items, opts.ifs, opts.unlesses);
        r := if kept == [] then Delete(hash, child) else Put(hash, child, List(kept));
      } else {
        var holds := CheckMixedConditions(cur, opts.ifs, opts.unlesses);
        r := if holds then Delete(hash, child) else hash;
      }
    } else {
      r := SetChildrenIn(hash, parts[1..], value, opts);
    }
  }

  /** `array.delete_if { |i| check_mixed_conditions(i, ifs, unlesses) }`. */
  method DeleteIf(items: seq<Value>, ifs: seq<Condition>, unlesses: seq<Condition>) returns (kept: seq<Value>)
    ensures kept == Reject(items, ifs, unlesses)
  {
    kept := [];
    var i := 0;
    while i < |items|
      invariant 0 <= i <= |items|
      invariant kept == Reject(items[..i], ifs, unlesses)
    {
      assert items[..i + 1][..i] == items[..i];
      var holds := CheckMixedConditions(items[i], ifs, unlesses);
      if !holds {
        kept := kept + [items[i]];
      }
      i := i + 1;
    }
    assert items[..i] == items;
  }

  // ---------------------------------------------------------------------------
  // rename_key!

  /** `rename_key!(path, new_name, hash)` on the segments of the path. */
  method RenameKeyIn(es: seq<Entry>, parts: seq<string>, newName: string) returns (r: seq<Entry>)
    requires EntriesWellFormed(es)
    ensures r == RenameKey(es, parts, newName)
    decreases |parts|, 1
  {
    if parts == [] {
      return es;
    }
    if |parts| == 1 {
      // the key is deleted during the scan and merged back afterwards
      var k := parts[0];
      r := [];
      var renamed: Option<Value> := None;
      var i := 0;
      while i < |es|
        invariant 0 <= i <= |es|
        invariant r == Delete(es[..i], k)
        invariant renamed.Some? <==> HasKey(es[..i], k)
        invariant renamed.Some? ==> renamed.value == At(es[..i], k)
      {
        assert es[..i + 1] == es[..i] + [es[i]];
        LookupSnoc(es[..i], es[i], k);
        if es[i].key == k {
          assert !HasKey(es[..i], k) by {
            HasKeyIndex(es[..i], k);
          }
          renamed := Some(es[i].value);
        } else {
          r := r + [es[i]];
        }
        i := i + 1;
      }
      assert es[..i] == es;
      assert r == Delete(es, k);
      if renamed.Some? {
        r := Put(r, newName, renamed.value);
      } else {
        DeleteAbsent(es, k);
      }
    } else {
      r := es;
      var i := 0;
      while i < |es|
        invariant 0 <= i <= |es| == |r|
        invariant forall j :: 0 <= j < i ==> r[j] == RenameKey(es, parts, newName)[j]
        invariant forall j :: i <= j < |es| ==> r[j] == es[j]
      {
        if es[i].key == parts[0] {
          MemberWellFormed(es, es[i]);
          var v := RenameValueIn(es[i].value, parts[1..], newName);
          r := r[i := Entry(es[i].key, v)];
        }
        i := i + 1;
      }
      assert r == RenameKey(es, parts, newName);
    }
  }

  /** The renaming applied to every hash of `convert_to_array(value)`. */
  method RenameValueIn(v: Value, parts: seq<string>, newName: string) returns (r: Value)
    requires parts != [] && WellFormed(v)
    ensures r == RenameValue(v, parts, newName)
    decreases |parts|, 2
  {
    if v.Node? {
      var es := RenameKeyIn(v.entries, parts, newName);
      r := Node(es);
    } else if v.List? {
      var items := v.items;
      var j := 0;
      while j < |items|
        invariant 0 <= j <= |items| == |v.items|
        invariant forall n :: 0 <= n < j ==> items[n] == RenameItems(v.items, parts, newName)[n]
        invariant forall n :: j <= n < |items| ==> items[n] == v.items[n]
      {
        if items[j].Node? {
          var es := RenameKeyIn(items[j].entries, parts, newName);
          items := items[j := Node(es)];
        }
        j := j + 1;
      }
      r := List(items);
    } else {
      r := v;
    }
  }

  // ---------------------------------------------------------------------------
  // merge_children

  /** `merge_children(hash, other_hash)`: the pairs of `other` written in
      one by one. */
  method MergeChildrenIn(h: seq<Entry>, other: seq<Entry>) returns (r: seq<Entry>)
    ensures r == MergeChildren(h, other)
    decreases EntriesSize(other)
  {
    r := h;
    var i := 0;
    while i < |other|
      invariant 0 <= i <= |other|
      invariant MergeChildren(h, other) == MergeChildren(r, other[i..])
    {
      assert other[i..][0] == other[i] && other[i..][1..] == other[i + 1..];
      var k := other[i].key;
      var v := other[i].value;
      var cur := At(r, k);
      if Truthy(cur) && v.Node? {
        if cur.Node? {
          var merged := MergeChildrenIn(cur.entries, v.entries);
          v := Node(merged);
        } else {
          v := cur;
        }
      }
      r := Put(r, k, v);
      i := i + 1;
    }
  }

  // ---------------------------------------------------------------------------
  // compact / compact_array / compact_simple_hash

  /** What `compact(hash)` leaves in `hash`: each array and hash value
      compacted with `hash[key] =`, then `compact_simple_hash`. */
  method CompactHashIn(es: seq<Entry>) returns (h: seq<Entry>)
    ensures h == CompactEntries(es)
    decreases EntriesSize(es), 1
  {
    h := es;
    var i := 0;
    while i < |h|
      invariant 0 <= i <= |h| == |es|
      invariant forall j :: 0 <= j < i ==> h[j] == Entry(es[j].key, CompactValue(es[j].value))
      invariant forall j :: i <= j < |h| ==> h[j] == es[j]
    {
      var v := h[i].value;
      if v.List? {
        var c := CompactArrayIn(v.items);
        h := h[i := Entry(h[i].key, c)];
      } else if v.Node? {
        var c := CompactHashIn(v.entries);
        h := h[i := Entry(h[i].key, if c == [] then Nil else Node(c))];
      }
      i := i + 1;
    }
    assert h == seq(|es|, i requires 0 <= i < |es| => Entry(es[i].key, CompactValue(es[i].value)));
    h := CompactSimpleHash(h);
  }

  /** `compact_simple_hash(hash)`: `delete_if { |k, v| not v }`. */
  method CompactSimpleHash(es: seq<Entry>) returns (r: seq<Entry>)
    ensures r == DropFalsy(es)
  {
    r := [];
    var i := 0;
    while i < |es|
      invariant 0 <= i <= |es|
      invariant r == DropFalsy(es[..i])
    {
      assert es[..i + 1][..i] == es[..i];
      if Truthy(es[i].value) {
        r := r + [es[i]];
      }
      i := i + 1;
    }
    assert es[..i] == es;
  }

  /** `compact_array(array)`: the hash elements compacted in place, then
      `array.compact!`, and nil for an empty result. */
  method CompactArrayIn(xs: seq<Value>) returns (r: Value)
    ensures r == CompactArray(xs)
    decreases ItemsSize(xs), 0
  {
    var items := xs;
    var j := 0;
    while j < |items|
      invariant 0 <= j <= |items| == |xs|
      invariant forall n :: 0 <= n < j ==> items[n] == CompactItems(xs)[n]
      invariant forall n :: j <= n < |items| ==> items[n] == xs[n]
    {
      if items[j].Node? {
        var c := CompactHashIn(items[j].entries);
        items := items[j := Node(c)];
      }
      j := j + 1;
    }
    assert items == CompactItems(xs);
    // array.compact!
    var kept: seq<Value> := [];
    var n := 0;
    while n < |items|
      invariant 0 <= n <= |items|
      invariant kept == DropNils(items[..n])
    {
      assert items[..n + 1][..n] == items[..n];
      if items[n] != Nil {
        kept := kept + [items[n]];
      }
      n := n + 1;
    }
    assert items[..n] == items;
    r := if kept == [] then Nil else List(kept);
  }

  // ---------------------------------------------------------------------------
  // replace_values!

  /** `replace_values!(old_value, new_value, hash)`. */
  method ReplaceValuesIn(es: seq<Entry>, oldValue: Value, newValue: Value) returns (r: seq<Entry>)
    ensures r == ReplaceEntries(es, oldValue, newValue)
    decreases EntriesSize(es), 0
  {
    r := es;
    var i := 0;
    while i < |r|
      invariant 0 <= i <= |r| == |es|
      invariant forall j :: 0 <= j < i ==> r[j] == Entry(es[j].key, ReplaceValue(es[j].value, oldValue, newValue))
      invariant forall j :: i <= j < |r| ==> r[j] == es[j]
    {
      var value := ReplaceValueIn(r[i].value, oldValue, newValue);
      r := r[i := Entry(r[i].key, value)];
      i := i + 1;
    }
  }

  /** The block `replace_values!` runs on one value of a hash. */
  method ReplaceValueIn(v: Value, oldValue: Value, newValue: Value) returns (value: Value)
    ensures value == ReplaceValue(v, oldValue, newValue)
    decreases Size(v), 1
  {
    value := v;
    if value.List? {
      var items := ReplaceItemsIn(value.items, oldValue, newValue);
      value := List(items);
    } else if value.Node? {
      var h := ReplaceValuesIn(value.entries, oldValue, newValue);
      value := Node(h);
    } else if Equal(value, oldValue) {
      value := newValue;
    }
  }

  /** The block `replace_values!` runs over an array value. */
  method ReplaceItemsIn(xs: seq<Value>, oldValue: Value, newValue: Value) returns (items: seq<Value>)
    ensures items == ReplaceItems(xs, oldValue, newValue)
    decreases ItemsSize(xs), 0
  {
    items := xs;
    var j := 0;
    while j < |items|
      invariant 0 <= j <= |items| == |xs|
      invariant forall n :: 0 <= n < j ==> items[n] == ReplaceItems(xs, oldValue, newValue)[n]
      invariant forall n :: j <= n < |items| ==> items[n] == xs[n]
    {
      if items[j].Node? {
        var h := ReplaceValuesIn(items[j].entries, oldValue, newValue);
        items := items[j := Node(h)];
      } else {
        // `item = new_value if item == old_value` rebinds the block's
        // variable only: the array is left as it is
        var item := items[j];
        if Equal(item, oldValue) {
          item := newValue;
        }
      }
      j := j + 1;
    }
  }

  // ---------------------------------------------------------------------------
  // The object.

  class HashTree {
    /** `@hash`: a hash, or nil once `compact!` has emptied it. */
    var root: Value

    /** The root is a well-formed hash, or nil after `compact!`. */
    ghost predicate Valid()
      reads this
    {
      (root.Node? && EntriesWellFormed(root.entries)) || root == Nil
    }

    /** `HashTree.new(hash)`: anything but a hash gives an empty tree. */
    constructor(v: Value)
      requires WellFormed(v)
      ensures Valid() && root.Node?
      ensures root == if v.Node? then v else Node([])
    {
      root := if v.Node? then v else Node([]);
    }

    /** `empty?`: no key at all. */
    function IsEmpty(): (r: bool)
      reads this
      requires root.Node?
      ensures r <==> forall k :: !HasKey(root.entries, k)
    {
      NoKeyIffEmpty(root.entries);
      root.entries == []
    }

    /** `set(path, value, options)`. */
    method Set(path: string, value: Value, opts: Options)
      requires Valid() && root.Node? && Split(path) != [] && WellFormed(value)
      modifies this
      ensures Valid() && root == Node(SetTree(old(root).entries, path, value, opts))
    {
      if opts.acceptNil || Truthy(value) {
        var r := SetChildrenIn(root.entries, Split(path), value, opts);
        SetChildrenWellFormed(root.entries, Split(path), value, opts);
        root := Node(r);
      }
    }

    /** `remove(path, options)`, with `opts` the caller's options merged over
        `RemoveOptions`. */
    method Remove(path: string, opts: Options)
      requires Valid() && root.Node?
      modifies this
      ensures Valid() && root == Node(Setting.Remove(old(root).entries, path, opts))
    {
      if Exists(root.entries, path) && opts.acceptNil {
        var r := SetChildrenIn(root.entries, Split(path), Nil, opts);
        SetChildrenWellFormed(root.entries, Split(path), Nil, opts);
        root := Node(r);
      }
    }

    /** `insert(path, content)`. */
    method Insert(path: string, content: Value)
      requires Valid() && root.Node? && Split(path) != [] && WellFormed(content)
      modifies this
      ensures Valid() && root == Node(Setting.Insert(old(root).entries, path, content))
    {
      var cur := Get(root.entries, path, Str(""), NoForce);
      GetWellFormed(root.entries, path);
      if cur.List? {
        cur := List(cur.items + AsList(content));
      }
      Set(path, cur, Options([], [], false, true));
    }

    /** `rename_key!(path, new_name)`. */
    method RenameKey(path: string, newName: string)
      requires Valid() && root.Node?
      modifies this
      ensures Valid() && root == Node(Renaming.RenameKey(old(root).entries, Split(path), newName))
    {
      var r := RenameKeyIn(root.entries, Split(path), newName);
      RenameWellFormed(root.entries, Split(path), newName);
      root := Node(r);
    }

    /** `merge(other_hash)`, for a hash that merges without a Ruby error. */
    method Merge(other: seq<Entry>)
      requires Valid() && root.Node? && EntriesWellFormed(other) && Mergeable(root.entries, other)
      modifies this
      ensures Valid() && root == Node(MergeChildren(old(root).entries, other))
    {
      var r := MergeChildrenIn(root.entries, other);
      MergeWellFormed(root.entries, other);
      root := Node(r);
    }

    /** `compact!`: the root may become nil. */
    method CompactBang()
      requires Valid() && root.Node?
      modifies this
      ensures Valid() && root == Compact(old(root).entries)
    {
      var h := CompactHashIn(root.entries);
      CompactWellFormed(root.entries);
      root := if h == [] then Nil else Node(h);
    }

    /** `replace_values!(old_value, new_value)`. */
    method ReplaceValues(oldValue: Value, newValue: Value)
      requires Valid() && root.Node? && WellFormed(newValue)
      modifies this
      ensures Valid() && root == Node(ReplaceEntries(old(root).entries, oldValue, newValue))
    {
      var r := ReplaceValuesIn(root.entries, oldValue, newValue);
      ReplaceWellFormed(root.entries, oldValue, newValue);
      root := Node(r);
    }

    /** `slash(path)`: a new tree rooted at what `get(path)` finds. */
    method Slash(path: string) returns (t: HashTree)
      requires Valid() && root.Node?
      ensures fresh(t) && t.Valid() && t.root == Node(Queries.Slash(root.entries, path))
    {
      SlashWellFormed(root.entries, path);
      t := new HashTree(Node(Queries.Slash(root.entries, path)));
    }

    /** `slash!(path)`: this tree re-rooted in place. */
    method SlashBang(path: string)
      requires Valid() && root.Node?
      modifies this
      ensures Valid() && root == Node(Queries.Slash(old(root).entries, path))
    {
      var t := Slash(path);
      root := t.root;
    }
  }
}
