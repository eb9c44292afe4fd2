/** The shapes the repository's tests of `each` and `each_node` pin down,
    stated on small trees with arbitrary keys. */
module WalkScenarios {
  import opened Values
  import opened Paths
  import opened Traversal
  import opened Scenarios

  /** A one-segment path splits into its only segment. */
  lemma SplitOne(k: string)
    requires k != "" && '.' !in k
    ensures Split(k) == [k]
  {
    SplitRawWord(k);
    assert TrimTrailing([k]) == [k];
  }

  /** The scalar elements of an array value are yielded one by one, each
      with the owning hash, the key and the key path of the array itself. */
  lemma EachListOfScalars(h: seq<Entry>, k: string, a: string, b: string)
    requires h == [Entry(k, List([Str(a), Str(b)]))]
    ensures Each(h, None) == [Visit(h, k, Str(a), k), Visit(h, k, Str(b), k)]
  {
    var items := [Str(a), Str(b)];
    assert [] + [k] == [k] && Join([k]) == k;
    assert items[1..] == [Str(b)] && items[1..][1..] == [];
    assert EachItems(h, k, items[1..], [k], None) == [Visit(h, k, Str(b), k)];
    assert EachItems(h, k, items, [k], None) == [Visit(h, k, Str(a), k), Visit(h, k, Str(b), k)];
    assert h[1..] == [] && EachEntries(h, h[1..], [], None) == [];
    assert AsList(h[0].value) == items && h[0].key == k;
    assert EachEntries(h, h, [], None) == EachItems(h, k, items, [k], None) + [];
  }

  /** Empty hashes and empty arrays yield nothing. */
  lemma EachEmptyYieldsNothing(k: string, j: string)
    ensures Each([Entry(k, List([Node([])]))], None) == []
    ensures Each([Entry(j, List([]))], None) == []
  {
    var h := [Entry(k, List([Node([])]))];
    assert [Node([])][1..] == [] && h[1..] == [];
    assert EachEntries([], [], [k], None) == [];
    assert EachItems(h, k, [Node([])], [k], None) == [] + [];
    assert AsList(h[0].value) == [Node([])] && [] + [k] == [k];
    assert EachEntries(h, h, [], None) == [] + [];
    var g := [Entry(j, List([]))];
    assert g[1..] == [] && AsList(g[0].value) == [];
    assert EachEntries(g, g, [], None) == [] + [];
  }

  /** A nested hash is walked with its own pairs: the owner is the inner
      hash and the key path joins both keys. */
  lemma EachNestedHash(h: seq<Entry>, k: string, j: string, s: string)
    requires h == [Entry(j, Str(s))]
    ensures Each([Entry(k, Node(h))], None) == [Visit(h, j, Str(s), k + "." + j)]
  {
    var root := [Entry(k, Node(h))];
    assert [] + [k] == [k] && [k] + [j] == [k, j];
    assert [k, j][1..] == [j] && Join([k, j]) == k + "." + j;
    assert h[1..] == [] && root[1..] == [];
    assert AsList(Str(s)) == [Str(s)] && [Str(s)][1..] == [];
    assert EachItems(h, j, [Str(s)], [k, j], None) == [Visit(h, j, Str(s), k + "." + j)] + [];
    assert EachEntries(h, h, [k], None) == [Visit(h, j, Str(s), k + "." + j)] + [];
    assert AsList(Node(h)) == [Node(h)] && [Node(h)][1..] == [];
    assert EachItems(root, k, [Node(h)], [k], None) == EachEntries(h, h, [k], None) + [];
    assert EachEntries(root, root, [], None) == EachItems(root, k, [Node(h)], [k], None) + [];
  }

  /** `each_node` yields nothing for an empty path or a missing first key. */
  lemma EachNodeMissing(root: seq<Entry>, path: string)
    requires Split(path) != [] ==> !HasKey(root, Split(path)[0])
    ensures EachNode(root, path) == []
    ensures EachNode(root, "") == []
  {
  }

  /** `each_node` yields nothing for a path that goes on past a scalar. */
  lemma EachNodePastScalar(k: string, j: string, s: Value)
    requires k != "" && j != "" && '.' !in k && '.' !in j
    requires !s.Node? && !s.List?
    ensures EachNode([Entry(k, s)], k + "." + j) == []
  {
    SplitTwo(k + "." + j, k, j);
    assert [k, j][..0] == [] && [] + [k] == [k];
  }

  /** A one-segment `each_node` yields the value once, with the root as the
      only parent, keyed by the segment. */
  lemma EachNodeTop(root: seq<Entry>, k: string)
    requires k != "" && '.' !in k && Truthy(At(root, k))
    ensures EachNode(root, k) == [NodeVisit(map[k := root], At(root, k))]
  {
    SplitOne(k);
    assert [k][..0] == [] && [] + [k] == [k];
  }
}
