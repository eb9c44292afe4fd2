# hash-tree in Dafny

A model of `HashTree`, the path-addressed tree from the Ruby library
`hash-tree`, with proofs about it. A `HashTree` wraps a Ruby hash with string
keys kept in insertion order. Its values are scalars, nested hashes or
arrays: the shape a JSON, XML or YAML parser produces. Callers address the
tree with dotted paths such as `books.formats.nature`. Arrays are broadcast:
a segment applies to every hash element of an array, so list indices never
appear in a path.

## Layout

- `values.dfy` (module `Values`) defines the tree.
  - `Value` is `Nil | Bool | Int | Str | Node(seq<Entry>) | List(seq<Value>)`.
  - A hash is a sequence of `Entry(key, value)` pairs in insertion order.
  - Ruby's `hash[k]` is `At`, which gives nil when the key is absent.
  - `hash[k] = v` is `Put`: an existing key keeps its place, a new key is appended.
  - `hash.delete(k)` is `Delete`.
  - `WellFormed` says keys are unique in every hash.
  - Ruby truthiness is `Truthy`, and Ruby `==` is `Equal`, which ignores key order in hashes.
- `paths.dfy` (`Paths`) models `String#split('.')`, which drops trailing empty fields, and `Array#join('.')`. It also holds `in_scope?`, a character-prefix test written with a `^` anchor, and `String#chop`.
- `traversal.dfy` (`Traversal`) models the block-yielding walks.
  - `each` and `each_node` become functions that return the sequence of their yields.
- `queries.dfy` (`Queries`) models the read-only queries: `get` (with `:default` and `:force => Array`), `exists?`, `children` and `slash`.
- `conditions.dfy` (`Conditions`) models the `:if` / `:unless` predicates of `check_conditions` and `check_mixed_conditions`.
  - They are given as pure predicates.
  - They are also given as loop methods proved to compute those predicates.
- Each mutator is specified as a function on the tree value:
  - `setting.dfy`: `set`, `set_children`, `set_children_node`, `remove` and `insert`.
  - `renaming.dfy`: `rename_key!`.
  - `merging.dfy`: `merge_children`.
  - `compacting.dfy`: `compact`, `compact_array` and `compact_simple_hash`.
  - `replacing.dfy`: `replace_values!`.
- `hashtree.dfy` (`HashTrees`) is the imperative side.
  - Loop and recursive methods that rebuild hashes pair by pair, as the Ruby code does. Each is proved equal to its specification function.
  - The class `HashTree`, whose field `root` is reassigned by `set`, `remove`, `insert`, `rename_key!`, `merge`, `compact!`, `replace_values!` and `slash!`. Each of these keeps the invariant `Valid` (a well-formed tree).
- `scenarios.dfy`, `compact_scenarios.dfy` and `walk_scenarios.dfy` restate the repository's own examples as lemmas. They cover the books fixtures of `get`, `exists?` and `compact!`, and the shapes of the `each` and `each_node` examples.

The quirks of the Ruby code are kept:
- For paths without `^`, `in_scope?` is a character-prefix test, so `a` is in scope of `ab`.
- A scoped `each` also yields the scalars it meets above the scope, so `get` can read a value where `exists?` is false.
- `replace_values!` never changes scalar array elements.
- `compact` leaves an emptied hash inside an array as `{}`. An emptied hash or array under a key becomes nil, so its key goes, and `compact!` can turn the root into nil.
- A one-segment `remove` stores nil under the key instead of deleting it.
- `rename_key!` re-adds the renamed key after the scan, so it ends up last when `new_name` was not already a key; an existing `new_name` is overwritten where it stands.

## Model

| member | source | states |
|---|---|---|
| Values.AsList | lib/hash-tree.rb:406-408 | an array is its own element list; any other value is a one-element list |
| Values.At | lib/hash-tree.rb:429 | a lookup of a key the hash lacks gives nil |
| Values.Put | lib/hash-tree.rb:431 | after `hash[k] = v` the key is present and holds `v`; every other key keeps its value and presence; an existing key keeps the length, a new one is appended at the end |
| Values.PutInPlace | lib/hash-tree.rb:275 | writing an existing key replaces that pair where it stands and leaves every other pair alone |
| Values.Delete | lib/hash-tree.rb:247 | after `hash.delete(k)` the key is gone, every other key keeps its value and presence, and no pair is invented |
| Values.PutUnique | lib/hash-tree.rb:431 | assignment keeps keys unique |
| Values.DeleteUnique | lib/hash-tree.rb:247 | deletion keeps keys unique |
| Values.EqualReflexive | lib/hash-tree.rb:271 | Ruby `==` holds between a well-formed value and itself |
| Values.PutSame | lib/hash-tree.rb:431 | writing back the value a key already holds changes nothing |
| Values.EqualUpToKeyOrder | lib/hash-tree.rb:380 | two well-formed hashes of the same size in which every key of the first holds the same value in the second are `==`, whatever the order of their pairs |
| Values.EqualIgnoresKeyOrder | lib/hash-tree.rb:380 | an instance: two pairs swapped are `==` although the pair sequences differ |
| Values.Flatten | lib/hash-tree.rb:65 | `flatten` leaves no array among the elements |
| Values.FlattenItemsOfFlat | lib/hash-tree.rb:65 | flattening a list with no arrays in it returns it unchanged |
| Paths.SplitIsSegments | lib/hash-tree.rb:142 | the fields of `split('.')` hold no dot and the last is never empty |
| Paths.SplitJoin | lib/hash-tree.rb:152 | splitting a joined list of segments gives the segments back, so re-splitting `path_parts[1..-1].join('.')` recurses on the tail |
| Paths.JoinAppend | lib/hash-tree.rb:84-85 | the dotted key path of a concatenation is the two dotted paths joined by a dot |
| Paths.InScopeIsPrefix | lib/hash-tree.rb:420-422 | for a scope without `^`, `in_scope?` holds exactly when the target is a character prefix of the scope |
| Paths.InScopeCharacterPrefix | lib/hash-tree.rb:420-422 | key `a` is in scope of `ab`, key `b` is not |
| Paths.JoinPrefixInScope | lib/hash-tree.rb:420-422 | every proper dotted prefix of a path is in scope of that path and differs from it |
| Paths.Chop | lib/hash-tree.rb:64 | `chop` gives a prefix of the name: two characters shorter when it ends in `"\r\n"`, otherwise one character shorter, and `""` for `""` |
| Traversal.EachIsOwnedAndInScope | lib/hash-tree.rb:80-101 | for any scope, every yield of `each` carries a hash that holds the yielded key with the yielded value, or with an array that contains it, and a key path in scope |
| Traversal.EachYieldsExactlyTheLeaves | lib/hash-tree.rb:80-101 | without a scope, a visit is yielded exactly when it is a leaf: its hash is reached from the root through the keys of its path (through hashes and the hash elements of arrays), its key is the last segment of its path, and its value is a non-hash element of what that key holds |
| Traversal.EachUnscopedYieldsNoHash | lib/hash-tree.rb:91-96 | without a scope no hash is ever yielded: hashes are walked into |
| Traversal.EachYieldsWellFormed | lib/hash-tree.rb:80-101 | on a well-formed tree every yielded owner and value is well-formed |
| Traversal.EachNodeYieldsTruthyTerminals | lib/hash-tree.rb:104-133 | the values `each_node` yields are exactly the truthy values reached by following the path through hashes and the hash elements of arrays, in walk order |
| Traversal.EachNodeParents | lib/hash-tree.rb:111-120 | every `each_node` yield maps each consumed dotted prefix to a hash holding that prefix's last key, and the full path to the hash holding the yielded value under the last segment |
| Queries.CastArrayIdempotent | lib/hash-tree.rb:344-351 | the `Array` cast always gives an array, leaves an array alone and is idempotent |
| Queries.ExistsEmptyPath | lib/hash-tree.rb:139-160 | an empty path exists nowhere |
| Queries.ExistsIffTerminals | lib/hash-tree.rb:139-160 | `exists?` holds exactly when following the path through hashes and the hash elements of arrays reaches at least one value |
| Queries.ExistsIsCollected | lib/hash-tree.rb:139-174 | whenever a path exists, the scoped walk behind `get` finds at least one value |
| Queries.GetExistingForced | lib/hash-tree.rb:162-174 | `get` with `:force => Array` on an existing path returns an array |
| Queries.CollectIsTerminals | lib/hash-tree.rb:162-168 | along a plain path (no scalar above its end, no other key whose dotted path is a character prefix of it), what `get` collects is exactly the values the path reaches through hashes and the hash elements of arrays, in walk order |
| Queries.GetReadsTerminals | lib/hash-tree.rb:162-174 | along a plain path, `get` gives the default when the path reaches nothing or a single nil, the single reached value, or the array of all reached values |
| Queries.ExistsIffGetNotDefault | lib/hash-tree.rb:139-174 | along a plain path, for a default that no reached value equals, `get` answers something other than the default exactly when `exists?` holds |
| Queries.SlashAtSingleHash | lib/hash-tree.rb:287-296 | along a plain path that reaches exactly one hash, held directly or as the only element of an array, `slash` re-roots the tree at that hash |
| Queries.GetReadsScalarAbovePath | lib/hash-tree.rb:87-96 | a scalar met above the path is what `get` returns, although `exists?` is false there |
| Queries.Children | lib/hash-tree.rb:63-69 | `children` returns no arrays among its elements |
| Queries.ChildrenOfCollection | lib/hash-tree.rb:63-69 | when `hash[name][name.chop]` is an array of non-arrays, `children` is that array |
| Queries.ChildrenOfSingle | lib/hash-tree.rb:63-69 | when `hash[name][name.chop]` is a truthy non-array, `children` is that one value |
| Queries.ChildrenMissing | lib/hash-tree.rb:63-69 | `children` of a missing name is empty |
| Queries.GetWellFormed | lib/hash-tree.rb:162-174 | what `get` returns from a well-formed tree is well-formed |
| Queries.SlashWellFormed | lib/hash-tree.rb:287-296 | `slash` gives a well-formed tree, and the whole tree when the path does not exist |
| Queries.SlashAtOnlyKey | lib/hash-tree.rb:287-296 | slashing at the only key of the root re-roots at the hash it holds |
| Conditions.Index | lib/hash-tree.rb:366-369 | indexing a hash is a key lookup; a non-nil result from anything else is the substring lookup of `String#[]` |
| Conditions.MapIndex | lib/hash-tree.rb:366 | an array maps the segment over each of its elements, keeping the length |
| Conditions.Found | lib/hash-tree.rb:378-380 | the count of accepted elements never exceeds the array's length and is positive exactly when some element is accepted |
| Conditions.UnlessNegatesIf | lib/hash-tree.rb:377-394 | a single `unless` condition holds exactly when the same `if` condition fails; with no conditions the mixed check holds |
| Conditions.HoldsOnEntry | lib/hash-tree.rb:359-369 | the first segment of a condition key is dropped; a two-segment `if` condition on a hash holds exactly when its non-array entry under the second segment is accepted |
| Conditions.WalkValue | lib/hash-tree.rb:363-375 | the loop over the remaining segments computes the walked value |
| Conditions.CheckConditions | lib/hash-tree.rb:353-395 | returns true exactly when every condition holds |
| Conditions.CheckCondition | lib/hash-tree.rb:356-390 | returns true exactly when the one condition holds for its kind |
| Conditions.CountFound | lib/hash-tree.rb:378-380 | the counting loop computes the number of accepted elements |
| Conditions.CheckMixedConditions | lib/hash-tree.rb:397-404 | returns true exactly when every `if` and every `unless` condition holds |
| Setting.SetChildren | lib/hash-tree.rb:438-460 | `set_children` changes no key other than the first segment's |
| Setting.SetItems | lib/hash-tree.rb:450-453 | over an array, the hash elements are descended into one by one and every other element is left as it is |
| Setting.Reject | lib/hash-tree.rb:465 | `delete_if` keeps exactly the elements on which the conditions fail |
| Setting.RejectAll | lib/hash-tree.rb:465 | with no conditions `delete_if` empties the array |
| Setting.SetChildrenWellFormed | lib/hash-tree.rb:438-460 | `set_children` keeps a well-formed tree well-formed |
| Setting.SetItemsWellFormed | lib/hash-tree.rb:450-453 | broadcasting over an array keeps it well-formed |
| Setting.SetChildrenNodeWellFormed | lib/hash-tree.rb:462-473 | `set_children_node` keeps a well-formed hash well-formed |
| Setting.SetWritesEveryTerminal | lib/hash-tree.rb:438-460 | without conditions, every value the path reaches after `set` is the new value |
| Setting.SetItemsWritesEveryTerminal | lib/hash-tree.rb:450-453 | the same, for the hash elements of an array |
| Setting.SetThenLookup | lib/hash-tree.rb:281-285 | without conditions and without arrays on the path, the path reaches exactly one value after `set`: the new one |
| Setting.ListFreeTerminals | lib/hash-tree.rb:438-460 | without an array on the path, the path reaches at most one value |
| Setting.TerminalsThroughValue | lib/hash-tree.rb:438-448 | past a non-array value, the path reaches what it reaches inside it when it is a hash, and nothing otherwise |
| Setting.SetChildrenSame | lib/hash-tree.rb:438-460 | without conditions and arrays on the path, `set_children` storing the value the path already reaches changes nothing |
| Setting.SetOwnValueBack | lib/hash-tree.rb:281-285 | `set(path, get(path))` (with `get` at lines 162-174) leaves the tree unchanged when the path exists, is plain, holds no array on the way and does not end in nil |
| Setting.SetRefusesNil | lib/hash-tree.rb:284 | with `:accept_nil => false` a nil or false value leaves the tree unchanged |
| Setting.SetGuardedByParent | lib/hash-tree.rb:458 | at the last segment the value is stored exactly when the conditions hold on the parent hash; otherwise nothing changes |
| Setting.RemoveMissing | lib/hash-tree.rb:234 | removing a path that does not exist changes nothing |
| Setting.RemoveRefusedWithoutAcceptNil | lib/hash-tree.rb:231-235 | `remove` with `:accept_nil => false` changes nothing, since `set` refuses the nil it is given |
| Setting.RemoveKeepingLeafStoresNil | lib/hash-tree.rb:231-235 | `remove` with `:remove_leaf => false` and no conditions stores nil at an existing array-free path, which then reaches exactly nil |
| Setting.RemoveOneSegmentStoresNil | lib/hash-tree.rb:231-235 | a one-segment `remove` keeps the key, with nil as its value, and the hash keeps its size |
| Setting.RemoveClears | lib/hash-tree.rb:462-469 | without conditions, a removal of two or more segments leaves nothing reachable at the path |
| Setting.RemoveClearsItems | lib/hash-tree.rb:450-453 | the same, through the hash elements of an array |
| Setting.RemoveClearsNode | lib/hash-tree.rb:462-469 | the same, one level down in `set_children_node` |
| Setting.RemovedPathIsGone | lib/hash-tree.rb:231-235 | after an unconditional `remove` of two or more segments the path no longer exists |
| Setting.RemoveGrowsMissingBranch | lib/hash-tree.rb:448 | during `remove`, a branch that lacks the intermediate key still receives `{}` under it |
| Setting.InsertAppends | lib/hash-tree.rb:194-206 | when `get` finds an array, `insert` sets the path to that array extended by the content's elements |
| Setting.InsertOnMissingStoresEmptyString | lib/hash-tree.rb:194-206 | when `get` finds nothing, `insert` sets the path to the default `''` and the content is lost |
| Renaming.RenameItems | lib/hash-tree.rb:249 | the hash elements of an array are renamed in, every other element is left alone |
| Renaming.RenameValueShape | lib/hash-tree.rb:249 | renaming keeps the element list of a value and renames inside each hash element |
| Renaming.RenameOneKey | lib/hash-tree.rb:244-254 | a one-segment rename moves the value to `new_name`, which ends up last when `new_name` was not already a key (an existing `new_name` is overwritten where it stands); the old key is gone; other keys are untouched; a missing key changes nothing |
| Renaming.RenameOntoExistingKey | lib/hash-tree.rb:244-254 | renaming onto a key the hash already has overwrites that key where it stands: the result is the hash without the old key, with the moved value in the place of `new_name` |
| Renaming.RenameRoundTrip | lib/hash-tree.rb:237-255 | renaming a key away and back restores every lookup, with the key moved to the end |
| Renaming.RenamePathRoundTrip | lib/hash-tree.rb:237-255 | renaming along a dotted path and back is `==` to the original tree at every depth, through the arrays on the way, when the new name is free in every hash the path reaches at its end |
| Renaming.RenameValuePathRoundTrip | lib/hash-tree.rb:249 | the same, for the value under the first segment |
| Renaming.DeleteLength | lib/hash-tree.rb:247 | deleting a key present once takes exactly one pair off |
| Renaming.RenamedPathGone | lib/hash-tree.rb:237-255 | after `rename_key!` to a different name the old path no longer exists |
| Renaming.RenamedPathPresent | lib/hash-tree.rb:237-255 | after `rename_key!` the path with its last segment replaced by the new name exists |
| Renaming.RenameWellFormed | lib/hash-tree.rb:237-255 | renaming keeps a well-formed tree well-formed |
| Merging.MergeChildren | lib/hash-tree.rb:424-436 | keys the incoming hash lacks keep their value, and the result has exactly the keys of both |
| Merging.MergeLookup | lib/hash-tree.rb:428-431 | every incoming key ends up with the merge of its old and incoming value: nested hashes merge, otherwise the incoming value wins |
| Merging.MergeIntoEmpty | lib/hash-tree.rb:424-436 | merging into a hash with disjoint keys appends the incoming pairs in order |
| Merging.MergeSubset | lib/hash-tree.rb:424-436 | merging pairs the hash already holds changes nothing |
| Merging.MergeSelf | lib/hash-tree.rb:424-436 | merging a well-formed hash into itself is the identity |
| Merging.MergeWellFormed | lib/hash-tree.rb:424-436 | merging keeps a well-formed tree well-formed |
| Compacting.DropFalsy | lib/hash-tree.rb:340-342 | `delete_if { not v }` keeps exactly the pairs with a truthy value |
| Compacting.DropNils | lib/hash-tree.rb:335 | `compact!` on an array keeps exactly the non-nil elements |
| Compacting.Compact | lib/hash-tree.rb:328-330 | `compact` gives nil exactly when the compacted hash is empty, and the compacted hash otherwise |
| Compacting.CompactItems | lib/hash-tree.rb:334 | compacting the hash elements of an array keeps its length |
| Compacting.CompactEntriesCompacted | lib/hash-tree.rb:317-331 | after `compact` no hash holds a nil or false value, no key holds an empty hash or array, and no array under a key holds nil; hashes inside arrays are compacted the same way |
| Compacting.CompactValueCompacted | lib/hash-tree.rb:317-338 | the same, for a single value |
| Compacting.CompactArrayCompacted | lib/hash-tree.rb:333-338 | the same, for `compact_array` |
| Compacting.CompactedFixed | lib/hash-tree.rb:317-331 | compacting a hash already compacted changes nothing |
| Compacting.CompactValueFixed | lib/hash-tree.rb:317-338 | compacting a truthy compacted value changes nothing |
| Compacting.DropFalsyNone | lib/hash-tree.rb:341 | `delete_if` on a hash with no falsy value changes nothing |
| Compacting.DropNilsNone | lib/hash-tree.rb:335 | `compact!` on an array without nils changes nothing |
| Compacting.CompactIdempotent | lib/hash-tree.rb:76-78 | calling `compact!` twice is calling it once |
| Compacting.CompactKeeps | lib/hash-tree.rb:320-328 | a key survives exactly when its compacted value is truthy; truthy scalars survive unchanged; no key is invented |
| Compacting.DropFalsyUnique | lib/hash-tree.rb:341 | `delete_if` keeps keys unique |
| Compacting.CompactWellFormed | lib/hash-tree.rb:317-331 | compacting keeps a well-formed tree well-formed |
| Compacting.CompactToNil | lib/hash-tree.rb:330 | a hash whose only value is nil, or a hash that becomes empty, compacts to nil |
| Compacting.CompactArrayKeepsEmptiedHash | lib/hash-tree.rb:334 | a hash inside an array that empties stays in the array as `{}` |
| Compacting.CompactArrayOfNils | lib/hash-tree.rb:335-337 | an array of nils compacts to nil |
| Replacing.ReplaceItems | lib/hash-tree.rb:262-268 | replacing in an array keeps its length |
| Replacing.ReplaceEntries | lib/hash-tree.rb:257-279 | every key keeps its place |
| Replacing.ReplaceRemovesOld | lib/hash-tree.rb:257-279 | afterwards no hash holds a scalar `old_value` (the only kind `replace_values!` replaces) as a direct value, provided `new_value` does not bring it back |
| Replacing.ReplaceAbsent | lib/hash-tree.rb:257-279 | replacing a value that no hash holds changes nothing |
| Replacing.ReplaceRoundTrip | lib/hash-tree.rb:257-279 | swapping a scalar for one no hash held, then swapping back, restores the tree |
| Replacing.ReplaceKeepsListScalars | lib/hash-tree.rb:262-267 | scalar array elements are never replaced, `old_value` included; hash elements stay hashes |
| Replacing.NilBecomesEmptyString | lib/hash-tree.rb:24 | `replace_values!(nil, '')` turns a nil under a key into `''` and leaves a nil inside an array |
| Replacing.ReplaceWellFormed | lib/hash-tree.rb:257-279 | replacing keeps a well-formed tree well-formed |
| HashTrees.SetChildrenIn | lib/hash-tree.rb:438-460 | the assigning implementation of `set_children` computes `SetChildren` |
| HashTrees.SetChildrenNodeIn | lib/hash-tree.rb:462-473 | the implementation of `set_children_node`, deletions included, computes `SetChildrenNode` |
| HashTrees.DeleteIf | lib/hash-tree.rb:465 | the filtering loop computes `Reject` |
| HashTrees.RenameKeyIn | lib/hash-tree.rb:237-255 | the delete-then-`merge!` loop computes `RenameKey` |
| HashTrees.RenameValueIn | lib/hash-tree.rb:249 | renaming within each element of a value computes `RenameValue` |
| HashTrees.MergeChildrenIn | lib/hash-tree.rb:424-436 | the assigning loop computes `MergeChildren` |
| HashTrees.CompactHashIn | lib/hash-tree.rb:317-331 | the assigning loop followed by `compact_simple_hash` computes `CompactEntries` |
| HashTrees.CompactSimpleHash | lib/hash-tree.rb:340-342 | the `delete_if` loop computes `DropFalsy` |
| HashTrees.CompactArrayIn | lib/hash-tree.rb:333-338 | the element loop followed by `compact!` computes `CompactArray` |
| HashTrees.ReplaceValuesIn | lib/hash-tree.rb:257-279 | the assigning loop computes `ReplaceEntries` |
| HashTrees.ReplaceValueIn | lib/hash-tree.rb:260-275 | the value written back under one key is `ReplaceValue` |
| HashTrees.ReplaceItemsIn | lib/hash-tree.rb:262-268 | the element loop computes `ReplaceItems` |
| HashTrees.HashTree.constructor | lib/hash-tree.rb:8-12 | the tree holds the given hash, or `{}` for anything else |
| HashTrees.HashTree.IsEmpty | lib/hash-tree.rb:135-137 | `empty?` holds exactly when no key is present |
| HashTrees.HashTree.Set | lib/hash-tree.rb:281-285 | the root becomes `SetTree` of the old root, and stays well-formed |
| HashTrees.HashTree.Remove | lib/hash-tree.rb:231-235 | with any options merged over the defaults of `remove`, the root becomes `Remove` of the old root, and stays well-formed |
| HashTrees.HashTree.Insert | lib/hash-tree.rb:194-206 | the root becomes `Insert` of the old root, and stays well-formed |
| HashTrees.HashTree.RenameKey | lib/hash-tree.rb:237-255 | the root becomes `RenameKey` of the old root along the split path, and stays well-formed |
| HashTrees.HashTree.Merge | lib/hash-tree.rb:227-229 | the root becomes `MergeChildren` of the old root and the incoming hash, and stays well-formed |
| HashTrees.HashTree.CompactBang | lib/hash-tree.rb:76-78 | the root becomes `Compact` of the old root, which may be nil, and stays well-formed |
| HashTrees.HashTree.ReplaceValues | lib/hash-tree.rb:257-279 | the root becomes `ReplaceEntries` of the old root, and stays well-formed |
| HashTrees.HashTree.Slash | lib/hash-tree.rb:287-296 | returns a new well-formed tree rooted at `Slash` of the root |
| HashTrees.HashTree.SlashBang | lib/hash-tree.rb:298-300 | the root becomes `Slash` of the old root, and stays well-formed |
| Scenarios.EachBooksTitle | spec/hash-tree_spec.rb:212-213 | on the books fixture the walk scoped to `books.title` yields only the title `Don Quixote` |
| Scenarios.GetBooksTitle | spec/hash-tree_spec.rb:213-214 | `get('books.title')` is `"Don Quixote"`, and `["Don Quixote"]` with `:force => Array` |
| Scenarios.EachBooksFormats | spec/hash-tree_spec.rb:215 | the walk scoped to `books.formats` yields the formats array once, raw |
| Scenarios.GetBooksFormats | spec/hash-tree_spec.rb:215 | `get('books.formats')` is the array of the two format hashes |
| Scenarios.EachBooksFormatsNature | spec/hash-tree_spec.rb:216 | the walk scoped to `books.formats.nature` yields `pdf` then `epub`, each with its own hash |
| Scenarios.GetBooksFormatsNature | spec/hash-tree_spec.rb:216 | `get('books.formats.nature')` is `['pdf', 'epub']` |
| Scenarios.GetBooksName | spec/hash-tree_spec.rb:217-218 | `get('books.name')` is `''`, and nil with `:default => nil` |
| Scenarios.ExistsPricedTitle | spec/hash-tree_spec.rb:205 | `books.title` exists in the priced fixture |
| Scenarios.ExistsPricedFormatsPrice | spec/hash-tree_spec.rb:206 | `books.formats.price` exists, through two arrays |
| Scenarios.ExistsPricedUnknown | spec/hash-tree_spec.rb:207 | `books.unknown` does not exist |
| CompactScenarios.CompactSteppenwolf | spec/hash-tree_spec.rb:88 | compacting the Steppenwolf book drops the nil format and keeps the rest in order |
| CompactScenarios.CompactUntitled | spec/hash-tree_spec.rb:88 | the book whose only title is nil compacts to an empty hash |
| CompactScenarios.CompactBooks | spec/hash-tree_spec.rb:88-89 | `compact!` on the fixture keeps three books, the untitled one as `{}` |
| CompactScenarios.GetCompactedTitles | spec/hash-tree_spec.rb:91 | after compaction `get('books.title')` is `['Don Quixote', 'Steppenwolf']` |
| CompactScenarios.GetCompactedFormats | spec/hash-tree_spec.rb:92 | after compaction `get('books.formats')` is `['pdf', 'epub']` |
| CompactScenarios.CompactThenGet | spec/hash-tree_spec.rb:88-92 | `compact!` then `get` gives both expected results |
| WalkScenarios.EachListOfScalars | spec/hash-tree_spec.rb:115-116 | each scalar of an array is yielded in order with the owning hash, the key and the array's own key path |
| WalkScenarios.EachEmptyYieldsNothing | spec/hash-tree_spec.rb:102 | an empty hash inside an array, and an empty array, yield nothing |
| WalkScenarios.EachNestedHash | spec/hash-tree_spec.rb:118-119 | a nested hash is walked with itself as owner and the joined key path |
| WalkScenarios.EachNodeMissing | spec/hash-tree_spec.rb:147-151 | `each_node` yields nothing for an empty path or a missing first key |
| WalkScenarios.EachNodePastScalar | spec/hash-tree_spec.rb:154 | `each_node` yields nothing for a path that goes on past a scalar |
| WalkScenarios.EachNodeTop | spec/hash-tree_spec.rb:157-159 | a one-segment `each_node` yields the value once, with the root as its only parent |

## Left out

- `from_json`, `from_json_path`, `from_xml`, `from_xml_path` and `from_yml_path` are left out. They are JSON, XML and YAML parsing plus file reads. Their only tree step, `replace_values!(nil, '')`, is modelled (`NilBecomesEmptyString`).
- `checksum`, `to_json`, `to_yaml` and `keys_to_s!` are left out: serialisation and MD5.
- `inspect` is left out: display text.
- `clone_tree` is left out. It is a deep copy, and on values it is the identity.
- `method_missing` and `id` are left out: dynamic dispatch. `id` is `get('id')`.
- The `force` casts to `String` and `HashTree` are left out. They rely on Ruby's `to_s` and on object wrapping. Only the `Array` cast is modelled.
- Object identity is not modelled. Values are immutable, so nothing captures aliasing: `slash` handing back the same `@hash` object, or `insert` mutating the array that `get` returned.
- A tree whose root became nil through `compact!` accepts no further operation. The methods of `HashTree` require a hash root.
- Ruby exceptions are not modelled. Where `check_conditions` indexes an array element that is neither a hash nor a string (nil, an integer, a boolean, a nested array), Ruby raises; the model reads nil.
- Queries.Children: requires `ChildrenDefined`. It excludes a truthy `hash[name]` that is neither a hash nor a string, where Ruby would raise.
- HashTrees.HashTree.Merge: requires `Mergeable`. It excludes a non-empty incoming hash meeting a truthy non-hash value, where Ruby would raise, or would splice into a String (`"kettle"["k"] = "b"` gives `"bettle"`).
- HashTrees.HashTree.Merge: a nil incoming hash merges like an empty one and is not a separate input. Passing another `HashTree` is passing its root hash.
- Setting.SetTree: requires a path with at least one segment. `set('')` would write a nil key, which the model does not represent.
- Queries.Exists, Renaming.RenameKey and Setting.SetChildren recurse on the list of segments instead of re-joining and re-splitting the path at each level. `Paths.SplitJoin` shows that the two agree.
- Setting.SetThenLookup: states the single resulting value only when no array lies on the path. With arrays, `Setting.SetWritesEveryTerminal` states that every reached value is the new one.
- Queries.CollectIsTerminals, Queries.GetReadsTerminals, Queries.ExistsIffGetNotDefault, Queries.SlashAtSingleHash and Setting.SetOwnValueBack: stated for plain paths only. Off a plain path, `get` also reads scalars met above the path (`Queries.GetReadsScalarAbovePath`) and values under keys that are character prefixes of the path.
- Traversal.EachYieldsExactlyTheLeaves: characterises the unscoped walk as a set of visits, not how often each visit comes. Two equal hashes under one key give equal visits.
- Renaming.RenamePathRoundTrip: states Ruby `==`, not identity: each renamed key moves to the end of its hash. It requires the new name to be free wherever the path ends; where it is not, the first rename overwrites it and nothing restores it.
- Setting.RemoveClears: proved for removals without `:if` / `:unless` conditions. With conditions, the leaf deletion is what `Setting.Reject` and `Setting.SetGuardedByParent` state.
- The RSpec fixtures `with_books_fixture` and `with_book_fixture` are not part of this model. The `rename_key!`, `replace_values!`, `slash` and `slash!` examples built on them are covered by the general lemmas on those operations.
