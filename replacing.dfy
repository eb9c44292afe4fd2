/** What `replace_values!` does to a tree. The imperative version in the
    HashTrees module is proved to compute exactly this. */
module Replacing {
  import opened Values

  /** The value `replace_values!` writes back under a key: a hash is replaced
      in recursively; an array keeps its elements, but each hash element is
      replaced in (the block only rebinds its local for the others, so a
      scalar element equal to `old_value` stays); a scalar equal to `old_value` becomes
      `new_value`. */
  function ReplaceValue(v: Value, oldValue: Value, newValue: Value): Value
    decreases Size(v), 1
  {
    if v.List? then List(ReplaceItems(v.items, oldValue, newValue))
    else if v.Node? then Node(ReplaceEntries(v.entries, oldValue, newValue))
    else if Equal(v, oldValue) then newValue
    else v
  }

  function ReplaceItems(xs: seq<Value>, oldValue: Value, newValue: Value): (r: seq<Value>)
    ensures |r| == |xs|
    decreases ItemsSize(xs), 0
  {
    seq(|xs|, j requires 0 <= j < |xs| => if xs[j].Node? then Node(ReplaceEntries(xs[j].entries, oldValue, newValue)) else xs[j])
  }

  /** `replace_values!(old_value, new_value, hash)`: every key keeps its place. */
  function ReplaceEntries(es: seq<Entry>, oldValue: Value, newValue: Value): (r: seq<Entry>)
    ensures Keys(r) == Keys(es)
    decreases EntriesSize(es), 0
  {
    seq(|es|, i requires 0 <= i < |es| => Entry(es[i].key, ReplaceValue(es[i].value, oldValue, newValue)))
  }

  /** No hash of the tree holds the scalar `x` as a direct value, at any
      depth (hashes inside arrays included); array elements are not looked
      at. Only scalars are compared, so for a hash or array `x` this holds
      trivially, as `replace_values!` never replaces those. */
  ghost predicate NoDirect(es: seq<Entry>, x: Value)
    decreases EntriesSize(es), 1
  {
    forall i :: 0 <= i < |es| ==> NoDirectValue(es[i].value, x)
  }

  ghost predicate NoDirectValue(v: Value, x: Value)
    decreases Size(v), 0
  {
    match v
    case Node(es) => NoDirect(es, x)
    case List(xs) => forall j :: 0 <= j < |xs| ==> xs[j].Node? ==> NoDirect(xs[j].entries, x)
    case _ => !Equal(v, x)
  }

  /** After the replacement no hash holds a scalar `old_value` as a direct value,
      provided `new_value` does not bring it back (a scalar `new_value` only
      has to differ from `old_value`). */
  lemma {:induction false} ReplaceRemovesOld(es: seq<Entry>, oldValue: Value, newValue: Value)
    requires NoDirectValue(newValue, oldValue)
    ensures NoDirect(ReplaceEntries(es, oldValue, newValue), oldValue)
    decreases EntriesSize(es)
  {
    var r := ReplaceEntries(es, oldValue, newValue);
    forall i | 0 <= i < |es| ensures NoDirectValue(r[i].value, oldValue) {
      ReplaceValueRemovesOld(es[i].value, oldValue, newValue);
    }
  }

  lemma {:induction false} ReplaceValueRemovesOld(v: Value, oldValue: Value, newValue: Value)
    requires NoDirectValue(newValue, oldValue)
    ensures NoDirectValue(ReplaceValue(v, oldValue, newValue), oldValue)
    decreases Size(v)
  {
    if v.List? {
      var r := ReplaceItems(v.items, oldValue, newValue);
      forall j | 0 <= j < |r| && r[j].Node? ensures NoDirect(r[j].entries, oldValue) {
        ReplaceRemovesOld(v.items[j].entries, oldValue, newValue);
      }
    } else if v.Node? {
      ReplaceRemovesOld(v.entries, oldValue, newValue);
    }
  }

  /** Replacing a value that no hash holds changes nothing. */
  lemma {:induction false} ReplaceAbsent(es: seq<Entry>, oldValue: Value, newValue: Value)
    requires NoDirect(es, oldValue)
    ensures ReplaceEntries(es, oldValue, newValue) == es
    decreases EntriesSize(es)
  {
    var r := ReplaceEntries(es, oldValue, newValue);
    forall i | 0 <= i < |es| ensures r[i] == es[i] {
      ReplaceValueAbsent(es[i].value, oldValue, newValue);
    }
  }

  lemma {:induction false} ReplaceValueAbsent(v: Value, oldValue: Value, newValue: Value)
    requires NoDirectValue(v, oldValue)
    ensures ReplaceValue(v, oldValue, newValue) == v
    decreases Size(v)
  {
    if v.List? {
      var r := ReplaceItems(v.items, oldValue, newValue);
      forall j | 0 <= j < |r| ensures r[j] == v.items[j] {
        if v.items[j].Node? {
          ReplaceAbsent(v.items[j].entries, oldValue, newValue);
        }
      }
    } else if v.Node? {
      ReplaceAbsent(v.entries, oldValue, newValue);
    }
  }

  /** A scalar `old_value` swapped for a scalar `new_value` that no hash held is swapped
      back by the reverse replacement. */
  lemma {:induction false} ReplaceRoundTrip(es: seq<Entry>, oldValue: Value, newValue: Value)
    requires Scalar(oldValue) && Scalar(newValue) && NoDirect(es, newValue)
    ensures ReplaceEntries(ReplaceEntries(es, oldValue, newValue), newValue, oldValue) == es
    decreases EntriesSize(es)
  {
    var r := ReplaceEntries(ReplaceEntries(es, oldValue, newValue), newValue, oldValue);
    forall i | 0 <= i < |es| ensures r[i] == es[i] {
      ReplaceValueRoundTrip(es[i].value, oldValue, newValue);
    }
  }

  lemma {:induction false} ReplaceValueRoundTrip(v: Value, oldValue: Value, newValue: Value)
    requires Scalar(oldValue) && Scalar(newValue) && NoDirectValue(v, newValue)
    ensures ReplaceValue(ReplaceValue(v, oldValue, newValue), newValue, oldValue) == v
    decreases Size(v)
  {
    if v.List? {
      var once := ReplaceItems(v.items, oldValue, newValue);
      var r := ReplaceItems(once, newValue, oldValue);
      forall j | 0 <= j < |r| ensures r[j] == v.items[j] {
        if v.items[j].Node? {
          ReplaceRoundTrip(v.items[j].entries, oldValue, newValue);
        }
      }
    } else if v.Node? {
      ReplaceRoundTrip(v.entries, oldValue, newValue);
    }
  }

  /** A value that is neither a hash nor an array. */
  predicate Scalar(v: Value) {
    !v.Node? && !v.List?
  }

  /** Scalar array elements are never replaced: the array keeps its length
      and every non-hash element, `old_value` included. */
  lemma ReplaceKeepsListScalars(xs: seq<Value>, oldValue: Value, newValue: Value)
    ensures var r := ReplaceValue(List(xs), oldValue, newValue);
      r.List? && |r.items| == |xs| &&
      forall j :: 0 <= j < |xs| ==> (xs[j].Node? <==> r.items[j].Node?) && (!xs[j].Node? ==> r.items[j] == xs[j])
  {
  }

  /** The step `from_json` and `from_xml` take, `replace_values!(nil, '')`:
      a nil under a key becomes the empty string, a nil inside an array
      stays nil. */
  lemma NilBecomesEmptyString(k: string, j: string)
    ensures ReplaceEntries([Entry(k, Nil), Entry(j, List([Nil]))], Nil, Str("")) ==
      [Entry(k, Str("")), Entry(j, List([Nil]))]
  {
    assert ReplaceItems([Nil], Nil, Str("")) == [Nil];
  }

  /** Replacing keeps a well-formed tree well-formed. */
  lemma {:induction false} ReplaceWellFormed(es: seq<Entry>, oldValue: Value, newValue: Value)
    requires EntriesWellFormed(es) && WellFormed(newValue)
    ensures EntriesWellFormed(ReplaceEntries(es, oldValue, newValue))
    decreases EntriesSize(es)
  {
    var r := ReplaceEntries(es, oldValue, newValue);
    forall i | 0 <= i < |es| ensures WellFormed(r[i].value) {
      ReplaceValueWellFormed(es[i].value, oldValue, newValue);
    }
    forall i, j | 0 <= i < j < |r| ensures r[i].key != r[j].key {
      assert Keys(r)[i] == Keys(es)[i] && Keys(r)[j] == Keys(es)[j];
    }
  }

  lemma {:induction false} ReplaceValueWellFormed(v: Value, oldValue: Value, newValue: Value)
    requires WellFormed(v) && WellFormed(newValue)
    ensures WellFormed(ReplaceValue(v, oldValue, newValue))
    decreases Size(v)
  {
    if v.List? {
      var r := ReplaceItems(v.items, oldValue, newValue);
      forall j | 0 <= j < |r| ensures WellFormed(r[j]) {
        if v.items[j].Node? {
          ReplaceWellFormed(v.items[j].entries, oldValue, newValue);
        }
      }
    } else if v.Node? {
      ReplaceWellFormed(v.entries, oldValue, newValue);
    }
  }
}
