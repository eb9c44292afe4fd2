/** The `:if` / `:unless` guards of `set` and `remove`: each condition names
    a dotted path, whose first segment is dropped and whose remaining
    segments are walked down from the tested value, and the value or array
    of values it accepts. */
module Conditions {
  import opened Values
  import opened Paths

  datatype Kind = If | Unless

  /** One pair of a conditions hash: `path => accepted`. */
  datatype Condition = Condition(path: string, accepted: Value)

  /** `item[p]` applied to one element of an array during the walk: a hash
      lookup, Ruby's `String#[]` substring lookup, and nil where Ruby raises. */
  function Index(v: Value, p: string): (r: Value)
    ensures v.Node? ==> r == At(v.entries, p)
    ensures r != Nil ==> v.Node? || r == Str(p)
  {
    if v.Node? then At(v.entries, p)
    else if v.Str? then (if Contains(v.s, p) then Str(p) else Nil)
    else Nil
  }

  /** The segments a condition walks: its path without the first one. */
  function Segs(path: string): seq<string> {
    var ps := Split(path);
    if ps == [] then [] else ps[1..]
  }

  /** The value a condition compares. An array maps the segment over its
      elements; a hash with a non-nil entry descends; anything else gives nil
      and ends the walk. */
  function Walk(v: Value, segs: seq<string>): Value
    decreases |segs|
  {
    if segs == [] then v
    else if v.List? then Walk(List(MapIndex(v.items, segs[0])), segs[1..])
    else if v.Node? && At(v.entries, segs[0]) != Nil then Walk(At(v.entries, segs[0]), segs[1..])
    else Nil
  }

  function MapIndex(items: seq<Value>, p: string): (r: seq<Value>)
    ensures |r| == |items| && forall i :: 0 <= i < |items| ==> r[i] == Index(items[i], p)
  {
    seq(|items|, i requires 0 <= i < |items| => Index(items[i], p))
  }

  /** `equal.include?(x)`, with Ruby `==`. */
  predicate Includes(accepted: seq<Value>, x: Value) {
    exists i :: 0 <= i < |accepted| && Equal(accepted[i], x)
  }

  /** How many elements of an array are accepted. */
  function Found(items: seq<Value>, accepted: seq<Value>): (n: nat)
    ensures n <= |items|
    ensures n > 0 <==> exists i :: 0 <= i < |items| && Includes(accepted, items[i])
  {
    if items == [] then 0
    else
      var rest := Found(items[..|items| - 1], accepted);
      assert forall i :: 0 <= i < |items| - 1 ==> items[..|items| - 1][i] == items[i];
      rest + (if Includes(accepted, items[|items| - 1]) then 1 else 0)
  }

  /** One condition holds: an `if` needs an array to hold some accepted
      value and anything else (nil included) to be one; `unless` needs the
      opposite. */
  predicate Holds(c: Condition, v: Value, kind: Kind) {
    var acc := AsList(c.accepted);
    var cv := Walk(v, Segs(c.path));
    if cv.List? then
      (kind == If ==> Found(cv.items, acc) > 0) && (kind == Unless ==> Found(cv.items, acc) == 0)
    else
      (kind == If ==> Includes(acc, cv)) && (kind == Unless ==> !Includes(acc, cv))
  }

  /** `check_conditions(v, conds, kind)`: every condition holds. */
  predicate ConditionsHold(v: Value, conds: seq<Condition>, kind: Kind) {
    forall i :: 0 <= i < |conds| ==> Holds(conds[i], v, kind)
  }

  /** `check_mixed_conditions`: the `if` and the `unless` conditions all hold. */
  predicate MixedHold(v: Value, ifs: seq<Condition>, unlesses: seq<Condition>) {
    ConditionsHold(v, ifs, If) && ConditionsHold(v, unlesses, Unless)
  }

  /** A single `unless` condition holds exactly when the same `if`
      condition fails, and no conditions always hold. */
  lemma UnlessNegatesIf(c: Condition, v: Value)
    ensures Holds(c, v, Unless) <==> !Holds(c, v, If)
    ensures MixedHold(v, [], [])
  {
  }

  /** On a hash, a two-segment condition compares the entry named by its
      second segment: an `if` holds when that entry is accepted. */
  lemma HoldsOnEntry(w: string, k: string, es: seq<Entry>, accepted: Value)
    requires '.' !in w && '.' !in k && k != ""
    ensures Segs(w + "." + k) == [k]
    ensures !At(es, k).List? ==>
      (Holds(Condition(w + "." + k, accepted), Node(es), If) <==> Includes(AsList(accepted), At(es, k)))
  {
    SplitRawWordDot(w, k);
    SplitRawWord(k);
    assert SplitRaw(w + "." + k) == [w, k];
    assert TrimTrailing([w, k]) == [w, k];
    assert [w, k][1..] == [k] && [k][1..] == [];
    assert Walk(Node(es), [k]) == At(es, k);
  }

  /** The walk as the source runs it: one segment at a time, mapping over an
      array element by element, and stopping at the first dead end. */
  method WalkValue(v: Value, segs: seq<string>) returns (r: Value)
    ensures r == Walk(v, segs)
  {
    r := v;
    var k := 0;
    while k < |segs|
      invariant 0 <= k <= |segs|
      invariant Walk(v, segs) == Walk(r, segs[k..])
    {
      assert segs[k..][1..] == segs[k + 1..];
      if r.List? {
        var values: seq<Value> := [];
        var n := 0;
        while n < |r.items|
          invariant 0 <= n <= |r.items|
          invariant values == MapIndex(r.items[..n], segs[k])
        {
          values := values + [Index(r.items[n], segs[k])];
          n := n + 1;
        }
        assert r.items[..n] == r.items;
        r := List(values);
      } else if r.Node? && At(r.entries, segs[k]) != Nil {
        r := At(r.entries, segs[k]);
      } else {
        r := Nil;
        return;
      }
      k := k + 1;
    }
  }

  /** `check_conditions`: the conditions are tried in order and the first
      one that fails answers false. */
  method CheckConditions(v: Value, conds: seq<Condition>, kind: Kind) returns (ok: bool)
    ensures ok == ConditionsHold(v, conds, kind)
  {
    var i := 0;
    while i < |conds|
      invariant 0 <= i <= |conds|
      invariant forall j :: 0 <= j < i ==> Holds(conds[j], v, kind)
    {
      var holds := CheckCondition(conds[i], v, kind);
      if !holds {
        return false;
      }
      i := i + 1;
    }
    return true;
  }

  /** One pass of the loop of `check_conditions`: walk to the compared
      value, then count the accepted elements of an array or test a single
      value. */
  method CheckCondition(c: Condition, v: Value, kind: Kind) returns (ok: bool)
    ensures ok == Holds(c, v, kind)
  {
    var accepted := AsList(c.accepted);
    var cv := WalkValue(v, Segs(c.path));
    if cv.List? {
      var found := CountFound(cv.items, accepted);
      ok := !(kind == If && found == 0) && !(kind == Unless && found > 0);
    } else {
      ok := !(kind == If && !Includes(accepted, cv)) && !(kind == Unless && Includes(accepted, cv));
    }
  }

  /** `compare_values.each { |v| found += 1 if equal.include?(v) }`. */
  method CountFound(items: seq<Value>, accepted: seq<Value>) returns (found: nat)
    ensures found == Found(items, accepted)
  {
    found := 0;
    var n := 0;
    while n < |items|
      invariant 0 <= n <= |items|
      invariant found == Found(items[..n], accepted)
    {
      assert items[..n + 1][..n] == items[..n];
      if Includes(accepted, items[n]) {
        found := found + 1;
      }
      n := n + 1;
    }
    assert items[..n] == items;
  }

  /** `check_mixed_conditions`: the `if` conditions, then the `unless` ones
      when those passed. */
  method CheckMixedConditions(v: Value, ifs: seq<Condition>, unlesses: seq<Condition>) returns (valid: bool)
    ensures valid == MixedHold(v, ifs, unlesses)
  {
    valid := CheckConditions(v, ifs, If);
    if valid {
      valid := CheckConditions(v, unlesses, Unless);
    }
  }
}
