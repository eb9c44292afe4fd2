/** Dot-separated paths: Ruby's `String#split('.')`, `Array#join('.')`,
    `String#chop` and the scope test of `in_scope?`. */
module Paths {
  import opened Values

  /** The fields of `s` between dots, before Ruby drops the trailing empty ones. */
  function SplitRaw(s: string): (r: seq<string>)
    ensures |r| >= 1
  {
    if s == [] then [""]
    else
      var rest := SplitRaw(s[1..]);
      if s[0] == '.' then [""] + rest
      else [[s[0]] + rest[0]] + rest[1..]
  }

  /** Drops empty fields at the end, as `split` does without a limit. */
  function TrimTrailing(ps: seq<string>): (r: seq<string>)
    ensures r <= ps
    ensures r == [] || r[|r| - 1] != ""
    decreases |ps|
  {
    if ps != [] && ps[|ps| - 1] == "" then TrimTrailing(ps[..|ps| - 1]) else ps
  }

  /** `s.split('.')`: `""`, `"."` and `"a.."` give `[]`, `[]` and `["a"]`;
      empty fields before the last non-empty one are kept. */
  function Split(s: string): seq<string> {
    TrimTrailing(SplitRaw(s))
  }

  /** `parts.join('.')`. */
  function Join(ps: seq<string>): string
  {
    if ps == [] then "" else if |ps| == 1 then ps[0] else ps[0] + "." + Join(ps[1..])
  }

  /** What `split('.')` can return: no field holds a dot and the last is not empty. */
  predicate Segments(ps: seq<string>) {
    (forall i :: 0 <= i < |ps| ==> '.' !in ps[i]) && (ps == [] || ps[|ps| - 1] != "")
  }

  lemma {:induction false} SplitRawNoDots(s: string)
    ensures forall i :: 0 <= i < |SplitRaw(s)| ==> '.' !in SplitRaw(s)[i]
  {
    if s != [] {
      SplitRawNoDots(s[1..]);
      var rest := SplitRaw(s[1..]);
      if s[0] != '.' {
        assert forall i :: 1 <= i < |SplitRaw(s)| ==> SplitRaw(s)[i] == rest[i];
      } else {
        assert forall i :: 1 <= i < |SplitRaw(s)| ==> SplitRaw(s)[i] == rest[i - 1];
      }
    }
  }

  /** Every result of `Split` is a well-formed segment list. */
  lemma SplitIsSegments(s: string)
    ensures Segments(Split(s))
  {
    SplitRawNoDots(s);
    var r := Split(s);
    assert forall i :: 0 <= i < |r| ==> r[i] == SplitRaw(s)[i];
  }

  /** Joining the fields of a split gives the string back. */
  lemma {:induction false} JoinSplitRaw(s: string)
    ensures Join(SplitRaw(s)) == s
  {
    if s != [] {
      JoinSplitRaw(s[1..]);
      var rest := SplitRaw(s[1..]);
      if s[0] == '.' {
        assert ([""] + rest)[1..] == rest;
      } else if |rest| > 1 {
        assert ([[s[0]] + rest[0]] + rest[1..])[1..] == rest[1..];
        assert s == [s[0]] + s[1..];
      }
    }
  }

  lemma {:induction false} SplitRawWord(w: string)
    requires '.' !in w
    ensures SplitRaw(w) == [w]
  {
    if w != [] {
      SplitRawWord(w[1..]);
      assert w == [w[0]] + w[1..];
    }
  }

  lemma {:induction false} SplitRawWordDot(w: string, rest: string)
    requires '.' !in w
    ensures SplitRaw(w + "." + rest) == [w] + SplitRaw(rest)
  {
    var s := w + "." + rest;
    if w == [] {
      assert s[1..] == rest;
    } else {
      assert s[1..] == w[1..] + "." + rest;
      SplitRawWordDot(w[1..], rest);
      assert w == [w[0]] + w[1..];
    }
  }

  lemma {:induction false} SplitRawJoin(ps: seq<string>)
    requires ps != [] && forall i :: 0 <= i < |ps| ==> '.' !in ps[i]
    ensures SplitRaw(Join(ps)) == ps
  {
    if |ps| == 1 {
      SplitRawWord(ps[0]);
    } else {
      SplitRawJoin(ps[1..]);
      SplitRawWordDot(ps[0], Join(ps[1..]));
    }
  }

  /** Splitting a joined segment list gives the list back: so `exists?`,
      `rename_key!` and `set_children`, which re-join the remaining
      segments and split them again at every level, can be read as
      recursion on the segment list. */
  lemma SplitJoin(ps: seq<string>)
    requires Segments(ps)
    ensures Split(Join(ps)) == ps
  {
    if ps == [] {
      assert SplitRaw("") == [""];
      assert TrimTrailing([""]) == TrimTrailing([]);
    } else {
      SplitRawJoin(ps);
    }
  }

  lemma SegmentsTail(ps: seq<string>)
    requires Segments(ps) && ps != []
    ensures Segments(ps[1..])
  {
  }

  /** `Join` of a concatenation puts one dot between the two halves. */
  lemma {:induction false} JoinAppend(a: seq<string>, b: seq<string>)
    requires a != [] && b != []
    ensures Join(a + b) == Join(a) + "." + Join(b)
  {
    if |a| == 1 {
      assert (a + b)[1..] == b;
    } else {
      assert (a + b)[1..] == a[1..] + b;
      JoinAppend(a[1..], b);
    }
  }

  // ---------------------------------------------------------------------------
  // in_scope?

  /** `haystack.include?(needle)`. */
  predicate Contains(haystack: string, needle: string)
    decreases |haystack|
  {
    needle <= haystack || (haystack != [] && Contains(haystack[1..], needle))
  }

  /** `in_scope?(target, scope)`: no scope, or `"^" + target` occurs in
      `"^" + scope`. */
  predicate InScope(target: string, scope: Option<string>) {
    scope.None? || Contains("^" + scope.value, "^" + target)
  }

  lemma {:induction false} NoCaretNoMatch(haystack: string, t: string)
    requires '^' !in haystack
    ensures !Contains(haystack, "^" + t)
    decreases |haystack|
  {
    if haystack != [] {
      assert haystack[0] != '^';
      NoCaretNoMatch(haystack[1..], t);
    }
  }

  /** When the scope holds no `^`, `in_scope?` is a plain character-prefix
      test: it does not look at dot boundaries. */
  lemma InScopeIsPrefix(target: string, scope: string)
    requires '^' !in scope
    ensures InScope(target, Some(scope)) <==> target <= scope
  {
    var h, n := "^" + scope, "^" + target;
    assert h[1..] == scope;
    NoCaretNoMatch(scope, target);
    if target <= scope {
      assert n <= h;
    }
    if n <= h {
      assert forall i :: 0 <= i < |target| ==> target[i] == n[i + 1] == h[i + 1] == scope[i];
    }
  }

  /** Key `a` is in scope of path `ab`, although `a` is no path segment of it. */
  lemma InScopeCharacterPrefix()
    ensures InScope("a", Some("ab")) && !InScope("b", Some("ab"))
  {
    InScopeIsPrefix("a", "ab");
    InScopeIsPrefix("b", "ab");
    assert "ab"[0] != "b"[0];
  }

  /** Every leading run of segments of a path is in scope of the path, and
      only the whole path equals it. */
  lemma JoinPrefixInScope(ps: seq<string>, d: nat)
    requires 1 <= d <= |ps|
    ensures InScope(Join(ps[..d]), Some(Join(ps)))
    ensures d < |ps| ==> Join(ps[..d]) != Join(ps)
  {
    var p := Join(ps[..d]);
    if d < |ps| {
      JoinAppend(ps[..d], ps[d..]);
      assert ps[..d] + ps[d..] == ps;
      assert |Join(ps)| > |p|;
    } else {
      assert ps[..d] == ps;
    }
    assert p <= Join(ps);
    assert "^" + p <= "^" + Join(ps);
  }

  // ---------------------------------------------------------------------------
  // String#chop

  /** `s.chop`: drops the last character, or a final "\r\n" as a whole. */
  function Chop(s: string): (r: string)
    ensures r <= s
    ensures |s| >= 2 && s[|s| - 2..] == "\r\n" ==> |r| == |s| - 2
    ensures s != "" && !(|s| >= 2 && s[|s| - 2..] == "\r\n") ==> |r| == |s| - 1
    ensures s == "" ==> r == ""
  {
    if |s| >= 2 && s[|s| - 2..] == "\r\n" then s[..|s| - 2]
    else if s == "" then ""
    else s[..|s| - 1]
  }
}
