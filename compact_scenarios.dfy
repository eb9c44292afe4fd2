/** The expectations of the repository's test of `compact!`, restated on the
    model: compacting a list of books, then reading it back with `get`. */
module CompactScenarios {
  import opened Values
  import opened Paths
  import opened Traversal
  import opened Queries
  import opened Compacting
  import opened Scenarios

  function Quixote(): Value { Node([Entry("title", Str("Don Quixote"))]) }
  function Untitled(): Value { Node([Entry("title", Nil)]) }
  function Steppenwolf(): Value {
    Node([Entry("title", Str("Steppenwolf")), Entry("formats", List([Nil, Str("pdf"), Str("epub")]))])
  }
  function CompactedSteppenwolf(): Value {
    Node([Entry("title", Str("Steppenwolf")), Entry("formats", List([Str("pdf"), Str("epub")]))])
  }

  lemma CompactQuixote()
    ensures CompactEntries(Quixote().entries) == Quixote().entries
  {
    CompactedFixed(Quixote().entries);
  }

  lemma CompactUntitled()
    ensures CompactEntries(Untitled().entries) == []
  {
    var m := [Entry("title", Nil)];
    assert CompactEntries(Untitled().entries) == DropFalsy(m);
    assert m[..0] == [];
  }

  lemma CompactFormats()
    ensures CompactArray([Nil, Str("pdf"), Str("epub")]) == List([Str("pdf"), Str("epub")])
  {
    var xs := [Nil, Str("pdf"), Str("epub")];
    assert CompactItems(xs) == xs;
    assert xs[..2][..1] == [Nil] && xs[..2] == [Nil, Str("pdf")] && xs[..1][..0] == [];
    assert DropNils([Nil]) == [];
    assert DropNils(xs[..2]) == [Str("pdf")];
  }

  lemma CompactSteppenwolf()
    ensures CompactEntries(Steppenwolf().entries) == CompactedSteppenwolf().entries
  {
    var es := Steppenwolf().entries;
    var m := seq(|es|, i requires 0 <= i < |es| => Entry(es[i].key, CompactValue(es[i].value)));
    assert m[1] == CompactedSteppenwolf().entries[1] by { CompactFormats(); }
    assert m == CompactedSteppenwolf().entries;
    DropFalsyNone(m);
  }

  lemma CompactSingle(k: string, v: Value)
    requires Truthy(CompactValue(v))
    ensures CompactEntries([Entry(k, v)]) == [Entry(k, CompactValue(v))]
  {
    var m := [Entry(k, CompactValue(v))];
    assert CompactEntries([Entry(k, v)]) == DropFalsy(m);
    DropFalsyNone(m);
  }

  lemma CompactBookElements(xs: seq<Value>)
    requires xs == [Quixote(), Untitled(), Steppenwolf()]
    ensures CompactItems(xs) == [Quixote(), Node([]), CompactedSteppenwolf()]
  {
    CompactQuixote();
    CompactUntitled();
    CompactSteppenwolf();
    CompactThree(xs, Quixote(), Node([]), CompactedSteppenwolf());
  }

  lemma CompactThree(xs: seq<Value>, a: Value, b: Value, c: Value)
    requires |xs| == 3 && xs[0].Node? && xs[1].Node? && xs[2].Node?
    requires Node(CompactEntries(xs[0].entries)) == a
    requires Node(CompactEntries(xs[1].entries)) == b
    requires Node(CompactEntries(xs[2].entries)) == c
    ensures CompactItems(xs) == [a, b, c]
  {
    var r := CompactItems(xs);
    assert r[0] == a && r[1] == b && r[2] == c;
  }

  lemma CompactBookItems(xs: seq<Value>)
    requires xs == [Quixote(), Untitled(), Steppenwolf()]
    ensures CompactArray(xs) == List([Quixote(), Node([]), CompactedSteppenwolf()])
  {
    CompactBookElements(xs);
    DropNilsNone(CompactItems(xs));
  }

  /** The books keep their order; the untitled one stays as an empty hash,
      and the nil format is dropped. */
  lemma CompactBooks()
    ensures CompactEntries([Entry("books", List([Quixote(), Untitled(), Steppenwolf()]))]) ==
      [Entry("books", List([Quixote(), Node([]), CompactedSteppenwolf()]))]
  {
    CompactBookItems([Quixote(), Untitled(), Steppenwolf()]);
    CompactSingle("books", List([Quixote(), Untitled(), Steppenwolf()]));
  }

  function Shelf(): seq<Entry> { [Entry("books", List([Quixote(), Node([]), CompactedSteppenwolf()]))] }

  lemma ShelfItems(items: seq<Value>, scope: Option<string>)
    requires items == [Quixote(), Node([]), CompactedSteppenwolf()]
    ensures EachItems(Shelf(), "books", items, ["books"], scope) ==
      EachEntries(Title(), Title(), ["books"], scope) +
      EachEntries(CompactedSteppenwolf().entries, CompactedSteppenwolf().entries, ["books"], scope)
  {
    var last := EachEntries(CompactedSteppenwolf().entries, CompactedSteppenwolf().entries, ["books"], scope);
    assert EachItems(Shelf(), "books", items[2..], ["books"], scope) == last by {
      assert items[2..] == [CompactedSteppenwolf()] && items[2..][1..] == [];
    }
    assert EachItems(Shelf(), "books", items[1..], ["books"], scope) == last by {
      assert items[1..][0] == Node([]) && items[1..][1..] == items[2..];
      assert EachEntries([], [], ["books"], scope) == [];
    }
    assert items[0] == Node(Title());
  }

  lemma ShelfWalk(scope: string)
    requires InScope("books", Some(scope)) && scope != "books"
    ensures Each(Shelf(), Some(scope)) ==
      EachEntries(Title(), Title(), ["books"], Some(scope)) +
      EachEntries(CompactedSteppenwolf().entries, CompactedSteppenwolf().entries, ["books"], Some(scope))
  {
    assert [] + ["books"] == ["books"];
    ShelfItems([Quixote(), Node([]), CompactedSteppenwolf()], Some(scope));
  }

  lemma SteppenwolfTitle()
    ensures EachEntries(CompactedSteppenwolf().entries, CompactedSteppenwolf().entries, ["books"], Some("books.title")) ==
      [Visit(CompactedSteppenwolf().entries, "title", Str("Steppenwolf"), "books.title")]
  {
    var es := CompactedSteppenwolf().entries;
    assert Join(["books"] + [es[0].key]) == "books.title" by {
      assert ["books"] + [es[0].key] == ["books", "title"];
    }
    assert !InScope(Join(["books"] + [es[1].key]), Some("books.title")) by {
      assert ["books"] + [es[1].key] == ["books", "formats"];
      assert Join(["books", "formats"]) == "books.formats";
      InScopeIsPrefix("books.formats", "books.title");
      assert "books.formats"[6] != "books.title"[6];
    }
    FirstOnly(es, ["books"], "books.title");
  }

  lemma SteppenwolfFormats()
    ensures EachEntries(CompactedSteppenwolf().entries, CompactedSteppenwolf().entries, ["books"], Some("books.formats")) ==
      [Visit(CompactedSteppenwolf().entries, "formats", List([Str("pdf"), Str("epub")]), "books.formats")]
  {
    var es := CompactedSteppenwolf().entries;
    assert Join(["books"] + [es[1].key]) == "books.formats" by {
      assert ["books"] + [es[1].key] == ["books", "formats"];
    }
    assert !InScope(Join(["books"] + [es[0].key]), Some("books.formats")) by {
      assert ["books"] + [es[0].key] == ["books", "title"];
      assert Join(["books", "title"]) == "books.title";
      FormatsScope("books.formats");
    }
    SecondOnly(es, ["books"], "books.formats");
  }

  /** In a two-pair hash where only the first key path is the scope, the walk
      yields the first pair alone. */
  lemma FirstOnly(es: seq<Entry>, kp: seq<string>, scope: string)
    requires |es| == 2 && Join(kp + [es[0].key]) == scope && !InScope(Join(kp + [es[1].key]), Some(scope))
    ensures EachEntries(es, es, kp, Some(scope)) == [Visit(es, es[0].key, es[0].value, scope)]
  {
    assert es[1..][0] == es[1] && es[1..][1..] == [];
    assert EachEntries(es, es[1..], kp, Some(scope)) == [];
    assert InScope(scope, Some(scope));
  }

  /** In a two-pair hash where only the second key path is the scope, the
      walk yields the second pair alone. */
  lemma SecondOnly(es: seq<Entry>, kp: seq<string>, scope: string)
    requires |es| == 2 && !InScope(Join(kp + [es[0].key]), Some(scope)) && Join(kp + [es[1].key]) == scope
    ensures EachEntries(es, es, kp, Some(scope)) == [Visit(es, es[1].key, es[1].value, scope)]
  {
    assert es[1..][0] == es[1] && es[1..][1..] == [];
    assert InScope(scope, Some(scope));
    assert EachEntries(es, es[1..], kp, Some(scope)) == [Visit(es, es[1].key, es[1].value, scope)];
  }

  /** After `compact!`, the titles are those of the two titled books. */
  lemma GetCompactedTitles()
    ensures Get(Shelf(), "books.title", Str(""), NoForce) == List([Str("Don Quixote"), Str("Steppenwolf")])
  {
    var s := "books.title";
    TitleScope(s);
    ShelfWalk(s);
    TitleWalk();
    SteppenwolfTitle();
    GetTwo(Shelf(), s, Visit(Title(), "title", Str("Don Quixote"), s),
      Visit(CompactedSteppenwolf().entries, "title", Str("Steppenwolf"), s), Str(""));
  }

  /** After `compact!`, the formats are the non-nil ones. */
  lemma GetCompactedFormats()
    ensures Get(Shelf(), "books.formats", Str(""), NoForce) == List([Str("pdf"), Str("epub")])
  {
    var s := "books.formats";
    FormatsScope(s);
    ShelfWalk(s);
    TitleOutOf(s);
    SteppenwolfFormats();
    GetOne(Shelf(), s, Visit(CompactedSteppenwolf().entries, "formats", List([Str("pdf"), Str("epub")]), s), Str(""));
  }

  /** The test of `compact!`: on the three books, `compact!` then `get` gives
      the two titles and the two non-nil formats. */
  lemma CompactThenGet()
    ensures var c := CompactEntries([Entry("books", List([Quixote(), Untitled(), Steppenwolf()]))]);
      && Get(c, "books.title", Str(""), NoForce) == List([Str("Don Quixote"), Str("Steppenwolf")])
      && Get(c, "books.formats", Str(""), NoForce) == List([Str("pdf"), Str("epub")])
  {
    CompactBooks();
    GetCompactedTitles();
    GetCompactedFormats();
  }
}
