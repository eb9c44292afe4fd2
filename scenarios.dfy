/** The expectations of the repository's own tests, restated on the model. */
module Scenarios {
  import opened Values
  import opened Paths
  import opened Traversal
  import opened Queries

  /** `{'books' => [{'title' => 'Don Quixote'},
                    {'formats' => [{'nature' => 'pdf'}, {'nature' => 'epub'}]}]}` */
  function Books(): seq<Entry> {
    [Entry("books", List([
      Node([Entry("title", Str("Don Quixote"))]),
      Node([Entry("formats", List([
        Node([Entry("nature", Str("pdf"))]),
        Node([Entry("nature", Str("epub"))])]))])]))]
  }

  function Title(): seq<Entry> { [Entry("title", Str("Don Quixote"))] }
  function Pdf(): Value { Node([Entry("nature", Str("pdf"))]) }
  function Epub(): Value { Node([Entry("nature", Str("epub"))]) }
  function Formats(): seq<Entry> { [Entry("formats", List([Pdf(), Epub()]))] }

  lemma BooksShape()
    ensures Books() == [Entry("books", List([Node(Title()), Node(Formats())]))]
  {
  }

  /** The walk over the two elements of the `books` array is the walk over
      each of them in turn. */
  lemma BooksItems(scope: Option<string>)
    ensures EachItems(Books(), "books", [Node(Title()), Node(Formats())], ["books"], scope) ==
      EachEntries(Title(), Title(), ["books"], scope) + EachEntries(Formats(), Formats(), ["books"], scope)
  {
    var items := [Node(Title()), Node(Formats())];
    assert items[1..] == [Node(Formats())] && items[1..][1..] == [];
  }

  /** The walk over the whole tree, for a scope under `books`. */
  lemma BooksWalk(scope: string)
    requires InScope("books", Some(scope)) && scope != "books"
    ensures Each(Books(), Some(scope)) ==
      EachEntries(Title(), Title(), ["books"], Some(scope)) + EachEntries(Formats(), Formats(), ["books"], Some(scope))
  {
    BooksShape();
    BooksItems(Some(scope));
    assert [] + ["books"] == ["books"];
  }

  lemma TitleWalk()
    ensures EachEntries(Title(), Title(), ["books"], Some("books.title")) ==
      [Visit(Title(), "title", Str("Don Quixote"), "books.title")]
  {
    assert Join(["books", "title"]) == "books.title";
  }

  lemma FormatsOutOfTitle()
    ensures EachEntries(Formats(), Formats(), ["books"], Some("books.title")) == []
  {
    assert Join(["books", "formats"]) == "books.formats";
    InScopeIsPrefix("books.formats", "books.title");
  }

  lemma TitleScope(s: string)
    requires s == "books.title"
    ensures InScope("books", Some(s)) && s != "books"
  {
    InScopeIsPrefix("books", s);
  }

  lemma EachBooksTitle(s: string)
    requires s == "books.title"
    ensures Each(Books(), Some(s)) == [Visit(Title(), "title", Str("Don Quixote"), s)]
  {
    TitleScope(s);
    BooksWalk(s);
    TitleWalk();
    FormatsOutOfTitle();
  }

  lemma GetBooksTitle()
    ensures Get(Books(), "books.title", Str(""), NoForce) == Str("Don Quixote")
    ensures Get(Books(), "books.title", Str(""), ForceArray) == List([Str("Don Quixote")])
  {
    var s := "books.title";
    EachBooksTitle(s);
    GetOne(Books(), s, Visit(Title(), "title", Str("Don Quixote"), s), Str(""));
    assert Collect(Books(), s, ForceArray) == [List([Str("Don Quixote")])];
  }

  lemma FormatsWalk()
    ensures EachEntries(Formats(), Formats(), ["books"], Some("books.formats")) ==
      [Visit(Formats(), "formats", List([Pdf(), Epub()]), "books.formats")]
  {
    assert Join(["books", "formats"]) == "books.formats";
  }

  lemma TitleOutOf(scope: string)
    requires !InScope("books.title", Some(scope))
    ensures EachEntries(Title(), Title(), ["books"], Some(scope)) == []
  {
    assert Join(["books", "title"]) == "books.title";
  }

  lemma FormatsOutOf(scope: string)
    requires !InScope("books.formats", Some(scope))
    ensures EachEntries(Formats(), Formats(), ["books"], Some(scope)) == []
  {
    assert Join(["books", "formats"]) == "books.formats";
  }

  /** `get` answers a lone non-nil match with its value, and two matches
      with the array of both, in walk order. */
  lemma GetOne(root: seq<Entry>, path: string, vis: Visit, default: Value)
    requires path != "" && Each(root, Some(path)) == [vis] && vis.value != Nil
    ensures Get(root, path, default, NoForce) == vis.value
  {
  }

  lemma GetTwo(root: seq<Entry>, path: string, a: Visit, b: Visit, default: Value)
    requires path != "" && Each(root, Some(path)) == [a, b]
    ensures Get(root, path, default, NoForce) == List([a.value, b.value])
  {
  }

  /** `books.formats` is under `books` and not under `books.title`. */
  lemma FormatsScope(s: string)
    requires s == "books.formats"
    ensures InScope("books", Some(s)) && s != "books" && !InScope("books.title", Some(s))
  {
    InScopeIsPrefix("books", s);
    InScopeIsPrefix("books.title", s);
    assert "books.title"[6] != s[6];
  }

  lemma EachBooksFormats(s: string)
    requires s == "books.formats"
    ensures Each(Books(), Some(s)) == [Visit(Formats(), "formats", List([Pdf(), Epub()]), s)]
  {
    FormatsScope(s);
    BooksWalk(s);
    TitleOutOf(s);
    FormatsWalk();
  }

  lemma GetBooksFormats()
    ensures Get(Books(), "books.formats", Str(""), NoForce) == List([Pdf(), Epub()])
  {
    EachBooksFormats("books.formats");
    GetOne(Books(), "books.formats", Visit(Formats(), "formats", List([Pdf(), Epub()]), "books.formats"), Str(""));
  }

  lemma NatureWalk(e: Value, name: string)
    requires e == Node([Entry("nature", Str(name))])
    ensures EachEntries(e.entries, e.entries, ["books", "formats"], Some("books.formats.nature")) ==
      [Visit(e.entries, "nature", Str(name), "books.formats.nature")]
  {
    assert ["books", "formats"] + ["nature"] == ["books", "formats", "nature"];
    assert Join(["books", "formats", "nature"]) == "books.formats.nature";
  }

  lemma FormatsNatureWalk()
    ensures EachEntries(Formats(), Formats(), ["books"], Some("books.formats.nature")) ==
      [Visit(Pdf().entries, "nature", Str("pdf"), "books.formats.nature"),
       Visit(Epub().entries, "nature", Str("epub"), "books.formats.nature")]
  {
    var scope := Some("books.formats.nature");
    assert EachEntries(Formats(), Formats(), ["books"], scope) ==
      EachItems(Formats(), "formats", [Pdf(), Epub()], ["books", "formats"], scope)
    by {
      assert ["books"] + ["formats"] == ["books", "formats"];
      assert Join(["books", "formats"]) == "books.formats";
      InScopeIsPrefix("books.formats", "books.formats.nature");
      WalkThrough(Formats(), ["books"], scope);
    }
    FormatsItems(scope);
    NatureWalk(Pdf(), "pdf");
    NatureWalk(Epub(), "epub");
  }

  /** A one-pair hash whose key path is strictly inside the scope is walked
      by walking its value. */
  lemma WalkThrough(es: seq<Entry>, keyPath: seq<string>, scope: Option<string>)
    requires |es| == 1
    requires InScope(Join(keyPath + [es[0].key]), scope) && scope != Some(Join(keyPath + [es[0].key]))
    ensures EachEntries(es, es, keyPath, scope) ==
      EachItems(es, es[0].key, AsList(es[0].value), keyPath + [es[0].key], scope)
  {
    assert es[1..] == [];
  }

  /** The walk over the two elements of the `formats` array. */
  lemma FormatsItems(scope: Option<string>)
    ensures EachItems(Formats(), "formats", [Pdf(), Epub()], ["books", "formats"], scope) ==
      EachEntries(Pdf().entries, Pdf().entries, ["books", "formats"], scope) +
      EachEntries(Epub().entries, Epub().entries, ["books", "formats"], scope)
  {
    var items := [Pdf(), Epub()];
    assert items[1..] == [Epub()] && items[1..][1..] == [];
  }

  lemma EachBooksFormatsNature(scope: string)
    requires scope == "books.formats.nature"
    requires InScope("books", Some(scope)) && !InScope("books.title", Some(scope))
    ensures Each(Books(), Some(scope)) ==
      [Visit(Pdf().entries, "nature", Str("pdf"), scope),
       Visit(Epub().entries, "nature", Str("epub"), scope)]
  {
    BooksWalk(scope);
    TitleOutOf(scope);
    FormatsNatureWalk();
  }

  lemma NatureScope(s: string)
    requires s == "books.formats.nature"
    ensures InScope("books", Some(s)) && !InScope("books.title", Some(s))
  {
    InScopeIsPrefix("books", s);
    InScopeIsPrefix("books.title", s);
    assert "books.title"[6] != s[6];
  }

  lemma GetBooksFormatsNature()
    ensures Get(Books(), "books.formats.nature", Str(""), NoForce) == List([Str("pdf"), Str("epub")])
  {
    var s := "books.formats.nature";
    NatureScope(s);
    EachBooksFormatsNature(s);
    GetTwo(Books(), s, Visit(Pdf().entries, "nature", Str("pdf"), s), Visit(Epub().entries, "nature", Str("epub"), s), Str(""));
  }

  lemma GetBooksName()
    ensures Get(Books(), "books.name", Str(""), NoForce) == Str("")
    ensures Get(Books(), "books.name", Nil, NoForce) == Nil
  {
    InScopeIsPrefix("books", "books.name");
    BooksWalk("books.name");
    InScopeIsPrefix("books.title", "books.name");
    TitleOutOf("books.name");
    InScopeIsPrefix("books.formats", "books.name");
    FormatsOutOf("books.name");
  }

  /** `{'books' => [{'title' => 'Don Quixote'}, {'formats' => [{'price' => 999}]}]}` */
  function Priced(): seq<Entry> {
    [Entry("books", List([
      Node([Entry("title", Str("Don Quixote"))]),
      Node([Entry("formats", List([Node([Entry("price", Int(999))])]))])]))]
  }

  lemma SplitTwo(path: string, a: string, b: string)
    requires path == a + "." + b && a != "" && b != "" && '.' !in a && '.' !in b
    ensures Split(path) == [a, b]
  {
    SplitJoin([a, b]);
    assert [a, b][1..] == [b];
  }

  lemma SplitThree(path: string, a: string, b: string, c: string)
    requires path == a + "." + b + "." + c && a != "" && b != "" && c != ""
    requires '.' !in a && '.' !in b && '.' !in c
    ensures Split(path) == [a, b, c]
  {
    assert [a, b, c][1..] == [b, c] && [b, c][1..] == [c];
    assert Join([b, c]) == b + "." + c;
    assert Join([a, b, c]) == a + "." + Join([b, c]);
    assert a + "." + b + "." + c == a + "." + (b + "." + c);
    SplitJoin([a, b, c]);
  }

  lemma ExistsPricedTitle()
    ensures Exists(Priced(), "books.title")
  {
    SplitTwo("books.title", "books", "title");
    var books := AsList(Priced()[0].value);
    ExistsInHere(books[0].entries, ["title"], 0);
    assert ["books", "title"][1..] == ["title"];
    ExistsInBelow(Priced(), ["books", "title"], 0, 0);
  }

  lemma ExistsFormatsPrice(e: seq<Entry>)
    requires e == [Entry("formats", List([Node([Entry("price", Int(999))])]))]
    ensures ExistsIn(e, ["formats", "price"])
  {
    var formats := AsList(e[0].value);
    ExistsInHere(formats[0].entries, ["price"], 0);
    assert ["formats", "price"][1..] == ["price"];
    ExistsInBelow(e, ["formats", "price"], 0, 0);
  }

  lemma ExistsInPriced(ps: seq<string>)
    requires ps == ["books", "formats", "price"]
    ensures ExistsIn(Priced(), ps)
  {
    var books := AsList(Priced()[0].value);
    ExistsFormatsPrice(books[1].entries);
    assert ps[1..] == ["formats", "price"];
    ExistsInBelow(Priced(), ps, 0, 1);
  }

  lemma ExistsPricedFormatsPrice()
    ensures Exists(Priced(), "books.formats.price")
  {
    SplitThree("books.formats.price", "books", "formats", "price");
    ExistsInPriced(["books", "formats", "price"]);
  }

  lemma UnknownInPriced(ps: seq<string>)
    requires ps == ["books", "unknown"]
    ensures !ExistsIn(Priced(), ps)
  {
    var books := AsList(Priced()[0].value);
    assert ps[1..] == ["unknown"];
    assert !ExistsIn(books[0].entries, ["unknown"]);
    assert !ExistsIn(books[1].entries, ["unknown"]);
  }

  lemma ExistsPricedUnknown()
    ensures !Exists(Priced(), "books.unknown")
  {
    SplitTwo("books.unknown", "books", "unknown");
    UnknownInPriced(["books", "unknown"]);
  }
}
