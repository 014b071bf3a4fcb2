/** The customer catalog page: the book list loaded from the server, the
    search box that filters it, the eight-per-page grid, and the favorites
    id list the heart button keeps in local storage. */
module Catalog {
  import opened JsArray
  import opened JsString
  import opened Pagination
  import opened Records
  import Favorites

  const BooksPerPage := 8

  /** A book matches a query that is already lower case when its title,
      author or genre, lower-cased, contains the query. */
  predicate Matches(b: Book, query: string)
  {
    Includes(Lower(b.title), query)
    || Includes(Lower(b.authorName), query)
    || Includes(Lower(b.genre), query)
  }

  /** The filter of `handleSearch`: the books matching the lower-cased
      search input, in catalog order. */
  function Search(books: seq<Book>, input: string): (r: seq<Book>)
    ensures forall b :: b in r <==> b in books && Matches(b, Lower(input))
    ensures IsSubsequence(r, books)
    ensures forall b :: b in books && Matches(b, Lower(input)) ==>
      multiset(r)[b] == multiset(books)[b]
  {
    var keep := (b: Book) => Matches(b, Lower(input));
    FilterCounts(books, keep);
    Filter(books, keep)
  }

  /** Stated without `includes`: a book is kept exactly when one of its
      three lower-cased fields has the lower-cased input at some position. */
  lemma SearchKeepsExactly(books: seq<Book>, input: string, b: Book)
    ensures b in Search(books, input) <==>
      b in books &&
      ((exists i :: OccursAt(Lower(b.title), Lower(input), i))
       || (exists i :: OccursAt(Lower(b.authorName), Lower(input), i))
       || (exists i :: OccursAt(Lower(b.genre), Lower(input), i)))
  {
  }

  /** An empty search shows the whole catalog. */
  lemma EmptySearchKeepsAll(books: seq<Book>)
    ensures Search(books, "") == books
  {
    forall b | b in books ensures Matches(b, Lower("")) {
      IncludesEmpty(Lower(b.title));
    }
    FilterAllKept(books, (b: Book) => Matches(b, Lower("")));
  }

  /** The search does not depend on letter case, and searching the result
      again with the same input changes nothing. */
  lemma SearchCaseInsensitiveAndIdempotent(books: seq<Book>, input: string)
    ensures Search(books, Lower(input)) == Search(books, input)
    ensures Search(Search(books, input), input) == Search(books, input)
  {
    LowerIdempotent(input);
    FilterIdempotent(books, (b: Book) => Matches(b, Lower(input)));
  }

  /** The state of the catalog grid. */
  datatype CatalogView = CatalogView(
    books: seq<Book>,
    filtered: seq<Book>,
    searchTerm: string,
    page: int)

  /** The grid's first render: nothing loaded, page 1. */
  const Initial := CatalogView([], [], "", 1)

  /** How `GET /api/books` ended. */
  datatype BooksReply = BooksStatus(status: int, data: seq<Book>) | BooksError

  function LowerGenre(b: Book): Book
  {
    b.(genre := Lower(b.genre))
  }

  /** `fetchBooks`: on status 200 both lists become the server's books with
      their genre lower-cased; anything else leaves the view unchanged. */
  function LoadBooks(v: CatalogView, reply: BooksReply): (r: CatalogView)
    ensures reply.BooksStatus? && reply.status == 200 ==>
      && r.books == r.filtered
      && |r.books| == |reply.data|
      && forall i :: 0 <= i < |r.books| ==>
           r.books[i] == reply.data[i].(genre := Lower(reply.data[i].genre))
    ensures !(reply.BooksStatus? && reply.status == 200) ==> r == v
    ensures r.searchTerm == v.searchTerm && r.page == v.page
  {
    if reply.BooksStatus? && reply.status == 200 then
      var loaded := seq(|reply.data|, i requires 0 <= i < |reply.data| => LowerGenre(reply.data[i]));
      v.(books := loaded, filtered := loaded)
    else v
  }

  /** Lower-casing the genre at load time changes no search result: the
      search lower-cases every field again. */
  lemma LoadedGenreKeepsMatches(b: Book, query: string)
    ensures Matches(LowerGenre(b), query) == Matches(b, query)
  {
    LowerIdempotent(b.genre);
  }

  /** After a 200 reply, a search finds exactly the server's books that
      match, each with its genre lower-cased. */
  lemma LoadedSearchFindsServerMatches(v: CatalogView, data: seq<Book>, input: string)
    ensures var loaded := LoadBooks(v, BooksStatus(200, data)).books;
      forall b :: b in Search(loaded, input) <==>
        exists i :: 0 <= i < |data| && b == LowerGenre(data[i]) && Matches(data[i], Lower(input))
  {
    var loaded := LoadBooks(v, BooksStatus(200, data)).books;
    forall b ensures b in Search(loaded, input) <==>
      exists i :: 0 <= i < |data| && b == LowerGenre(data[i]) && Matches(data[i], Lower(input))
    {
      if b in Search(loaded, input) {
        var i :| 0 <= i < |loaded| && loaded[i] == b;
        LoadedGenreKeepsMatches(data[i], Lower(input));
      }
      if exists i :: 0 <= i < |data| && b == LowerGenre(data[i]) && Matches(data[i], Lower(input)) {
        var i :| 0 <= i < |data| && b == LowerGenre(data[i]) && Matches(data[i], Lower(input));
        LoadedGenreKeepsMatches(data[i], Lower(input));
        assert loaded[i] == b;
      }
    }
  }

  /** The first successful load, before any search, fills the grid's first
      page with the server's first eight books. */
  lemma InitialLoadShowsFirstBooks(data: seq<Book>)
    ensures var shown := CurrentBooks(LoadBooks(Initial, BooksStatus(200, data)));
      && |shown| == Min(BooksPerPage, |data|)
      && forall i :: 0 <= i < |shown| ==> shown[i] == LowerGenre(data[i])
  {
    PageSliceRows(LoadBooks(Initial, BooksStatus(200, data)).filtered, 1, BooksPerPage);
  }

  /** After a 200 reply and a cleared search box, the grid shows the first
      eight books of the server's list. */
  lemma LoadThenClearShowsFirstBooks(v: CatalogView, data: seq<Book>)
    ensures var loaded := LoadBooks(v, BooksStatus(200, data));
      var shown := CurrentBooks(HandleSearchFixed(loaded, ""));
      && |shown| == Min(BooksPerPage, |data|)
      && forall i :: 0 <= i < |shown| ==> shown[i] == LowerGenre(data[i])
  {
    var loaded := LoadBooks(v, BooksStatus(200, data));
    EmptySearchKeepsAll(loaded.books);
    FixedSearchShowsFirstMatches(loaded, "");
  }

  /** `handleSearch` as written: filters the catalog and sets the page to 0. */
  function HandleSearch(v: CatalogView, input: string): (r: CatalogView)
    ensures r.books == v.books && r.page == 0 && r.searchTerm == Lower(input)
    ensures forall b :: b in r.filtered <==> b in v.books && Matches(b, Lower(input))
  {
    CatalogView(v.books, Search(v.books, input), Lower(input), 0)
  }

  /** `handleSearch` with the page reset to the first page, 1, as every other
      page reset in the application does. */
  function HandleSearchFixed(v: CatalogView, input: string): (r: CatalogView)
    ensures r.books == v.books && r.page == 1 && r.searchTerm == Lower(input)
    ensures forall b :: b in r.filtered <==> b in v.books && Matches(b, Lower(input))
  {
    CatalogView(v.books, Search(v.books, input), Lower(input), 1)
  }

  /** `currentBooks`: the cards of the current page. */
  function CurrentBooks(v: CatalogView): (r: seq<Book>)
    ensures |r| <= |v.filtered|
    ensures 1 <= v.page ==> |r| <= BooksPerPage
  {
    PageSlice(v.filtered, v.page, BooksPerPage)
  }

  /** `pageCount`: `Math.ceil(filteredBooks.length / 8)`. */
  function PageCount(v: CatalogView): (r: nat)
    ensures |v.filtered| <= r * BooksPerPage
    ensures 0 < |v.filtered| ==> (r - 1) * BooksPerPage < |v.filtered|
    ensures |v.filtered| == 0 <==> r == 0
  {
    TotalPages(|v.filtered|, BooksPerPage)
  }

  /** `handlePageChange`: the page the pagination control reports. */
  function HandlePageChange(v: CatalogView, value: int): (r: CatalogView)
    ensures r.page == value
    ensures r.books == v.books && r.filtered == v.filtered && r.searchTerm == v.searchTerm
  {
    v.(page := value)
  }

  /** On page `p` from 1 on the grid shows `filtered[(p-1)*8 .. min(p*8, len)]`. */
  lemma CurrentBooksRows(v: CatalogView)
    requires 1 <= v.page
    ensures CurrentBooks(v)
         == v.filtered[Min((v.page - 1) * BooksPerPage, |v.filtered|)..Min(v.page * BooksPerPage, |v.filtered|)]
  {
    PageSliceRows(v.filtered, v.page, BooksPerPage);
  }

  /** Finding: after any keystroke in the search box the grid is empty,
      even when books match, because page 0 slices `filtered.slice(-8, 0)`. */
  lemma SearchShowsNothing(v: CatalogView, input: string)
    ensures CurrentBooks(HandleSearch(v, input)) == []
  {
    PageZeroIsEmpty(HandleSearch(v, input).filtered, BooksPerPage);
  }

  /** A concrete instance: one matching book, and the grid still shows none. */
  lemma SearchShowsNothingExample()
    ensures var b := Book("b1", 1, "Dune", "Frank Herbert", "fiction", 500, 3, "");
      var v := HandleSearch(CatalogView([b], [b], "", 1), "dune");
      v.filtered == [b] && CurrentBooks(v) == []
  {
    var b := Book("b1", 1, "Dune", "Frank Herbert", "fiction", 500, 3, "");
    assert OccursAt(Lower(b.title), Lower("dune"), 0);
    SearchShowsNothing(CatalogView([b], [b], "", 1), "dune");
  }

  /** With the page reset to 1 the grid shows the first eight matches, and
      shows something whenever anything matches. */
  lemma FixedSearchShowsFirstMatches(v: CatalogView, input: string)
    ensures var r := HandleSearchFixed(v, input);
      CurrentBooks(r) == r.filtered[..Min(BooksPerPage, |r.filtered|)]
      && (r.filtered != [] ==> CurrentBooks(r) != [])
  {
    PageSliceRows(HandleSearchFixed(v, input).filtered, 1, BooksPerPage);
  }

  /** The favorites id list the heart button keeps under the `favorites`
      key, decoded (`JSON.parse(...) || []` reads a missing key as []). */
  function StoredIds(mirror: Option<seq<string>>): seq<string>
  {
    if mirror.Some? then mirror.value else []
  }

  function Ids(books: seq<Book>): (r: seq<string>)
    ensures |r| == |books|
    ensures forall i :: 0 <= i < |r| ==> r[i] == books[i].docId
  {
    seq(|books|, i requires 0 <= i < |books| => books[i].docId)
  }

  /** `handleToggleFavorite` for a logged-in user: the id list is updated at
      once, from the favorites list as it was before the toggle, whatever
      the server later answers. */
  function MirrorAfterToggle(mirror: Option<seq<string>>, favorites: seq<Book>, book: Book): (r: seq<string>)
    ensures Favorites.IsFavorite(favorites, book.docId) ==>
      book.docId !in r && IsSubsequence(r, StoredIds(mirror))
      && (forall id :: id in r <==> id in StoredIds(mirror) && id != book.docId)
      && (forall id :: id in StoredIds(mirror) && id != book.docId ==>
            multiset(r)[id] == multiset(StoredIds(mirror))[id])
    ensures !Favorites.IsFavorite(favorites, book.docId) ==>
      r == StoredIds(mirror) + [book.docId]
  {
    var ids := StoredIds(mirror);
    if Favorites.IsFavorite(favorites, book.docId) then Without(ids, Same, book.docId)
    else ids + [book.docId]
  }

  /** When the stored ids were exactly the ids of the favorites list and the
      server accepts the toggle, the ids stay exactly the ids of the new
      favorites list. */
  lemma MirrorTracksSuccessfulToggle(favorites: seq<Book>, userId: string, book: Book)
    requires userId != ""
    ensures MirrorAfterToggle(Some(Ids(favorites)), favorites, book)
         == Ids(Favorites.Toggle(favorites, Some(userId), book, Favorites.Succeeded).favorites)
  {
    if Favorites.IsFavorite(favorites, book.docId) {
      IdsOfFilter(favorites, book.docId);
    } else {
      assert Ids(favorites + [book]) == Ids(favorites) + [book.docId];
    }
  }

  function Same(s: string): string { s }

  lemma {:induction false} IdsOfFilter(books: seq<Book>, id: string)
    ensures Without(Ids(books), Same, id) == Ids(Without(books, BookDocId, id))
  {
    if |books| > 0 {
      var ids := Ids(books);
      var restIds := Without(ids[1..], Same, id);
      var rest := Without(books[1..], BookDocId, id);
      assert ids[1..] == Ids(books[1..]);
      IdsOfFilter(books[1..], id);
      assert restIds == Ids(rest);
      WithoutUnfold(ids, Same, id);
      WithoutUnfold(books, BookDocId, id);
      if books[0].docId != id {
        assert Without(ids, Same, id) == [ids[0]] + restIds;
        assert Without(books, BookDocId, id) == [books[0]] + rest;
        IdsCons(books[0], rest);
      } else {
        assert Without(ids, Same, id) == restIds;
        assert Without(books, BookDocId, id) == rest;
      }
    }
  }

  lemma IdsCons(b: Book, books: seq<Book>)
    ensures Ids([b] + books) == [b.docId] + Ids(books)
  {
  }
}
