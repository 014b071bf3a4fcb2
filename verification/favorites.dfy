/** The favorites store shared by the catalog and the favorites page: a
    list of books, replaced wholesale by a fetch and changed one book at a
    time by a toggle. Every change is applied only after the server request
    it depends on has succeeded. */
module Favorites {
  import opened JsArray
  import opened Records

  /** `favorites.some(book => book._id === bookId)` */
  function IsFavorite(favorites: seq<Book>, bookId: string): (r: bool)
    ensures r <==> exists i :: 0 <= i < |favorites| && favorites[i].docId == bookId
  {
    if |favorites| == 0 then false
    else if favorites[0].docId == bookId then true
    else
      var r := IsFavorite(favorites[1..], bookId);
      assert forall i :: 1 <= i < |favorites| ==> favorites[i] == favorites[1..][i - 1];
      r
  }

  /** How the server answered a favorites request. */
  datatype Outcome = Succeeded | RequestFailed

  /** The request a toggle sends, if any. */
  datatype Request =
    | NoRequest
    | DeleteFavorite(userId: string, bookId: string)
    | AddFavorite(userId: string, bookId: string)

  datatype Toggled = Toggled(favorites: seq<Book>, sent: Request)

  /** The list without the given book: `filter(fav => fav._id !== bookId)`. */
  function WithoutBook(favorites: seq<Book>, bookId: string): (r: seq<Book>)
    ensures forall b :: b in r <==> b in favorites && b.docId != bookId
    ensures IsSubsequence(r, favorites)
    ensures forall b :: b in favorites && b.docId != bookId ==> multiset(r)[b] == multiset(favorites)[b]
    ensures !IsFavorite(r, bookId)
  {
    Without(favorites, BookDocId, bookId)
  }

  /** `toggleFavorite(book)`. `userId` is the stored user id (`None` when
      absent); `outcome` is how the server answered the request sent. */
  function Toggle(favorites: seq<Book>, userId: Option<string>, book: Book, outcome: Outcome): (r: Toggled)
    ensures (userId.None? || userId.value == "") ==> r == Toggled(favorites, NoRequest)
    ensures outcome.RequestFailed? ==> r.favorites == favorites
    ensures r.sent.DeleteFavorite? <==> userId.Some? && userId.value != "" && IsFavorite(favorites, book.docId)
    ensures r.sent.AddFavorite? <==> userId.Some? && userId.value != "" && !IsFavorite(favorites, book.docId)
    ensures !r.sent.NoRequest? ==> r.sent.userId == userId.value && r.sent.bookId == book.docId
    ensures r.sent.DeleteFavorite? && outcome.Succeeded? ==>
      !IsFavorite(r.favorites, book.docId) && IsSubsequence(r.favorites, favorites)
      && (forall b :: b in r.favorites <==> b in favorites && b.docId != book.docId)
      && (forall b :: b in favorites && b.docId != book.docId ==>
            multiset(r.favorites)[b] == multiset(favorites)[b])
    ensures r.sent.AddFavorite? && outcome.Succeeded? ==>
      |r.favorites| == |favorites| + 1 && r.favorites[..|favorites|] == favorites
      && r.favorites[|favorites|] == book
  {
    if userId.None? || userId.value == "" then Toggled(favorites, NoRequest)
    else if IsFavorite(favorites, book.docId) then
      var sent := DeleteFavorite(userId.value, book.docId);
      if outcome.Succeeded? then Toggled(WithoutBook(favorites, book.docId), sent)
      else Toggled(favorites, sent)
    else
      var sent := AddFavorite(userId.value, book.docId);
      if outcome.Succeeded? then Toggled(favorites + [book], sent)
      else Toggled(favorites, sent)
  }

  /** A successful toggle by a logged-in user flips the book's membership. */
  lemma ToggleFlipsMembership(favorites: seq<Book>, userId: string, book: Book)
    requires userId != ""
    ensures IsFavorite(Toggle(favorites, Some(userId), book, Succeeded).favorites, book.docId)
         == !IsFavorite(favorites, book.docId)
  {
    var r := Toggle(favorites, Some(userId), book, Succeeded).favorites;
    if !IsFavorite(favorites, book.docId) {
      assert r[|favorites|].docId == book.docId;
    }
  }

  /** Adding a book that was not a favorite and then removing it again,
      both requests succeeding, gives back exactly the original list. */
  lemma AddThenRemove(favorites: seq<Book>, userId: string, book: Book)
    requires userId != "" && !IsFavorite(favorites, book.docId)
    ensures var added := Toggle(favorites, Some(userId), book, Succeeded).favorites;
      Toggle(added, Some(userId), book, Succeeded).favorites == favorites
  {
    var added := favorites + [book];
    assert added[|favorites|].docId == book.docId;
    WithoutAppended(favorites, BookDocId, book);
  }

  /** How the favorites fetch ended: the response body, or an error. */
  datatype Fetched = FetchOk(data: seq<Book>) | FetchError

  /** `fetchFavorites(userId)`: a successful response replaces the list
      wholesale; an error leaves it as it was. */
  function Fetch(favorites: seq<Book>, response: Fetched): (r: seq<Book>)
    ensures response.FetchOk? ==> r == response.data
    ensures response.FetchError? ==> r == favorites
    ensures forall id :: IsFavorite(r, id) ==> IsFavorite(favorites, id) || response.FetchOk?
  {
    if response.FetchOk? then response.data else favorites
  }

  /** The store's state right after mounting: empty, then filled by a fetch
      only when a user id is stored. */
  function OnMount(userId: Option<string>, response: Fetched): (r: seq<Book>)
    ensures (userId.None? || userId.value == "") ==> r == []
    ensures userId.Some? && userId.value != "" && response.FetchOk? ==> r == response.data
    ensures response.FetchError? ==> r == []
  {
    if userId.Some? && userId.value != "" then Fetch([], response) else []
  }

  /** After a successful fetch a book is a favorite exactly when the
      server's list holds an entry with its id. */
  lemma FetchedFavorites(favorites: seq<Book>, data: seq<Book>, id: string)
    ensures IsFavorite(Fetch(favorites, FetchOk(data)), id) <==> exists b :: b in data && b.docId == id
  {
    if IsFavorite(data, id) {
      var i :| 0 <= i < |data| && data[i].docId == id;
      assert data[i] in data;
    }
  }

  /** The first toggle after mounting, by a logged-in user, deletes exactly
      when the store was filled at mount by a fetch whose list holds the
      book; in every other case it adds. */
  lemma FirstToggleAfterMount(stored: Option<string>, response: Fetched, userId: string,
                              book: Book, outcome: Outcome)
    requires userId != ""
    ensures var sent := Toggle(OnMount(stored, response), Some(userId), book, outcome).sent;
      && (sent.DeleteFavorite? <==>
            && stored.Some? && stored.value != "" && response.FetchOk?
            && exists b :: b in response.data && b.docId == book.docId)
      && (sent.AddFavorite? <==> !sent.DeleteFavorite?)
  {
    if stored.Some? && stored.value != "" && response.FetchOk? {
      FetchedFavorites([], response.data, book.docId);
    }
  }
}
