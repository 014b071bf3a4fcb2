/** The admin book table: the catalog loaded from the server, deleted from
    one book at a time by numeric id, shown five (or 10, 15, 20) rows per
    page with numbered rows, a "Showing" caption and previous / next
    buttons. */
module Inventory {
  import opened JsArray
  import opened Pagination
  import opened Records

  /** The page size the table starts with. */
  const InitialPerPage := 5

  /** How `fetch('/api/books')` ended: a response with `response.ok` and
      its body, a response that is not ok, or a thrown error. */
  datatype BooksFetch = FetchedOk(data: seq<Book>) | FetchedNotOk | FetchThrew

  /** `fetchBooks`: only an ok response replaces the table; both failures
      leave it as it was (and show a toast). */
  function FetchBooks(books: seq<Book>, reply: BooksFetch): (r: seq<Book>)
    ensures reply.FetchedOk? ==> r == reply.data
    ensures !reply.FetchedOk? ==> r == books
  {
    if reply.FetchedOk? then reply.data else books
  }

  /** The table after a series of fetches (the one on mount and the ones
      after each delete), each applied to the table the previous left. */
  function FetchAll(books: seq<Book>, replies: seq<BooksFetch>): seq<Book>
    decreases |replies|
  {
    if |replies| == 0 then books
    else FetchBooks(FetchAll(books, replies[..|replies| - 1]), replies[|replies| - 1])
  }

  /** The table always holds the list of the latest ok response, or the
      original list when no response was ok. */
  lemma {:induction false} LatestOkFetchWins(books: seq<Book>, replies: seq<BooksFetch>)
    ensures (forall i :: 0 <= i < |replies| ==> !replies[i].FetchedOk?) ==>
      FetchAll(books, replies) == books
    ensures forall i :: 0 <= i < |replies| && replies[i].FetchedOk?
                        && (forall j :: i < j < |replies| ==> !replies[j].FetchedOk?) ==>
      FetchAll(books, replies) == replies[i].data
    decreases |replies|
  {
    if |replies| > 0 {
      var n := |replies| - 1;
      var init := replies[..n];
      LatestOkFetchWins(books, init);
      assert FetchAll(books, replies) == FetchBooks(FetchAll(books, init), replies[n]);
      assert forall i :: 0 <= i < n ==> init[i] == replies[i];
    }
  }

  /** `books.filter(book => book.id !== id)` */
  function RemoveBook(books: seq<Book>, id: int): (r: seq<Book>)
    ensures IsSubsequence(r, books)
    ensures forall b :: b in r ==> b in books && b.id != id
    ensures forall b :: b in books && b.id != id ==> multiset(r)[b] == multiset(books)[b]
  {
    Without(books, BookId, id)
  }

  /** Whether the "Are you sure?" dialog was confirmed. */
  datatype Confirmation = Confirm | Decline

  /** How `DELETE /api/books/{id}` ended. A response that is not ok makes
      the handler throw its error message. */
  datatype DeleteResponse = DeleteOk | DeleteNotOk | DeleteThrew

  datatype Notice = Quiet | DeletedNotice | ErrorNotice

  datatype DeleteOutcome = DeleteOutcome(books: seq<Book>, notice: Notice)

  /** `handleDeleteClick(id)`: after an ok response the book is filtered
      out of the table and the list is then fetched again; `refetch` is how
      that second fetch ended. */
  function HandleDeleteClick(books: seq<Book>, id: int, confirmation: Confirmation,
                             response: DeleteResponse, refetch: BooksFetch): (r: DeleteOutcome)
    ensures confirmation.Decline? ==> r == DeleteOutcome(books, Quiet)
    ensures confirmation.Confirm? && !response.DeleteOk? ==> r == DeleteOutcome(books, ErrorNotice)
    ensures confirmation.Confirm? && response.DeleteOk? ==> r.notice == DeletedNotice
    ensures confirmation.Confirm? && response.DeleteOk? && refetch.FetchedOk? ==> r.books == refetch.data
    ensures confirmation.Confirm? && response.DeleteOk? && !refetch.FetchedOk? ==>
      && IsSubsequence(r.books, books)
      && (forall b :: b in r.books ==> b in books && b.id != id)
      && (forall b :: b in books && b.id != id ==> multiset(r.books)[b] == multiset(books)[b])
  {
    match confirmation
    case Decline => DeleteOutcome(books, Quiet)
    case Confirm =>
      if response.DeleteOk? then DeleteOutcome(FetchBooks(RemoveBook(books, id), refetch), DeletedNotice)
      else DeleteOutcome(books, ErrorNotice)
  }

  /** When the refetch fails, the table holds exactly the books without that
      id: removing the id again changes nothing, and a book with another id
      is never lost. */
  lemma DeleteWithoutRefetch(books: seq<Book>, id: int, refetch: BooksFetch)
    requires !refetch.FetchedOk?
    ensures var r := HandleDeleteClick(books, id, Confirm, DeleteOk, refetch).books;
      RemoveBook(r, id) == r
      && forall b :: b in books ==> (b in r <==> b.id != id)
  {
    var r := HandleDeleteClick(books, id, Confirm, DeleteOk, refetch).books;
    WithoutAbsent(r, BookId, id);
  }

  /** The "Show entries" select as written: only the page size changes, so
      the table stays on whatever page it was showing. */
  function ChangeEntries(s: PageState, perPage: int): (r: PageState)
    ensures r.perPage == perPage && r.page == s.page
  {
    s.(perPage := perPage)
  }

  /** Finding: after a larger page size the old page number can lie past the
      last page, and the table then shows no row although books remain. */
  lemma ChangeEntriesCanEmptyTable(books: seq<Book>, s: PageState, perPage: int)
    requires 1 <= s.page && 1 <= perPage
    ensures var r := ChangeEntries(s, perPage);
      CurrentItems(books, r) == [] <==> (s.page - 1) * perPage >= |books|
  {
    PageEmptyIff(books, s.page, perPage);
  }

  /** A concrete instance: 30 books, on page 6 at 5 per page (rows 26-30),
      switched to 10 per page: the table has 3 pages and shows nothing. */
  lemma ChangeEntriesExample(books: seq<Book>)
    requires |books| == 30
    ensures |CurrentItems(books, PageState(6, InitialPerPage))| == 5
    ensures var r := ChangeEntries(PageState(6, InitialPerPage), 10);
      TotalPages(|books|, 10) == 3 && CurrentItems(books, r) == []
  {
    PageEmptyIff(books, 6, 10);
  }

  /** The select with the page reset the other list views perform. */
  function ChangeEntriesFixed(s: PageState, perPage: int): (r: PageState)
    ensures r == ChangePerPage(s, perPage)
  {
    PageState(1, perPage)
  }

  /** With the reset, a page-size change never empties a table that has
      books: it shows the first rows. */
  lemma FixedEntriesShowFirstRows(books: seq<Book>, s: PageState, perPage: int)
    requires 1 <= perPage
    ensures var r := ChangeEntriesFixed(s, perPage);
      CurrentItems(books, r) == books[..Min(perPage, |books|)]
      && (|books| > 0 ==> CurrentItems(books, r) != [])
  {
    ChangePerPageShowsFirstRows(books, s, perPage);
  }
}
