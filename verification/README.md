# BMS bookstore front-end, modelled in Dafny

This project models the client-side logic of the BMS bookstore, a React
single-page application. Customers browse, search and buy books, keep
favorites and manage their orders. Administrators manage the catalog, read
feedback and review the purchase history.

Each view's state is an immutable Dafny value. Each event handler is a pure
function from the old state and its inputs to the new state. Everything a
handler waits for becomes an explicit parameter: server replies, dialog
answers, stored session keys and clock readings.

Modules:

- `JsArray`, `JsString`: the JavaScript behaviour the views rely on.
  - `Array.prototype.slice`, with negative and out-of-range bounds.
  - `filter`, plus the "remove by key" form `Without`.
  - ASCII `toLowerCase`.
  - `String.prototype.includes`.
- `Records`: the book, address and purchase records the views receive.
- `Forms`: controlled forms, as maps from field name to text.
- `Pagination`: the page arithmetic that every list view repeats.
  - the `slice` of one page;
  - `Math.ceil` page counts;
  - captions and serial numbers;
  - previous/next buttons;
  - the reset on an items-per-page change.
- `PageButtons`: the two page-button rows.
  - the five-button window with ellipses of the orders view;
  - the filtered row with gap ellipses of the notifications view.
- `Auth`: the login flag and its stored session keys.
- `Favorites`: the shared favorites store (fetch, toggle, membership).
- `Catalog`: the customer catalog.
  - book loading;
  - case-insensitive search;
  - the eight-per-page grid;
  - the favorites id list kept in local storage.
- `Purchase`: the "Buy Now" flow.
  - log-in check;
  - address fetch and choice;
  - quantity stepper;
  - stock check;
  - purchase request.
- `Orders`: the customer's orders page (delete dialog, address form, page count).
- `Inventory`: the admin book table (fetch, delete-and-refetch, "Show entries").
- `AddBook`: the admin add-book form (validation, request body, reset).
- `PurchaseHistory`: the admin purchase history.
  - It groups the purchases by user and by title.
  - It is proved against a reference definition written directly over the records.
  - The proof shows quantities are conserved.
- `Notifications`: the admin feedback list load.

## Model

| member | source | states |
|---|---|---|
| JsArray.Slice | src/components/Dasboard/user.jsx:523 | both bounds are resolved by clamping, a negative one counting from the end; the result is exactly the elements from the resolved start up to the resolved end, and empty when the end does not lie past the start |
| JsArray.SliceJoin | src/components/pages/MyOrders.jsx:225-227 | two adjacent slices of the same array join into the slice spanning both |
| JsArray.Filter | src/components/Dasboard/user.jsx:193-197 | `filter` keeps exactly the elements the predicate accepts and never returns more elements than it was given |
| JsArray.FilterCounts | src/components/Dasboard/user.jsx:193-197 | `filter` keeps each accepted element as often as in the input, adds nothing, and keeps input order |
| JsArray.FilterSubsequence | src/components/Dasboard/user.jsx:193-197 | the filtered list is a subsequence of the input: order is kept |
| JsArray.FilterMultiset | src/components/Dasboard/user.jsx:193-197 | the filtered list holds no element more often than the input, and every accepted element exactly as often |
| JsArray.FilterAppend | src/components/pages/Favourite/FavoritesContext.jsx:35-41 | filtering two lists joined is joining their filtered lists |
| JsArray.FilterIdempotent | src/components/Dasboard/user.jsx:193-197 | filtering an already filtered list with the same predicate changes nothing |
| JsArray.Without | src/components/pages/MyOrders.jsx:93 | removing by key: only records whose key differs remain, every such record keeps its multiplicity, and order is kept |
| JsArray.WithoutAppended | src/components/pages/Favourite/FavoritesContext.jsx:35-41 | appending a record with a fresh key and then removing that key gives back the original list |
| JsArray.WithoutAbsent | src/components/Dasboard/BookDetails.jsx:80 | removing a key no record carries leaves the list unchanged |
| JsString.Lower | src/components/Dasboard/user.jsx:191 | lower-casing keeps the length, maps each ASCII capital to the matching small letter, and leaves every other character as it was |
| JsString.LowerIdempotent | src/components/Dasboard/user.jsx:194-196 | lower-casing twice is lower-casing once |
| JsString.Includes | src/components/Dasboard/user.jsx:194-196 | `includes` holds exactly when the sub-string occurs at some position |
| JsString.IncludesEmpty | src/components/Dasboard/user.jsx:193-197 | every text includes the empty string |
| Pagination.PageSlice | src/components/pages/MyOrders.jsx:225-227 | a page never holds more rows than the list or, for a page from 1 on, than the page size |
| Pagination.NeighbourPagesJoin | src/components/pages/MyOrders.jsx:225-227 | page p+1 starts exactly where page p stops: the two pages side by side are the one slice spanning both |
| Pagination.TotalPages | src/components/pages/MyOrders.jsx:228 | the page count is the least number of pages whose rows cover the list, and 0 for an empty list |
| Pagination.PageSliceRows | src/components/Dasboard/BookDetails.jsx:18-20 | page p (from 1) shows rows (p-1)·n up to p·n, cut off at the end of the list |
| Pagination.CurrentItems | src/components/Navbar/Notifications.jsx:36-38 | the rows of a list view's current page are exactly those index rows, at most a page's worth |
| Pagination.PageEmptyIff | src/components/Dasboard/BookDetails.jsx:18-21 | a page from 1 on is empty exactly when the earlier pages already hold the whole list |
| Pagination.PageSizes | src/components/Navbar/Notifications.jsx:36-39 | every page before the last is full, the last holds the non-empty remainder, and pages past the last are empty |
| Pagination.PageZeroIsEmpty | src/components/Dasboard/user.jsx:521-523 | page 0 shows nothing, whatever the list |
| Pagination.PagesCoverList | src/components/Dasboard/purchased_details.jsx:62-66 | pages 1 to the page count, read in order, are the whole list: no row lost or repeated |
| Pagination.CaptionAndSerials | src/components/Dasboard/BookDetails.jsx:168-203 | on an existing page, the "Showing a to b" caption counts exactly the rows shown, and row i's serial number is its 1-based position in the whole list |
| Pagination.ShowingFrom | src/components/Dasboard/BookDetails.jsx:203 | no contract of its own: the caption's first number, `indexOfFirstItem + 1`; CaptionAndSerials states its meaning |
| Pagination.ShowingTo | src/components/Dasboard/BookDetails.jsx:203 | no contract of its own: the caption's second number, `min(indexOfLastItem, length)`; CaptionAndSerials states its meaning |
| Pagination.SerialNumber | src/components/Dasboard/BookDetails.jsx:170 | no contract of its own: a row's serial number; CaptionAndSerials states it is the row's 1-based position in the list |
| Pagination.PrevPage | src/components/Dasboard/BookDetails.jsx:207 | no contract of its own: `Math.max(prev - 1, 1)`; PrevNextStayInRange states its range |
| Pagination.NextPage | src/components/Dasboard/BookDetails.jsx:227 | no contract of its own: `Math.min(prev + 1, totalPages)`; PrevNextStayInRange and NextOnEmptyList state its behaviour |
| Pagination.PrevDisabled | src/components/pages/MyOrders.jsx:408 | no contract of its own: `currentPage === 1`; EnabledButtonsStayInRange states when it holds |
| Pagination.NextDisabled | src/components/pages/MyOrders.jsx:437 | no contract of its own: `currentPage === totalPages`; EnabledButtonsStayInRange states when it holds |
| Pagination.PrevNextStayInRange | src/components/Dasboard/BookDetails.jsx:206-228 | the clamped Previous/Next buttons move one page, never leave 1..totalPages, and stay put exactly at their own end |
| Pagination.NextOnEmptyList | src/components/Dasboard/BookDetails.jsx:227-228 | with no books there is no page, yet Next is enabled on page 1 and moves to page 0 |
| Pagination.EnabledButtonsStayInRange | src/components/pages/MyOrders.jsx:404-437 | the unclamped Previous/Next buttons are disabled exactly when they would leave 1..totalPages |
| Pagination.ChangePerPage | src/components/Navbar/Notifications.jsx:46-49 | an items-per-page change takes the new size and returns to page 1 |
| Pagination.ChangePerPageShowsFirstRows | src/components/pages/MyOrders.jsx:279-282 | after an items-per-page change the view shows the list's first rows, and shows some row whenever the list has one |
| PageButtons.OrderPageNumbers | src/components/pages/MyOrders.jsx:235-277 | up to five pages, every page number in order; more than five, a row that starts with page 1 and ends with the last page |
| PageButtons.WindowStart | src/components/pages/MyOrders.jsx:248-255 | no contract of its own: the middle group's first page; WindowIsThreePages and WindowHoldsCurrent state its properties |
| PageButtons.WindowEnd | src/components/pages/MyOrders.jsx:248-250 | no contract of its own: the middle group's last page; WindowIsThreePages states it is two past the start |
| PageButtons.WindowIsThreePages | src/components/pages/MyOrders.jsx:248-255 | with more than five pages the middle group is always three consecutive pages strictly between the first and the last |
| PageButtons.WindowHoldsCurrent | src/components/pages/MyOrders.jsx:249-255 | the middle group holds the current page unless it is the first or last page, which the end buttons show |
| PageButtons.WindowRow | src/components/pages/MyOrders.jsx:245-273 | the five numbers of a many-page row ascend strictly, lie in 1..totalPages, and include the current page |
| PageButtons.OrderPageNumbersShape | src/components/pages/MyOrders.jsx:245-273 | with more than five pages the row is 1, the window, the last page, with an ellipsis before the window exactly when start > 2 and after it exactly when end < totalPages - 1 |
| PageButtons.FewPagesWellFormed | src/components/pages/MyOrders.jsx:239-243 | up to five pages the row is pages 1..totalPages with no ellipsis |
| PageButtons.ManyPagesWellFormed | src/components/pages/MyOrders.jsx:244-274 | with more than five pages, ellipses stand exactly at gaps and the current page has a button |
| PageButtons.OrderPageNumbersWellFormed | src/components/pages/MyOrders.jsx:235-277 | every row ascends, stays in 1..totalPages, contains the current page, and has ellipses exactly at gaps |
| PageButtons.ShownFrom | src/components/Navbar/Notifications.jsx:205-212 | the filtered page numbers ascend strictly and lie within range |
| PageButtons.ShownPages | src/components/Navbar/Notifications.jsx:205-212 | no contract of its own: the filtered page numbers; ShownPagesExactly states which pages they are |
| PageButtons.NotificationButtons | src/components/Navbar/Notifications.jsx:188-244 | no contract of its own: the row, rendered only for more than one page; NotificationButtonsWellFormed states its shape |
| PageButtons.ShownPagesExactly | src/components/Navbar/Notifications.jsx:205-212 | page m has a button exactly when 1 ≤ m ≤ totalPages and it is the first, the last, or within two of the current page |
| PageButtons.NotificationButtonsWellFormed | src/components/Navbar/Notifications.jsx:188-244 | with more than one page the row shows exactly the selected pages in order, with an ellipsis exactly where consecutive numbers differ by more than one; with one page or none there is no row |
| Auth.Init | src/components/Navbar/AuthContext.jsx:6 | the initial flag is true exactly when a non-empty token is stored |
| Auth.Login | src/components/Navbar/AuthContext.jsx:8-12 | login stores the token and user id, keeps every other key, and sets the flag |
| Auth.Logout | src/components/Navbar/AuthContext.jsx:14-19 | logout removes exactly token, username and user id, keeps every other key, and clears the flag |
| Auth.LoginThenLogout | src/components/Navbar/AuthContext.jsx:8-19 | login then logout leaves storage as before minus the session keys |
| Auth.FlagMatchesReload | src/components/Navbar/AuthContext.jsx:6-19 | after logout, and after a login with a non-empty token, the flag equals what a reload computes from storage |
| Auth.LogoutIdempotent | src/components/Navbar/AuthContext.jsx:14-19 | logging out twice is logging out once |
| Favorites.IsFavorite | src/components/pages/Favourite/FavoritesContext.jsx:48-50 | a book id is a favorite exactly when some list entry carries it |
| Favorites.WithoutBook | src/components/pages/Favourite/FavoritesContext.jsx:35-37 | the removal keeps exactly the entries with another id, in order, each as often as before, and the id is no longer a favorite |
| Favorites.Toggle | src/components/pages/Favourite/FavoritesContext.jsx:27-46 | without a user id nothing is sent; otherwise a delete is sent for a favorite and an add for a non-favorite; the list changes only when the request succeeded, a delete keeping every other entry in order and as often as before, an add appending the book |
| Favorites.ToggleFlipsMembership | src/components/pages/Favourite/FavoritesContext.jsx:31-42 | a successful toggle flips the book's membership |
| Favorites.AddThenRemove | src/components/pages/Favourite/FavoritesContext.jsx:35-41 | adding a non-favorite and then removing it gives back the original list |
| Favorites.Fetch | src/components/pages/Favourite/FavoritesContext.jsx:18-25 | a successful fetch replaces the list; a failed one leaves it |
| Favorites.OnMount | src/components/pages/Favourite/FavoritesContext.jsx:11-16 | on mount the store is empty unless a user id is stored and the fetch succeeds |
| Favorites.FetchedFavorites | src/components/pages/Favourite/FavoritesContext.jsx:18-25 | after a successful fetch a book is a favorite exactly when the server's list holds an entry with its id |
| Favorites.FirstToggleAfterMount | src/components/pages/Favourite/FavoritesContext.jsx:11-46 | the first toggle after mounting deletes exactly when the mount-time fetch ran and returned the book, and adds otherwise |
| Catalog.Search | src/components/Dasboard/user.jsx:190-198 | the search keeps exactly the books whose lower-cased title, author or genre contains the lower-cased input, in catalog order |
| Catalog.SearchKeepsExactly | src/components/Dasboard/user.jsx:191-197 | a book is kept exactly when the lower-cased input occurs at some position of one of its three lower-cased fields |
| Catalog.EmptySearchKeepsAll | src/components/Dasboard/user.jsx:193-197 | an empty search shows the whole catalog |
| Catalog.SearchCaseInsensitiveAndIdempotent | src/components/Dasboard/user.jsx:191-197 | the result does not depend on the input's letter case, and searching the result again changes nothing |
| Catalog.HandleSearch | src/components/Dasboard/user.jsx:190-200 | the search box keeps the catalog, stores the lower-cased input, keeps exactly the matching books, and sets the page to 0 |
| Catalog.HandleSearchFixed | src/components/Dasboard/user.jsx:190-200 | the corrected search box: the same filtering, with the page set to 1 |
| Catalog.HandlePageChange | src/components/Dasboard/user.jsx:526-527 | a page change sets the page to the reported value and leaves the books, the results and the search text alone |
| Catalog.LoadBooks | src/components/Dasboard/user.jsx:94-111 | status 200 loads every book with its genre lower-cased into both lists; anything else leaves the view |
| Catalog.LoadedGenreKeepsMatches | src/components/Dasboard/user.jsx:98-101 | lower-casing the genre at load time changes no search result |
| Catalog.LoadedSearchFindsServerMatches | src/components/Dasboard/user.jsx:94-111 | after a 200 reply a search finds exactly the server's matching books, each with its genre lower-cased |
| Catalog.InitialLoadShowsFirstBooks | src/components/Dasboard/user.jsx:30-111 | from the first render (nothing loaded, page 1) a 200 reply fills the grid with the server's first eight books, in order, before any search |
| Catalog.LoadThenClearShowsFirstBooks | src/components/Dasboard/user.jsx:94-111 | after a 200 reply and an empty search the grid shows the first eight books of the server's list, in order |
| Catalog.CurrentBooks | src/components/Dasboard/user.jsx:521-523 | the grid shows at most eight cards on a page from 1 on |
| Catalog.PageCount | src/components/Dasboard/user.jsx:524 | the page count is the least number of eight-card pages covering the results, and 0 exactly when there is no result |
| Catalog.CurrentBooksRows | src/components/Dasboard/user.jsx:521-523 | page p from 1 shows result rows (p-1)·8 up to p·8 |
| Catalog.SearchShowsNothing | src/components/Dasboard/user.jsx:199 | after any search the grid shows no book |
| Catalog.SearchShowsNothingExample | src/components/Dasboard/user.jsx:190-199 | searching "dune" in a catalog holding "Dune" matches that book, yet the grid is empty |
| Catalog.FixedSearchShowsFirstMatches | src/components/Dasboard/user.jsx:190-199 | with the reset to page 1 the grid shows the first eight matches, and something whenever anything matches |
| Catalog.MirrorAfterToggle | src/components/Dasboard/user.jsx:503-519 | the stored id list drops every copy of the id when the book was a favorite, keeping the other ids in order and as often as before, and appends the id otherwise |
| Catalog.MirrorTracksSuccessfulToggle | src/components/Dasboard/user.jsx:509-517 | when the stored ids were the favorites' ids and the toggle succeeds, they stay exactly the new favorites' ids |
| Catalog.IdsOfFilter | src/components/Dasboard/user.jsx:512 | filtering the ids equals taking the ids of the filtered books |
| Purchase.Press | src/components/Dasboard/user.jsx:431-444 | one press moves the quantity by at most one, '+' never lowers it and never raises it past the copies available, '-' never raises it and never lowers it below 1 |
| Purchase.PressAll | src/components/Dasboard/user.jsx:431-444 | no contract of its own: the quantity after a series of presses; StepperBounds and StepperReaches state its range |
| Purchase.StepperBounds | src/components/Dasboard/user.jsx:431-444 | any sequence of stepper presses keeps the quantity at least 1 and at most the copies available (or 1) |
| Purchase.StepperReaches | src/components/Dasboard/user.jsx:431-437 | every quantity from 1 to the copies available is reachable with '+' |
| Purchase.FindAddress | src/components/Dasboard/user.jsx:381 | the address found is the first one with the chosen id, and none is found exactly when no address has that id |
| Purchase.Decide | src/components/Dasboard/user.jsx:327-500 | without a user id the flow goes to login; an address-fetch error fails; without addresses it prompts to add one; a dismissed address dialog goes to the orders page; an id matching no address fails; an unconfirmed order is cancelled; a confirmed one beyond stock is rejected exactly then; and a submitted request carries the first fetched address with the chosen id, a stepper quantity within stock, price × quantity, and the book's title, image, author and price |
| Purchase.RejectedExactlyWhenOutOfStock | src/components/Dasboard/user.jsx:448-453 | a confirmed order is rejected exactly when the book has no copy left, and submitted otherwise |
| Purchase.EndToast | src/components/Dasboard/user.jsx:447-500 | the success toast exactly for a submitted request answered 201, the stock toast exactly for a rejected quantity, the failure toast exactly for a caught error or a request axios rejects (no answer, or a status outside 200..299), and no toast for another 2xx status |
| Purchase.PlacedOrdersAreValid | src/components/Dasboard/user.jsx:327-500 | an order is placed only for a logged-in user who confirmed a quantity within stock at the book's price; without a user id no toast appears; the stock toast appears exactly for a confirmed order of a book with no copy left |
| Forms.SetField | src/components/Dasboard/AddBooks.jsx:22-28 | a change sets the named field and keeps every other field |
| Forms.Blank | src/components/Dasboard/AddBooks.jsx:9-20 | the blank form holds exactly the listed fields, all empty |
| Forms.SetFieldThenRead | src/components/pages/MyOrders.jsx:121-127 | after a change the field reads back the new text and every other field reads as before |
| Forms.SetFieldOverwrites | src/components/Dasboard/AddBooks.jsx:24-27 | re-setting a field to its text changes nothing, and of two changes the later wins |
| Orders.HandleDelete | src/components/pages/MyOrders.jsx:76-115 | a confirmed, acknowledged delete removes exactly the purchases with that id; otherwise the list stays; and each dialog outcome shows its alert |
| Orders.DeleteRemovesAll | src/components/pages/MyOrders.jsx:88-93 | after the delete no purchase has that id, and deleting it again changes nothing |
| Orders.DeleteUnknownId | src/components/pages/MyOrders.jsx:93 | deleting an id no purchase has leaves the list as it was |
| Orders.HandleAddressChange | src/components/pages/MyOrders.jsx:121-127 | an address-form change sets the named field, keeps every other field, and keeps the form's field set |
| Orders.OrderPages | src/components/pages/MyOrders.jsx:228 | the orders table needs the least number of pages covering the purchases, and none exactly when there is no purchase |
| Inventory.FetchBooks | src/components/Dasboard/BookDetails.jsx:24-37 | only an ok response replaces the table |
| Inventory.FetchAll | src/components/Dasboard/BookDetails.jsx:24-37 | no contract of its own: the table after a series of fetches, each applied to the table the previous left |
| Inventory.LatestOkFetchWins | src/components/Dasboard/BookDetails.jsx:24-37 | after any series of fetches the table holds the list of the latest ok response, or the original list when none was ok |
| Inventory.RemoveBook | src/components/Dasboard/BookDetails.jsx:80 | the removal keeps exactly the books with another numeric id, in order, each as often as before |
| Inventory.HandleDeleteClick | src/components/Dasboard/BookDetails.jsx:48-109 | a declined dialog does nothing; a failed delete shows an error and keeps the table; an ok delete shows success, and the table becomes the refetched list, or, when the refetch fails, the list without that id |
| Inventory.DeleteWithoutRefetch | src/components/Dasboard/BookDetails.jsx:78-93 | when the refetch fails no book with the id is left, and every book with another id is still there |
| Inventory.ChangeEntries | src/components/Dasboard/BookDetails.jsx:144 | the "Show entries" select as written sets the page size and keeps the page number |
| Inventory.ChangeEntriesCanEmptyTable | src/components/Dasboard/BookDetails.jsx:144 | after "Show entries" changes, the table is empty exactly when the kept page starts past the end of the list |
| Inventory.ChangeEntriesExample | src/components/Dasboard/BookDetails.jsx:144 | 30 books on page 6 at five per page show five rows; after switching to ten per page, the table has three pages and shows none |
| Inventory.ChangeEntriesFixed | src/components/Dasboard/BookDetails.jsx:144 | the corrected select behaves like the other views' page-size change |
| Inventory.FixedEntriesShowFirstRows | src/components/Dasboard/BookDetails.jsx:144 | with the reset the table shows its first rows, and some row whenever there is a book |
| AddBook.HandleInputChange | src/components/Dasboard/AddBooks.jsx:22-28 | an input change sets the named field, keeps the others, and keeps the form's field set |
| AddBook.Payload | src/components/Dasboard/AddBooks.jsx:42-47 | the body holds every form field; copiesAvailable is the typed text when non-empty and totalCopies otherwise |
| AddBook.HandleAddBook | src/components/Dasboard/AddBooks.jsx:30-78 | nothing is sent exactly when title, author or publisher is empty; a send carries the payload; 201 blanks the form; another 2xx status keeps the form with no alert; a request axios rejects (no answer, or a status outside 200..299) keeps the form and shows the error alert |
| AddBook.CopiesDefaulting | src/components/Dasboard/AddBooks.jsx:46 | "0" copies available is sent as "0", and only an empty entry falls back to the total |
| AddBook.AddedFormIsRejected | src/components/Dasboard/AddBooks.jsx:49-68 | after a successful add, pressing the button again sends nothing |
| AddBook.FilledFormIsSent | src/components/Dasboard/AddBooks.jsx:22-39 | filling the three required fields into the empty form is exactly what lets a request go out |
| PurchaseHistory.AddRecord | src/components/Dasboard/purchased_details.jsx:33-57 | one reduce step adds the record's user and leaves every other user's group as it was |
| PurchaseHistory.GroupByUser | src/components/Dasboard/purchased_details.jsx:32-58 | the grouping has a group for exactly the user ids of the records |
| PurchaseHistory.UserRecords | src/components/Dasboard/purchased_details.jsx:34-39 | a user's records are exactly the records with that user id |
| PurchaseHistory.RecordsOf | src/components/Dasboard/purchased_details.jsx:42-55 | a user's records of a title are exactly the records with that user id and title |
| PurchaseHistory.GroupByUserFaithful | src/components/Dasboard/purchased_details.jsx:32-58 | the reduce agrees with the reference definition: one group per user with records, one aggregate per title bought, each the summary of exactly those records |
| PurchaseHistory.RecordsOfIsFilter | src/components/Dasboard/purchased_details.jsx:42-55 | the records an aggregate summarises are what a filter on user id and title keeps, in order |
| PurchaseHistory.GroupNamesFromFirstRecord | src/components/Dasboard/purchased_details.jsx:34-39 | each group carries the user name of that user's first record |
| PurchaseHistory.GroupTitlesAreBought | src/components/Dasboard/purchased_details.jsx:42-51 | a user's group has an aggregate exactly for each title that user bought |
| PurchaseHistory.AggregatesSummarizeRecords | src/components/Dasboard/purchased_details.jsx:42-55 | each aggregate has the title, author and price of its first record, the sum of quantities and totals, and all dates in order |
| PurchaseHistory.AddRecordQuantity | src/components/Dasboard/purchased_details.jsx:53 | one reduce step raises the table's total quantity by exactly the record's quantity |
| PurchaseHistory.QuantityConserved | src/components/Dasboard/purchased_details.jsx:53 | over all users and titles the grouped quantities add up to the quantities of all records |
| PurchaseHistory.GroupListEnumeratesGroups | src/components/Dasboard/purchased_details.jsx:59 | listing each user id once, the table has one row per group, lists every group, and every row is the group of its user id |
| PurchaseHistory.GroupListCount | src/components/Dasboard/purchased_details.jsx:59 | the table has one row per distinct user of the purchases |
| Notifications.LoadEnquiries | src/components/Navbar/Notifications.jsx:15-33 | a body's `data` becomes the list, a missing `data` becomes the empty list, an error keeps the list, and loading ends in every case |
| Notifications.MissingDataShowsNothing | src/components/Navbar/Notifications.jsx:24 | a reply without `data` leaves no page, no row and no page button |

## Left out

- Rendering is not modelled: JSX markup, styling, animation, toasts, and SweetAlert dialogs beyond the answer they return.
- Timing is not modelled. HTTP requests are replaced by their outcomes, passed in as parameters. Concurrent or overlapping requests (for example two quick favorite toggles) are not modelled.
- The DOM and `window` plumbing of the quantity stepper is not modelled. The stepper is modelled as the sequence of presses it receives.
- The catalog's unused `handleSelectAddress` is not modelled, and neither are the address dialog's option texts.
- Purchase.Decide: `userId` in the request stays the stored text instead of `parseInt(userId)`, and `purchasedDate` is an opaque clock value passed in.
- AddBook.Payload: `price`, `totalCopies` and `copiesAvailable` stay text instead of going through `parseFloat`/`parseInt`.
- Floating-point prices, `toFixed`, `Intl.NumberFormat`, the catalog's discount rounding and `toLocaleDateString` are not modelled. Prices are integers and dates are opaque integers.
- PurchaseHistory.GroupList: the order of `Object.values` is not modelled; a list of user ids stands in for it.
- PurchaseHistory.GroupByUser: titles or user ids that collide with `Object.prototype` keys (such as "constructor") are not modelled. The accumulator is a plain map.
- JsString.Lower: only ASCII letters are lower-cased; full Unicode case mapping is not modelled.
- Catalog.MirrorAfterToggle: the JSON encoding of the stored id list is abstracted to the decoded list.
- The material-UI pagination control's own behaviour is not modelled, including what it displays for page 0.
- The orders view's address and purchase fetches, address save/edit/delete, and the admin edit-book modal are not modelled.
- The log-out buttons of both navigation bars are not modelled. Both empty local and session storage, which removes every key and not only the session keys. The customer bar (src/components/Navbar/Navbar.jsx:50-52) never calls `logout()`, so its login flag stays set until a reload. The admin bar (src/components/Navbar/Navbar_admin.jsx:56-58) clears storage and then calls `logout()`. `Auth.Logout` models the context's own `logout()`, which no button of the application calls on a storage that still holds other keys.

## Findings

| source | as written | input that shows it | evidently intended | confidence | as-written member | corrected member |
|---|---|---|---|---|---|---|
| src/components/Dasboard/user.jsx:199 | every search sets the page to 0, and page 0 slices `filtered.slice(-8, 0)`, which is empty | a catalog holding "Dune", search "dune": one match, no card shown | return to page 1, as every other page reset in the application does | high, not executed | Catalog.SearchShowsNothingExample | Catalog.FixedSearchShowsFirstMatches |
| src/components/Dasboard/BookDetails.jsx:144 | changing "Show entries" keeps the current page, which may lie past the new last page | 30 books, page 6 at 5 per page, switch to 10: 3 pages, the table shows no row | reset to page 1, as the orders, notifications and purchase-history views do | medium, not executed | Inventory.ChangeEntriesExample | Inventory.FixedEntriesShowFirstRows |
