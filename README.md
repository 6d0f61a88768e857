# Bookshelf: a verified model of the reading-tracker core

Bookshelf is a single-page reading tracker inside Calibre-Web. The browser client (`cps/static/bookshelf/js/app.js`) keeps the user's library in module-level variables. It derives every page from them:

- a reading status for each book;
- the searchable, filterable books grid;
- the shelf cards with their counters and previews;
- the cover image.

A small hash router selects what is shown. The Flask endpoints (`cps/bookshelf.py`) keep per-user records next to the shared Calibre library:

- reading progress, with a JSON metadata column;
- a read status;
- links from books to the user's shelves.

This project models both cores in Dafny and proves what they promise.

| file | module | what it holds |
|---|---|---|
| `common.dfy` | `Common` | `Option`, truthiness of optional strings, `Array.prototype.filter` with its order, idempotence and counting lemmas |
| `strings.dfy` | `Strings` | stand-ins for library string behaviour: ASCII lower-casing, `includes`, `split`, decimal rendering and parsing (`parseInt`, Python `int`), a code-unit name order, `encodeURIComponent` |
| `bookshelf_model.dfy` | `BookshelfModel` | the client's records, `mapStatus`, and the per-book merge of `loadData` |
| `bookshelf_views.dfy` | `BookshelfViews` | the grid filter, shelf cards, status counters, the shelf sort, and the cover choice |
| `hash_router.dfy` | `HashRouter` | the `router` dispatch over the URL fragment |
| `bookshelf_app.dfy` | `BookshelfApp` | the client's global state as the class `Library`, and the local list updates after API calls |
| `bookshelf_api.dfy` | `BookshelfApi` | the server tables as the class `Store`, with `save_book`, `delete_book`, `update_profile` and the progress map of `get_data` |

Identifiers on the client are typed: `Id = Num(int) | Text(string)`. JavaScript's `===`, `!==` and `includes` therefore tell a number from its decimal string, as they do in the browser.

The server's shelf-link table has no unique constraint on (book, shelf). It is modelled as rows keyed by a row id, so a request that names a shelf twice adds two rows, as the code does.

`save_book` does not roll back. When `int()` rejects a shelf id, the reply is 500, but the progress and read-status rows already written in that request stay in the session. The model keeps them.

## Model

| member | source | states |
|---|---|---|
| `BookshelfModel.MapStatus` | cps/static/bookshelf/js/app.js:80-85 | A non-empty saved status is returned as is. Otherwise the result is 'lido' iff percent >= 1, 'lendo' iff 0 < percent < 1, and 'quero-ler' iff percent is absent or <= 0. |
| `BookshelfModel.MergeBook` | cps/static/bookshelf/js/app.js:53-61 | The merged book keeps the server's id, title, author and cover, and takes `currentProgress` from its progress entry. Its status is `mapStatus` of the entry's percent, location and saved status, and its cover URL and shelves are the saved ones. A book with no progress entry is 'quero-ler', with no saved cover URL and no shelves. |
| `BookshelfModel.MergeBooks` | cps/static/bookshelf/js/app.js:51-62 | One merged book per listed book, in the same order and with the same ids; the book at each position is the merge of the listed book at that position with the progress map. |
| `BookshelfModel.MergedStatusesKnown` | cps/static/bookshelf/js/app.js:51-62 | When every saved status is empty or one of the three, every merged book has one of the three statuses. |
| `BookshelfModel.SavedStatusSurvivesMerge` | cps/static/bookshelf/js/app.js:54-58 | A non-empty saved status, including one outside the three such as 'abandonado', becomes the book's status unchanged. |
| `BookshelfModel.HalfReadBookIsReading` | cps/static/bookshelf/js/app.js:80-85 | A book at 0.5 with no saved data shows as 'lendo', with progress 0.5. |
| `BookshelfApp.Library.LoadData` | cps/static/bookshelf/js/app.js:44-76 | A success payload replaces the books with their merge (length and order of `data.books`), the shelves with the payload's, and the profile with the payload's user. A failed request or a non-success status changes nothing, and the filter inputs never change. |
| `BookshelfApp.LoadedCountersAddUp` | cps/static/bookshelf/js/app.js:277-285 | After such a load, with every saved status one of the three, the three counters add up to the number of books. |
| `BookshelfApp.Library.constructor` | cps/static/bookshelf/js/app.js:5-9 | Initial state: no books or shelves, a dark unnamed profile, an empty search and the 'todos' filter. |
| `BookshelfViews.GridBooks` | cps/static/bookshelf/js/app.js:384-390 | A book is kept iff (the term is empty or its lower-cased title contains the lower-cased term) and (the filter is 'todos' or equals its status). |
| `BookshelfViews.GridIsOneFilter` | cps/static/bookshelf/js/app.js:384-390 | The two filter stages equal a single filter by the combined test. |
| `BookshelfViews.GridKeepsOrder` | cps/static/bookshelf/js/app.js:384-390 | The grid keeps the original order: the grid of a concatenation is the concatenation of the grids. |
| `BookshelfViews.EmptyTermMatchesEveryTitle` | cps/static/bookshelf/js/app.js:385-386 | Every title contains the lower-cased empty term, so skipping the search stage for an empty term keeps the same books `includes` would. |
| `BookshelfViews.GridUnfiltered` | cps/static/bookshelf/js/app.js:384-390 | With an empty term and 'todos', the grid is the whole book list. |
| `BookshelfViews.GridIdempotent` | cps/static/bookshelf/js/app.js:384-390 | Filtering the grid again with the same inputs changes nothing. |
| `BookshelfApp.Library.Grid` | cps/static/bookshelf/js/app.js:380-390 | The grid shown for the current state keeps exactly the books of `allBooks` that pass both filters. |
| `BookshelfApp.Library.SearchInput` | cps/static/bookshelf/js/app.js:369-372 | The search term becomes the input, and the grid becomes the grid for that term. |
| `BookshelfApp.Library.FilterChange` | cps/static/bookshelf/js/app.js:374-377 | The status filter becomes the selection, and the grid becomes the grid for that filter. |
| `BookshelfViews.ShelfCardOf` | cps/static/bookshelf/js/app.js:317-325 | The count equals the number of positions whose book has a `shelves` field containing the numeric shelf id. The preview is the first min(7, count) of those books in list order, and every one of them is on the shelf. |
| `BookshelfViews.CardEmptyWithoutShelvesField` | cps/static/bookshelf/js/app.js:317-318 | When no book has a `shelves` field, every shelf card counts 0 and shows no preview. |
| `Common.FilterLengthIsPositionCount` | cps/static/bookshelf/js/app.js:317-325 | The length of a filtered list is the number of positions that pass the test, which is what the shelf badge shows. |
| `BookshelfViews.StatsOf` | cps/static/bookshelf/js/app.js:277-285 | The total is the number of books, and each status counter is the number of positions holding a book of that status. The 'lido', 'lendo' and 'quero-ler' counters sum to at most the total, and exactly to it iff every status is one of the three. |
| `BookshelfViews.StatusSumBound` | cps/static/bookshelf/js/app.js:277-285 | Each book adds to at most one counter, and to one exactly when its status is one of the three. |
| `BookshelfViews.UnknownStatusIsUncounted` | cps/static/bookshelf/js/app.js:277-285 | One book with another status, such as 'abandonado', leaves the counters short of the total. |
| `BookshelfViews.SortShelvesByName` | cps/static/bookshelf/js/app.js:302 | The shelves shown are a permutation of the user's shelves, sorted by name. |
| `BookshelfViews.InsertByName` | cps/static/bookshelf/js/app.js:302 | Inserting one shelf into a name-sorted list gives a sorted list with exactly one more occurrence of that shelf. |
| `Strings.NameLeTransitive` | cps/static/bookshelf/js/app.js:302 | The name order used for sorting is transitive. |
| `BookshelfViews.InsertBeforeSameName` | cps/static/bookshelf/js/app.js:302 | Among shelves of one name, an inserted shelf comes first and the others keep their order. |
| `BookshelfViews.SortIsStable` | cps/static/bookshelf/js/app.js:302 | The sort is stable: for every name, the shelves of that name appear in the same order as in the user's list. |
| `Strings.NameLeReflexive` | cps/static/bookshelf/js/app.js:302 | Every name sorts at or below itself. |
| `Strings.NameLeTotal` | cps/static/bookshelf/js/app.js:302 | The name order used for sorting is total. |
| `BookshelfApp.Library.ShelvesPage` | cps/static/bookshelf/js/app.js:277-303 | The shelves page shows the counters of the current books, the user's shelves as a sorted permutation, and for each shelf in that order its card. |
| `BookshelfViews.CoverUrl` | cps/static/bookshelf/js/app.js:245-252 | The result is never empty. A non-empty saved cover URL without 'placehold.co' wins. Otherwise the library cover is used if non-empty. Otherwise the placeholder prefix is followed by the URL-encoded title, or 'Sem Capa' when the title is empty, and every character after the prefix is URL-safe. |
| `Strings.EncodeUriComponent` | cps/static/bookshelf/js/app.js:251 | Every output character is unreserved or '%', and text made only of unreserved characters is left as it is. |
| `Strings.Contains` | cps/static/bookshelf/js/app.js:386 | `includes` holds iff the needle occurs at some position of the text. |
| `BookshelfApp.RemoveBook` | cps/static/bookshelf/js/app.js:118 | The remaining books are exactly those whose id is not strictly equal to the argument. |
| `BookshelfApp.RemoveBookKeepsOrder` | cps/static/bookshelf/js/app.js:118 | Removal keeps the other books in order, and leaves a list without that id whole. |
| `BookshelfApp.Library.DeleteBook` | cps/static/bookshelf/js/app.js:109-119 | After success the list is the removal result; after failure it is unchanged. |
| `BookshelfApp.RemoveShelf` | cps/static/bookshelf/js/app.js:159 | The remaining shelves are exactly those whose id is not strictly equal to the argument. |
| `BookshelfApp.RemoveShelfKeepsOrder` | cps/static/bookshelf/js/app.js:159 | Removal keeps the other shelves in order. |
| `BookshelfApp.Library.DeleteShelf` | cps/static/bookshelf/js/app.js:150-160 | After success the shelf list is the removal result; after failure it is unchanged; the books are never touched. |
| `BookshelfApp.DeleteButtonRemovesNoShelf` | cps/static/bookshelf/js/app.js:344 | The id the delete button passes (its data attribute, a string) equals no numeric shelf id, so the local removal keeps every shelf. |
| `BookshelfApp.RemoveShelfByDataset` | cps/static/bookshelf/js/app.js:159 | A shelf is kept iff its decimal rendering differs from the button's text. |
| `BookshelfApp.DatasetRemovalDeletesThatShelf` | cps/static/bookshelf/js/app.js:344 | Compared that way, the button of shelf s removes exactly the shelves with s's id. |
| `Strings.DecimalStringInjective` | cps/static/bookshelf/js/app.js:344 | Different shelf ids render to different strings. |
| `BookshelfApp.ApplyProfilePatch` | cps/static/bookshelf/js/app.js:180 | Each key sent overrides the profile's value, each key not sent keeps it; an empty patch changes nothing. |
| `BookshelfApp.ProfilePatchIdempotent` | cps/static/bookshelf/js/app.js:180 | Applying the same profile data twice equals applying it once. |
| `BookshelfApp.Library.SaveProfile` | cps/static/bookshelf/js/app.js:171-181 | After success the profile is the patched profile; after failure it is unchanged. |
| `HashRouter.Dispatch` | cps/static/bookshelf/js/app.js:198-240 | The fragment defaults to '#/estantes'. A page is shown only for its own fragment, the form opens exactly for '#/add', and the details overlay and the edit form open exactly for fragments under '#/book/' and '#/edit/', each with the id coerced from the segment after the prefix. |
| `HashRouter.PrefixesAreExclusive` | cps/static/bookshelf/js/app.js:214-240 | A fragment under either prefix is none of the fixed fragments, and no fragment lies under both prefixes, so the order of the branches does not matter for them. |
| `HashRouter.CoerceId` | cps/static/bookshelf/js/app.js:236 | The id is a number exactly when the segment parses to a non-zero number, and then it is that number. Otherwise it is the segment text. |
| `HashRouter.EmptyHashShowsShelves` | cps/static/bookshelf/js/app.js:199 | An empty fragment shows the shelves page. |
| `HashRouter.ShowsPageIff` | cps/static/bookshelf/js/app.js:214-231 | A page is shown iff the (defaulted) fragment is that page's fragment. |
| `HashRouter.NoRouteIff` | cps/static/bookshelf/js/app.js:214-240 | No branch is taken iff the fragment is non-empty, none of the seven fixed fragments, and has neither prefix. |
| `HashRouter.FragmentIdAfterPrefix` | cps/static/bookshelf/js/app.js:235-238 | For '#/book/' and '#/edit/', segment 2 of the '/'-split is the text after the prefix, up to the next '/'. |
| `HashRouter.DetailsRoute` | cps/static/bookshelf/js/app.js:234-236 | '#/book/X' opens the details overlay for the coerced X. |
| `HashRouter.EditRoute` | cps/static/bookshelf/js/app.js:237-239 | '#/edit/X' opens the form for the coerced X. |
| `HashRouter.BookLinkOpensThatBook` | cps/static/bookshelf/js/app.js:236 | The link '#/book/N' for a positive id N opens the overlay with the number N. |
| `HashRouter.ZeroIdStaysText` | cps/static/bookshelf/js/app.js:236 | '#/book/0' passes the string "0", because 0 is falsy. |
| `Strings.ParseIntPrefixOfNatDigits` | cps/static/bookshelf/js/app.js:236 | `parseInt` of a natural number's decimal text gives that number back. |
| `BookshelfApi.ReadStatusFor` | cps/bookshelf.py:197-202 | Finished iff the status is 'lido', in progress iff it is 'lendo', and unread for every other value, absent included. |
| `BookshelfApi.MergeFields` | cps/bookshelf.py:209-218 | The merged metadata has the stored keys plus the requested whitelisted ones. Each requested whitelisted key takes the request's value, and every other stored key keeps its value. |
| `BookshelfApi.MergeWhitelisted` | cps/bookshelf.py:213-218 | The field loop computes exactly that merge. |
| `BookshelfApi.WhitelistMergeFrame` | cps/bookshelf.py:209-218 | Keys outside the whitelist are never written, no stored key is lost, and merging the same request again changes nothing. |
| `BookshelfApi.ShelfIds` | cps/bookshelf.py:237 | A list converts iff every element converts, giving the values in order. A string converts iff every character is an integer on its own, giving one value per character. Any other value fails. |
| `BookshelfApi.PyInts` | cps/bookshelf.py:237 | The conversion succeeds iff every element converts with `int()`, and then gives the converted elements in order. |
| `Strings.ParseIntExactOfDecimal` | cps/bookshelf.py:237 | `int()` of an integer's decimal text gives that integer back. |
| `BookshelfApi.DropUnwantedLinks` | cps/bookshelf.py:238-240 | A row is deleted iff it links this book to one of the user's shelves that is not requested; the other rows are unchanged. |
| `BookshelfApi.AddMissingLinks` | cps/bookshelf.py:243-247 | Old rows stay. The new rows are numbered from the next free id and link this book to the requested ids that pass the test, in request order. |
| `BookshelfApi.ReconcileShelfLinks` | cps/bookshelf.py:221-247 | The two loops together delete exactly the dropped links and add one row per requested shelf the user owns that the book was not on before, in request order. |
| `BookshelfApi.ReconciledLinks` | cps/bookshelf.py:221-247 | Afterwards the book is on one of the user's shelves iff that shelf was requested. Links to shelves the user does not own are exactly the old rows, unchanged, so none is added there. |
| `BookshelfApi.NewRowsDistinct` | cps/bookshelf.py:243-247 | With a duplicate-free request, the new rows name pairwise different shelves, none of which the book was on before. |
| `BookshelfApi.RepeatedIdAddsTwoRows` | cps/bookshelf.py:243-247 | A request naming shelf 5 twice, for a book on no shelf, adds two identical rows. |
| `BookshelfApi.Store.SaveFoundBook` | cps/bookshelf.py:169-247 | For a found book the (user, book) progress row becomes the merged row, created if missing, and the read-status row becomes the status rule's value. Links are reconciled when the shelf ids convert, and untouched otherwise. |
| `BookshelfApi.Store.SaveBook` | cps/bookshelf.py:140-254 | A missing or falsy id gives 501 with no table changed. A list or dict id makes the book query raise: 500 with no table changed. Any other id without a book row gives 404 with no table changed. Otherwise: the progress and read-status rows as above; the links unchanged without 'shelves'; 500 with the links untouched when a shelf id fails `int()`; and otherwise success, echoing the id, with the links reconciled. Books, shelves and settings never change. |
| `BookshelfApi.Store.DeleteBook` | cps/bookshelf.py:263-289 | A list or dict id makes the first delete raise: 500 with no table changed. Otherwise the reply is success and the (user, book) progress and read-status rows are removed, and so is every link from the book to a shelf of the user. Every other row keeps its value, and the books, shelves and settings do not change. |
| `BookshelfApi.ProfileUpdate` | cps/bookshelf.py:94-96 | Without a 'theme' key the settings are unchanged. |
| `BookshelfApi.ProfileUpdateReadsOnlyTheme` | cps/bookshelf.py:94-96 | Two requests that agree on 'theme' update the settings identically, whatever other keys they carry. |
| `BookshelfApi.Store.UpdateProfile` | cps/bookshelf.py:91-97 | With 'theme' the user's settings become the updated settings; without it nothing changes. The reply is success. |
| `BookshelfApi.SetViewProperty` | cps/bookshelf.py:96 | The value is stored under `settings[page][prop]`; the other pages keep their values, and an existing page object keeps every other property (such as the avatar). The page object holds exactly its old keys, or none when it was missing or not an object, plus `prop`. |
| `BookshelfApi.UserTheme` | cps/bookshelf.py:73 | The theme reported is 'dark' when the settings are empty or have no 'theme' key, and the stored top-level theme otherwise. |
| `BookshelfApi.ThemeUpdateNotReported` | cps/bookshelf.py:94-96 | As written, the theme reported after a profile update is the theme reported before it. |
| `BookshelfApi.LightThemeReportedDark` | cps/bookshelf.py:73 | A user without settings who saves 'light' is still reported 'dark'. |
| `BookshelfApi.BookshelfTheme` | cps/bookshelf.py:96 | The theme read from the 'bookshelf' page entry, 'dark' when there is none. |
| `BookshelfApi.SavedThemeIsReported` | cps/bookshelf.py:96 | Read from where `update_profile` stores it, the saved theme is the theme reported next. |
| `BookshelfApi.ProgressPayload` | cps/bookshelf.py:49-56 | There is one entry per progress row of the user, keyed by book id, carrying that row's fields. |

## Left out

- DOM work is not modelled: markup templates, page visibility, the navigation highlight, modals, loaders and `confirm()`. The router's result is the branch it takes.
- `fetch`, `async` and JSON transport are not modelled. Each API call is reduced to what the client learns: a payload or a failure for `loadData`, and success or failure for the mutations.
- `cps/static/js/lib_do_fauno.js` is not part of this model. It is cosmetic DOM patching with timers.
- `upload_avatar` is not part of this model. It consists of file-system writes and `url_for`.
- Flask routing, login and SQLAlchemy are not modelled. The tables are the session's view: pending and committed rows alike, with no rollback.
- A request body that is not a JSON object is not modelled. A non-JSON body makes `request.get_json()` fail; a JSON array, string, number or null makes `data.get` raise (cps/bookshelf.py:143, 265) or `'theme' in data` test the wrong thing (cps/bookshelf.py:94). Either way the reply is 500 or nonsense, and the model takes the body as an object.
- The body of `set_view_property` (calibre-web's user model) is not part of this model. `SetViewProperty` assumes the nested write `settings[page][prop] = value`, creating or replacing the page entry when it is missing or not an object.
- `BookshelfApi.BookKey`: only a JSON integer selects a book row. SQLite's comparison, under which a numeric string, a float such as `5.0` or `true` can also match a row, is not modelled. A list or dict id cannot be bound at all; `Store.SaveBook` and `Store.DeleteBook` reply 500 for it, as the source does.
- `BookshelfApi.ShelfIds`: a JSON object given as 'shelves' is treated as an `int()` error. Python would iterate over its keys.
- `BookshelfApi.PyInt`: `int()` of a string is the plain decimal form with an optional sign. Surrounding whitespace and underscores are not modelled.
- `Strings.ParseIntPrefix`: this stand-in for `parseInt` reads an optional sign and leading decimal digits, giving an exact integer. `parseInt` gives a double, so digit strings beyond 2^53 lose precision there; that rounding is not modelled, and neither are leading whitespace and hexadecimal prefixes.
- `Strings.Lower`: this stand-in for `toLowerCase` lower-cases ASCII letters only. Unicode case mapping is not modelled.
- `Strings.NameLe`: code-unit order stands in for `localeCompare`. The locale's collation is not modelled.
- `Strings.EncodeUriComponent` works on Unicode scalar values. JavaScript's UTF-16 code units are not modelled, nor the error `encodeURIComponent` throws on a lone surrogate.
- `BookshelfModel.Book` keeps only `coverUrl` and `shelves` of the saved metadata. The client spreads every saved key after the server's book fields, so a saved `id`, `title`, `author` or `cover` would override the server's value. The model ignores that because `save_book` stores only the whitelisted keys (cps/bookshelf.py:209-210), none of which is one of those four.
- `BookshelfApp.Library.LoadData`: a success payload without `user` would reassign the books and shelves and then throw at `data.user.theme`, leaving a partial update. The model's payload always carries a user, because `get_data` always sends one (cps/bookshelf.py:83).
- The progress bar width (`currentProgress * 100`) is floating-point presentation and is not modelled.
- The other fields of the `get_data` payload are not modelled: `last_modified`, the book list projection (series, `url_for` covers) and the shelf list projection. Only the progress map and the theme rule are.
- `applyTheme`, `initApp`, `saveBook` and `saveShelf` on the client are not modelled. They re-fetch or restyle, and hold no list logic.
- The progress and read-status tables are maps keyed by (user, book), so at most one row exists per pair. The source looks rows up with `.first()` and deletes all matching rows; with one row per pair these agree.
- The server never stores a 'shelves' key in the metadata: it is not on the whitelist. So in the deployed system every shelf card counts 0 books. `BookshelfViews.CardEmptyWithoutShelvesField` states this for books whose `shelves` field is absent.
- The router has no fallback for a non-empty fragment that matches nothing: every page stays hidden. This follows the code, not a default-route description.
- `deleteBook` on the client removes the book from the local list. It does not reload the data.
- Statuses other than the three, such as 'abandonado', do reach the client through saved metadata.

## Findings

| source | as written | input that shows it | evidently intended | confidence | as-written member | corrected member |
|---|---|---|---|---|---|---|
| cps/static/bookshelf/js/app.js:344 | The delete-shelf button passes `btn.dataset.shelfId`, a string, and `deleteShelf` drops the shelves whose id `!==` it. Numeric shelf ids are never strictly equal to a string, so the local list keeps the deleted shelf. | Shelves `[{id: 3, name: "A"}]`: clicking the button of shelf 3 passes "3", and after a success response the list is still `[{id: 3, ...}]`. | The shelf with that id is removed from the list. | high, not executed | `BookshelfApp.DeleteButtonRemovesNoShelf` | `BookshelfApp.DatasetRemovalDeletesThatShelf` |
| cps/bookshelf.py:96 | `update_profile` stores the theme through `set_view_property('bookshelf', 'theme', …)`, under the 'bookshelf' page entry. `get_data` (line 73) reads the top-level 'theme' key. A saved theme is therefore never reported back. | A user with empty view settings posts `{"theme": "light"}`. The next `get_data` reports 'dark'. | The next `get_data` reports 'light'. | medium (the body of `set_view_property` is not part of this model), not executed | `BookshelfApi.ThemeUpdateNotReported` | `BookshelfApi.SavedThemeIsReported` |
