# Fridge app item store — a Dafny model

The app photographs food, records a name, an expiry date and a quantity, and
lists the stored items twenty to a page, sorted by expiry date, with a search
box and coloured overlays for items that expire soon. Everything is kept in
one SQLite table, `Items`. This project models that table and the rules
around it:

- `Store` (store.dfy): the `Items` table as a class `Database` with its rows
  in rowid order, the AUTOINCREMENT counter (`sqlite_sequence`), and one
  method per SQL statement the app issues: `CREATE TABLE IF NOT EXISTS`,
  `DROP TABLE IF EXISTS`, both `INSERT` forms, the paged `SELECT ... ORDER BY
  expiry_date ASC LIMIT ?, ?`, `SELECT COUNT(*)`, `UPDATE ... SET size`,
  `DELETE ... WHERE id` and `DELETE FROM Items`. Each is specified by a pure
  function of the old table (`OrderByExpiry`, `Window`, `DeleteWhereId`,
  `SetSizeWhereId`), and the lemmas about those functions carry the
  properties.
- `App` (app.dfy): `createTable` and `resetTable` from App.js.
- `ItemList` (itemlist.dfy): the listing screen. The loop that turns rows
  into items, the page offset, the pagination bar and its buttons and label,
  the name filter, the urgency overlays, and a class `Screen` whose fields are
  the component's state (`data`, `search`, `page`, `total`, `isLoading`) and
  whose methods are its handlers.
- `Create` (create.dfy): the item form. `parseInt` for the quantity field,
  `validateForm`, the date part of the ISO timestamp, the photo column, and
  `handleGuardar`.
- `Dates` (dates.dfy): SQLite compares `expiry_date` as text. The module proves
  that for `yyyy-mm-dd` text this order is the calendar order.
- `Numerals`, `Strings` and `Wrappers` hold shared helpers: digit values,
  JavaScript `trim`, `toLowerCase` and `includes`, and `Option`.

A failing statement leaves everything unchanged. The transaction error path is
modelled by the constant `Database.available`: when it is false, no
statement runs. The "no such table" error is modelled by `hasTable`. The
SQLITE_FULL error, once the counter reaches 2^63 - 1, is modelled too.

Where the app's evident intent and its code differ, the model follows the code:
- Deleting the last rows of the last page reloads that same page. The page
  is then empty, yet the pagination bar can still show, labelled beyond the
  page count: 41 rows on page 2, delete its only row, and the screen shows
  no items, Prev, no Next and the label "3 / 2" (`LabelPastEnd`).
- `handleNext` increments the page without any guard. Only the button's
  visibility (`ShowsNext`) stops the user.
- A missing id on delete or update is only logged. The model returns
  `affected == 0` and leaves the page unreloaded.
- The name filter is applied to the fetched page only, not to the whole table.
- Ids are never reused while the table exists. `DELETE FROM Items` keeps the
  counter. `resetTable` drops the table, and SQLite deletes the table's
  `sqlite_sequence` row along with it, so ids start again at 1.

## Model

| member | source | states |
|---|---|---|
| Store.Database.constructor | App.js:12 | on a fresh install, opening the database gives no `Items` table, no rows and counter 0; a database opened later is any state `Valid` admits, which every other method accepts |
| Store.Database.CreateTableIfNotExists | App.js:33-39 | on an available database the table exists afterwards; on an unavailable one nothing changes; an existing table keeps its rows and counter |
| Store.Database.DropTableIfExists | App.js:17 | on success the table, its rows and its AUTOINCREMENT counter are gone; on failure nothing changes |
| Store.Database.Insert | src/components/Create.jsx:76-95 | fails with no database, no table, or a full counter, changing nothing; otherwise appends exactly one row with the given values and id = counter + 1, which is greater than every id ever handed out for this table |
| Store.Database.SelectByExpiry | src/components/ItemList.jsx:70-72 | returns the `LIMIT offset, limit` window of the table in expiry order, or an error and no rows |
| Store.Database.CountAll | src/components/ItemList.jsx:42-47 | returns the number of rows, or an error |
| Store.Database.UpdateSize | src/components/ItemList.jsx:145-153 | writes the new size into the row with that id and reports 1 affected row if that id exists, else 0 |
| Store.Database.DeleteById | src/components/ItemList.jsx:119-123 | removes the rows with that id and reports whether one existed; ids stay unique and ascending |
| Store.Database.DeleteAll | src/components/ItemList.jsx:188-191 | empties the table and keeps the AUTOINCREMENT counter |
| Store.OrderByExpiry | src/components/ItemList.jsx:71 | `ORDER BY expiry_date ASC` gives a permutation of the table (same length and multiset) that is sorted by expiry date |
| Store.InsertByExpiry | src/components/ItemList.jsx:71 | inserting a row into a sorted sequence keeps it sorted and adds exactly that row |
| Store.Window | src/components/ItemList.jsx:71-72 | `LIMIT offset, limit` keeps at most `limit` rows, starting at `offset` (a negative offset counts as 0); the result is empty exactly when the offset is past the end or the limit is 0; it holds `limit` rows when that many remain and every remaining row otherwise, and a negative limit keeps every row after the offset |
| Store.DeleteWhereId | src/components/ItemList.jsx:120 | a row is kept exactly when it was in the table and its id differs |
| Store.DeleteWhereIdCount | src/components/ItemList.jsx:120-128 | with unique ids, the count drops by one when the id is present and the table is unchanged when it is absent; the id is gone afterwards |
| Store.SetSizeWhereId | src/components/ItemList.jsx:145 | same length; the row with that id gets the new size and every other row is unchanged |
| Dates.LexLe | src/components/ItemList.jsx:71 | text order under SQLite's BINARY collation: the first differing character decides, and a prefix comes first |
| Dates.IsoDateOrder | src/components/ItemList.jsx:71 | on `yyyy-mm-dd` text, SQLite's text order equals year-month-day order |
| Dates.LexLeDigits | src/components/ItemList.jsx:71 | for digit strings of equal length, text order is numeric order |
| Dates.LexLeTotal | src/components/ItemList.jsx:71 | any two expiry dates are comparable, so the sort is well-defined |
| Dates.LexLeTransitive | src/components/ItemList.jsx:71 | the text order is transitive |
| App.CreateTable | App.js:30-49 | the table exists on an available database, and a newly created one is empty with counter 0; an existing table's contents and counter are untouched, so a second call changes nothing |
| App.ResetTable | App.js:14-28 | on an available database the table ends empty with a fresh counter, whatever it held; otherwise nothing changes |
| ItemList.RowsToItems | src/components/ItemList.jsx:74-86 | one item per row, same length and order; id, name, expiry date and size are copied, and `photo` comes from `photo_base64` |
| ItemList.FetchedPage | src/components/ItemList.jsx:67-72 | a fetched page has at most 20 rows, is sorted by expiry date, and holds rows `page*20`, `page*20+1`, ... of the ordered table; it is empty exactly when `page*20` is at least the row count; otherwise it holds 20 rows when 20 remain and all remaining rows on the last page |
| ItemList.AllPagesCoverTable | src/components/ItemList.jsx:67-72 | concatenating pages 0, 1, ... until the first empty one gives the whole ordered table, with no row missing or repeated |
| ItemList.PageCount | src/components/ItemList.jsx:311 | `Math.ceil(total / 20)` is the least n with n*20 >= total |
| ItemList.PageInRange | src/components/ItemList.jsx:311 | page p holds rows exactly when p < `Math.ceil(total / 20)` |
| ItemList.LabelInRange | src/components/ItemList.jsx:311 | on a page that holds rows, the label `page+1 / ceil(total/20)` has 1 <= page+1 <= page count; `LabelPastEnd` shows the bound fails on an empty page |
| ItemList.LabelPastEnd | src/components/ItemList.jsx:300-313 | with 41 rows, deleting the only row of page 2 leaves page 2 empty while the bar shows Prev, no Next and the label 3 / 2 |
| ItemList.LabelPastEndReachable | src/components/ItemList.jsx:116-126 | the screen reaches that state: `handleDelete` on page 2 of 41 rows reloads an empty page labelled 3 / 2 |
| ItemList.PrevShownIffCanGoBack | src/components/ItemList.jsx:302 | the Prev button's `page != 0` agrees with `handlePrev`'s `page > 0` guard |
| ItemList.Offset | src/components/ItemList.jsx:67 | page p starts at row `p * 20` |
| ItemList.PageRows | src/components/ItemList.jsx:67-72 | a page is the window of at most 20 rows from `Offset(page)` of the table in expiry order |
| ItemList.ShowsPagination | src/components/ItemList.jsx:300 | the bar is drawn when `total > 20` |
| ItemList.ShowsPrev | src/components/ItemList.jsx:302 | the Prev button is drawn when `page != 0` |
| ItemList.ShowsNext | src/components/ItemList.jsx:313 | the Next button is drawn when `total - (page+1)*20 > 0` |
| ItemList.PageLabel | src/components/ItemList.jsx:311 | the label is the pair `page + 1` and the page count |
| ItemList.RenderedOverlays | src/components/ItemList.jsx:255-268 | the set of overlays drawn: yellow at 3 days, orange at 2, red at 1, expired below 1 |
| ItemList.SizeEffect | src/components/ItemList.jsx:141-146 | a new size of 0 deletes the row; any other size is written into the row with that id |
| ItemList.NameMatches | src/components/ItemList.jsx:293 | an item matches when its lower-cased name includes the lower-cased search |
| ItemList.ItemsOf | src/components/ItemList.jsx:76-85 | one item per row with the row's id, name, expiry date and size, and `photo` from `photo_base64` |
| ItemList.NextShownIffLaterPage | src/components/ItemList.jsx:313 | the next button shows exactly when page+1 is below the page count |
| ItemList.NextShownIffNextPageHasRows | src/components/ItemList.jsx:313 | the next button shows exactly when the next page of the table is not empty |
| ItemList.PaginationShownIffSeveralPages | src/components/ItemList.jsx:300 | the pagination bar shows exactly when there are at least two pages |
| ItemList.FilterByName | src/components/ItemList.jsx:292-294 | the shown list keeps the order of the page, contains only items whose lower-cased name includes the lower-cased term, and keeps every such item with its multiplicity |
| ItemList.EmptySearchKeepsAll | src/components/ItemList.jsx:292-294 | an empty search term shows the whole fetched page |
| ItemList.SearchIgnoresCase | src/components/ItemList.jsx:293 | a term and its lower-case form show the same list |
| ItemList.FilterIdempotent | src/components/ItemList.jsx:292-294 | filtering the shown list again changes nothing |
| ItemList.Urgency | src/components/ItemList.jsx:255-258 | expired for fewer than 1 day, red for 1, orange for 2, yellow for 3, none for 4 or more, each as an if-and-only-if |
| ItemList.OneOverlayAtMost | src/components/ItemList.jsx:255-268 | the four independent render conditions draw at most one overlay, the one `Urgency` names |
| ItemList.MinusKeepsSizesPositive | src/components/ItemList.jsx:141-146 | if every stored quantity is at least 1, pressing minus on a quantity of at least 1 keeps that true: 1 becomes a delete, anything larger stays at least 1 |
| ItemList.SetSizeTouchesOneRow | src/components/ItemList.jsx:145-158 | a nonzero new size changes only the size of the row with that id; an absent id leaves the table unchanged |
| ItemList.MinusOnItem | src/components/ItemList.jsx:238-246 | minus on an item of size 1 removes it (count drops by one, id gone); on any other size the item stays with size - 1 |
| ItemList.Screen.constructor | src/components/ItemList.jsx:21-26 | the initial state: no data, empty search, page 0, total 0, not loading |
| ItemList.Screen.ChangeSearch | src/components/ItemList.jsx:278 | the search state becomes the typed text |
| ItemList.Screen.Visible | src/components/ItemList.jsx:287-294 | nothing is listed while loading (the spinner is shown instead); otherwise the list is a subsequence of the fetched page whose every item matches the search |
| ItemList.Screen.GetTotalItems | src/components/ItemList.jsx:39-63 | `total` becomes the row count; a failed count leaves it |
| ItemList.Screen.FetchData | src/components/ItemList.jsx:65-104 | on success `data` is the current page of the table in expiry order, `total` the row count, and loading is off; on failure data and total are kept and loading stays on |
| ItemList.Screen.HandleNext | src/components/ItemList.jsx:106-108 | the page grows by one, unconditionally |
| ItemList.Screen.HandlePrev | src/components/ItemList.jsx:110-114 | the page drops by one only when it is positive, so it never goes negative |
| ItemList.Screen.HandleDelete | src/components/ItemList.jsx:116-139 | the table loses exactly the row with that id; the screen reloads only if a row was deleted |
| ItemList.Screen.HandleSize | src/components/ItemList.jsx:141-171 | size 0 has exactly the effect of `handleDelete`; any other size is written into that row only; the screen reloads only if a row matched |
| ItemList.Screen.PressMinus | src/components/ItemList.jsx:238-246 | the minus icon (and a short press on delete) applies `handleSize(id, size - 1)`: the table becomes `SizeEffect` with size - 1, the page is reloaded exactly when the id was present, table and counter are kept, and positive stored quantities stay positive |
| ItemList.Screen.HandleDeleteAll | src/components/ItemList.jsx:185-194 | the table ends empty and the screen shows no items and total 0 |
| Strings.Trim | src/components/Create.jsx:136 | `trim` drops leading and trailing ECMAScript whitespace |
| Strings.TrimEmptyIffBlank | src/components/Create.jsx:136 | `trim()` returns "" exactly when every character is whitespace |
| Strings.Includes | src/components/ItemList.jsx:293 | `includes` holds exactly when the term occurs at some position |
| Strings.ToLower | src/components/ItemList.jsx:293 | lower-casing keeps the length and maps each character |
| Create.ParseInt | src/components/Create.jsx:203 | `parseInt` yields a number or NaN, never null |
| Create.DigitPrefix | src/components/Create.jsx:203 | `parseInt` reads the longest run of digits, and stops at the first non-digit |
| Create.ParseNumeral | src/components/Create.jsx:203 | typing the decimal numeral of n sets the size to n |
| Create.ParseNegativeNumeral | src/components/Create.jsx:203 | typing `-n` sets the size to -n |
| Create.ParseNonNumeric | src/components/Create.jsx:203 | blank text parses to NaN, and so does text whose first non-blank character is neither a sign nor a digit |
| Create.NameMissing | src/components/Create.jsx:136 | the name is missing when trimming it leaves nothing |
| Create.SizeRejected | src/components/Create.jsx:141 | the size is rejected when it is null, NaN or below 1 |
| Create.ParseMagnitude | src/components/Create.jsx:203 | after the sign, a `0x`/`0X` prefix selects radix 16; the longest digit run is the magnitude, and there is none without a digit |
| Create.ValidationRule | src/components/Create.jsx:136-144 | the form is valid exactly when the name has a non-whitespace character and the size is a number of at least 1 |
| Create.DefaultAndNaNSizes | src/components/Create.jsx:141 | the default size 1 passes; NaN never passes; a size is rejected exactly when it is not a number of at least 1 |
| Create.DatePart | src/components/Create.jsx:73 | `split("T")[0]` is the prefix before the first `T` and contains no `T` |
| Create.DatePartOfTimestamp | src/components/Create.jsx:73 | for a `yyyy-mm-ddT...` timestamp the stored date is its first ten characters, a well-formed `yyyy-mm-dd` |
| Create.PhotoColumn | src/components/Create.jsx:76-95 | the photo column holds the payload exactly when the payload is non-empty, and NULL otherwise |
| Create.Form.constructor | src/components/Create.jsx:20-33 | the initial form: empty name, size 1, no photo, no errors |
| Create.Form.ChangeSizeText | src/components/Create.jsx:203 | the size state becomes `parseInt` of the typed text |
| Create.Form.ValidateForm | src/components/Create.jsx:129-148 | returns whether both checks pass; each error field is set exactly when its own check fails and cleared otherwise |
| Create.Form.HandleGuardar | src/components/Create.jsx:69-115 | an invalid form inserts nothing; a valid one adds exactly one row with the name, the date part, the photo column and the size, and a fresh id one above the counter; a saved size is at least 1, so positive stored quantities stay positive |

## Left out

- Date arithmetic: `new Date(...)`, the millisecond difference and `Math.ceil(timeDifference / 86400000)` are not modelled. `Urgency` takes the whole-day difference as an integer.
- Time zones: `toISOString` converts to UTC, so the stored date can differ from the date picked in local time. `Form.expiryIso` is the timestamp text as given. The expanded `+yyyyyy` form for years past 9999 is not modelled.
- `date-fns` formatting of the displayed date is not modelled.
- Photos: camera capture, permissions and the front/back toggle are device I/O (src/components/CameraView.jsx is not part of this model). Resizing and base64 encoding through `ImageManipulator` is a foreign library call. The payload is an opaque string.
- Presentation: the splash screen (src/components/Main.jsx), the window-size listener (src/components/WindowDimensions.jsx), navigation, styles and the column count are not modelled.
- The `focus` listener registers `fetchData` from the first render, so it reloads with the page of that render. Listeners and effects are not modelled. The effect that reloads on a page change is a separate call to `Screen.FetchData`.
- Asynchrony: callbacks, console logging and the undefined `reject`/`onError` calls are not modelled. A failed statement changes nothing. A failed fetch leaves `isLoading` on.
- The `Alert` confirmation of "delete all" is not modelled. `HandleDeleteAll` is the confirmed branch.
- The SQL engine is modelled by the semantics of each statement, not as a parser. Column type affinity (`TIMESTAMP`, `DECIMAL`) is not modelled: dates are stored as text and sizes as integers.
- Store.OrderByExpiry: SQLite leaves the order of rows with equal dates unspecified. The model keeps them in rowid order. Sortedness, the permutation property and the page bounds hold for any tie order. Only which of two equally dated rows falls on which side of a page boundary depends on this choice.
- Strings.ToLower: only the Basic Latin and Latin-1 capitals are mapped. Other Unicode case mappings of `toLowerCase`, including those that change the length, are not modelled.
- Create.ParseInt: the result is an exact integer. JavaScript rounds numerals above 2^53 to a double, and `-0` is treated as 0. Neither changes the outcome of validation.
- Navigation back to the list after a save is not modelled. `HandleGuardar` reports it through `saved`.
