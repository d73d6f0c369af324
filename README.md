# Wine cellar inventory, modelled in Dafny

This project models the core of a small self-hosted wine-cellar tracker
written in Rust (axum, sqlx on SQLite, maud). The parts modelled are:

- **The tables** (`src/db.rs`). A `Database` object holds one sequence of rows
  per table: wines, inventory events, wine–grape links, the grape catalogue
  and comments. The query methods filter by `wine_id`. None of the queries has
  an `ORDER BY`, so each query method promises its rows only as a multiset.
  The state-changing methods state the whole new table. `set_wine_grapes`
  deletes and then inserts inside a transaction. The model runs these
  statements on a private copy. A failure oracle picks the first failing
  statement, and the copy is committed only if all of them succeed.
- **The ledger and the wine table** (`src/web/markup.rs`). A wine's bottle
  count is the sum of the signed deltas of its events (`Stock`). The sum does
  not depend on event order. `wine_table` builds one row per wine in the order
  the wine query returned them. Each row has the wine's id, name, year, bottle
  count and grapes. The grape form shows one checkbox per catalogue grape. A box
  is ticked exactly when the wine has that grape.
- **The handlers** (`src/web/handlers.rs`):
  - The grape form decoder splits the body on `&`. From each segment it takes
    the text between the first and second `=`.
  - Buy stores the submitted count and drink stores its negation. The
    timestamp is the form's date with the server's time of day.
  - The multipart loop stores every field named `image`, each one overwriting
    the one before. The image is rotated exactly when the user agent contains
    `iPhone`.
  - The image download falls back to no bytes when the wine has no image.
- **Error responses** (`src/web/error.rs`). Each constructor has its status.
  A 4xx error shows its own message on a warning background. Anything else
  shows the fixed text `Internal Error`, whatever the message was.

Library calls and the environment enter as parameters that hold their
outcome: percent/UTF-8 decoding of the grape form, chrono's `%Y-%m-%d` date
parsing, the server clock, the image conversion (`convert_image`), the
multipart stream, and the first failing statement of the grape transaction.
`Text` reproduces Rust's `str::split` and `str::contains` for the one-character
and substring patterns the handlers use.

Points where the model follows the code rather than a plausible reading of
the application:

- `buy_wine` and `drink_wine` do not check the count
  (src/web/handlers.rs:96-98, 118-123). Any integer, zero and negative
  included, is stored, and the model stores it too.
- A malformed date fails `parse_from_str(...)?`, and `?` goes through
  `From<E> for AppError`, so the answer is status 500 with the message hidden
  (`Handlers.BuyWine`, `Handlers.DrinkWine`), not a client error.
- `db::Wine` (src/db.rs:1-7) has one optional image, and the model stores only
  that. `wine_table` reads an `image_thumbnail_b64` field that `db::Wine` does
  not declare (src/web/markup.rs:55).

Five functions that the handlers call are not defined in `src/db.rs`. The
model assumes plain operations on the tables for them, with no extra checks:

- `delete_wine` (src/web/handlers.rs:34): the model assumes it removes the
  wine together with its events, grape links and comments (a cascade).
- `add_wine_event` (src/web/handlers.rs:98, 123): the model assumes it
  appends one ledger row, without checking that the wine exists.
- `add_wine_comment` (src/web/handlers.rs:76): the model assumes it appends
  one comment row.
- `set_wine_image` (src/web/handlers.rs:161): the model assumes an `UPDATE`
  that overwrites the image of the row with that id.
- `wine_image` (src/web/handlers.rs:173): the model assumes a `fetch_one` of
  that row's image, failing like `get_wine` when the row is missing.

`add_wine` (src/db.rs:43-48) inserts without an id, so the database picks
it. The table schema is not part of this model. The model assumes the new
id is `1 + ` the largest id in use, or 1 when no id is positive. That
matches SQLite's rowid rule while ids are positive. It does not capture
`AUTOINCREMENT`, which never reuses the id of a deleted row. The only
property used is that the new id differs from every id in use.

## Model

| member | source | states |
|---|---|---|
| `Text.Split` | src/web/handlers.rs:49-50 | `str::split` with one separator: at least one piece, at least two exactly when the separator occurs, and no piece contains it |
| `Text.JoinSplit` | src/web/handlers.rs:49 | joining the pieces of a split with the separator gives back the input, so splitting loses nothing |
| `Text.SplitOfPiece` | src/web/handlers.rs:49-50 | a string without the separator splits into itself alone |
| `Text.SplitAfterPiece` | src/web/handlers.rs:49-50 | a separator after a separator-free prefix ends exactly that piece |
| `Text.SplitJoin` | src/web/handlers.rs:49 | splitting undoes joining when no piece contains the separator |
| `Text.ContainsIff` | src/web/handlers.rs:158 | `contains` holds exactly when the pattern occurs at some position of the string |
| `Db.Where` | src/db.rs:34 | a `WHERE` filter keeps exactly the rows that pass it and is never longer than the table |
| `Db.WhereCount` | src/db.rs:34 | a filter keeps every copy of a passing row and no copy of any other row |
| `Db.ReplaceGrapesOwn` | src/db.rs:78-86 | after the delete and the inserts, the wine's grapes are exactly the given list, and an empty list clears them |
| `Db.ReplaceGrapesOther` | src/db.rs:78 | replacing one wine's grapes leaves every other wine's grapes unchanged |
| `Db.ReplaceGrapesIdempotent` | src/db.rs:76-88 | setting the same grape list twice leaves the same table as setting it once |
| `Db.GrapesOfWithout` | src/db.rs:78-80 | after the delete, the wine has no grape rows left |
| `Db.GrapesOfRows` | src/db.rs:82-86 | the inserted rows hold exactly the given names, in order, for that wine |
| `Db.GrapesOfOtherRows` | src/db.rs:82-86 | the inserted rows hold no grape for any other wine |
| `Db.FindWine` | src/db.rs:50-55 | `fetch_one` by id finds a row exactly when some row has that id, and the row it returns has that id |
| `Db.NextWineId` | src/db.rs:43-48 | the id of a new wine is larger than every id in use |
| `Db.SetImageRows` | src/web/handlers.rs:161 | storing an image sets the image of the rows with that id and changes no other row |
| `Db.SetImageTwice` | src/web/handlers.rs:153-162 | a second stored image overwrites the first completely |
| `Db.FindAfterSetImage` | src/web/handlers.rs:161-175 | reading a wine after storing its image gives that image |
| `Db.Database.constructor` | src/db.rs:16-19 | `connect` attaches to an existing database: the object holds exactly its tables, whose wine ids are distinct |
| `Db.Database.Wines` | src/db.rs:21-26 | `wines` returns every wine row, in no promised order |
| `Db.Database.WineInventoryEvents` | src/db.rs:28-41 | `wine_inventory_events` returns exactly the event rows of that wine, in no promised order |
| `Db.Database.AddWine` | src/db.rs:43-48 | `add_wine` appends exactly one row with the name, the year, a fresh id and no image, and keeps ids unique |
| `Db.Database.GetWine` | src/db.rs:50-55 | `get_wine` succeeds exactly when a row has that id and returns a row with that id, which is the only one while ids are distinct; otherwise it fails with not-found |
| `Db.Database.GetWineGrapes` | src/db.rs:57-69 | `get_wine_grapes` returns exactly the grape names linked to that wine, in no promised order |
| `Db.Database.SetWineGrapes` | src/db.rs:70-91 | `set_wine_grapes` either commits the delete and the inserts for that wine, or on any failing statement leaves the table as it was |
| `Db.Database.GetGrapes` | src/db.rs:93-98 | `get_grapes` returns the grape catalogue, in no promised order |
| `Db.Database.AddWineEvent` | src/web/handlers.rs:98 | `add_wine_event` appends exactly one ledger row, without checking the wine |
| `Db.Database.AddWineComment` | src/web/handlers.rs:76 | `add_wine_comment` appends exactly one comment row |
| `Db.Database.DeleteWine` | src/web/handlers.rs:34 | `delete_wine` removes the wine and all its events, grape links and comments, and nothing else |
| `Db.Database.SetWineImage` | src/web/handlers.rs:161 | `set_wine_image` overwrites the image of the wine with that id and keeps ids unique |
| `Db.Database.WineImage` | src/web/handlers.rs:173-174 | `wine_image` succeeds exactly when the wine exists and returns its image, which may be absent; while ids are distinct it is the image of the one row with that id |
| `Markup.SumPermutation` | src/web/markup.rs:46 | the summed deltas do not depend on the order of the events |
| `Markup.StockPermutation` | src/web/markup.rs:43-46 | a wine's bottle count is the same for any order in which the events were recorded |
| `Markup.StockAppend` | src/web/markup.rs:43-46 | one more event moves its own wine's count by its delta and no other wine's count |
| `Markup.StockWithoutEvents` | src/web/markup.rs:43-46 | a wine without events shows 0 bottles |
| `Markup.WineTable` | src/web/markup.rs:27-58 | one row per wine in the order the wine query returned them, each with that wine's id, name and year, the sum of its events' deltas, and exactly its grapes |
| `Markup.EditWineGrapes` | src/web/markup.rs:196-216 | the boxes cover the grape catalogue exactly (as a multiset) and each is ticked exactly when the wine has that grape |
| `Errors.IntoResponse` | src/web/error.rs:42-61 | the response keeps the status; a 4xx shows the error's own text with `text-bg-warning`, anything else shows `Internal Error` with `text-bg-danger` |
| `Errors.BadRequest` | src/web/error.rs:9-17 | `bad_request` is answered with status 400 and its own message |
| `Errors.PayloadTooLarge` | src/web/error.rs:19-27 | `payload_too_large` is answered with status 413 and its own message |
| `Errors.FromError` | src/web/error.rs:30-40 | an error converted by `From` is answered with status 500 and only `Internal Error` |
| `Errors.ServerErrorHidesMessage` | src/web/error.rs:47-49 | two server errors with the same status get the same response, whatever their messages |
| `Errors.ClientErrorShowsMessage` | src/web/error.rs:44-46 | two client errors with the same status get the same response exactly when their messages are equal |
| `Handlers.SecondField` | src/web/handlers.rs:50 | `split("=").nth(1)` gives a value exactly when the segment contains `=`, and the value contains no `=` |
| `Handlers.SecondFieldOf` | src/web/handlers.rs:50 | for any key, the value is the text between the first and the second `=`, so `a=b=c` gives `b` |
| `Handlers.FormValues` | src/web/handlers.rs:48-54 | the loop never emits more names than there are segments |
| `Handlers.DecodeGrapeForm` | src/web/handlers.rs:48-54 | the decoding loop emits exactly the names of `DecodedGrapes` |
| `Handlers.SegmentWithoutValue` | src/web/handlers.rs:50-53 | a segment without `=` contributes nothing, wherever it stands |
| `Handlers.SegmentWithValue` | src/web/handlers.rs:50-53 | a segment with `=` contributes its value at its own place in the output |
| `Handlers.DecodeGrapeFormBody` | src/web/handlers.rs:44-54 | decoding a `grapes=n1&grapes=n2...` body gives back the names, in order, when no name contains `&` or `=` |
| `Handlers.DecodeTwo` | src/web/handlers.rs:43-54 | a body with two `grapes` fields decodes to their two names, in order, when neither holds `&` or `=` |
| `Handlers.DecodeExample` | src/web/handlers.rs:43-54 | `grapes=Barbera&grapes=Gamay` decodes to `Barbera`, `Gamay` |
| `Handlers.PostWineGrapes` | src/web/handlers.rs:39-61 | a decoding failure answers 500 before any grape row changes; otherwise the wine's grapes are replaced by the decoded list all-or-nothing, and the wine table is rendered |
| `Handlers.BuyThenDrinkNetZero` | src/web/handlers.rs:98-123 | buying n bottles and then drinking n leaves the wine's count unchanged |
| `Handlers.BuyWine` | src/web/handlers.rs:88-101 | a date parse failure answers 500 with no event written; otherwise one event with the count unchanged, the form's date and the server's time of day, which raises the count by that much |
| `Handlers.DrinkWine` | src/web/handlers.rs:110-126 | as buying, but the event holds the negated count and lowers the count by that much |
| `Handlers.UploadStoresOnlyImageFields` | src/web/handlers.rs:153-159 | every stored image is the conversion of the body of a field named `image` |
| `Handlers.UploadSucceedsIffClean` | src/web/handlers.rs:153-159 | the upload ends without error exactly when every field arrives and every `image` field is read and converts |
| `Handlers.UploadStoresEveryImageField` | src/web/handlers.rs:153-162 | an upload without error stores the conversion of every `image` field, one for one, in stream order |
| `Handlers.LastImageWins` | src/web/handlers.rs:153-162 | after a clean upload with an `image` field, the last image stored is the conversion of the last `image` field |
| `Handlers.SetWineImage` | src/web/handlers.rs:143-165 | the wine ends with the last converted `image` field, converted with rotation exactly for an iPhone user agent; the first stream, read or conversion error answers 500 and keeps what was already stored |
| `Handlers.WineImage` | src/web/handlers.rs:167-176 | the wine's stored bytes, no bytes when it has no image, and a 500 when the wine row is missing |
| `Handlers.AddWine` | src/web/handlers.rs:13-19 | adding a wine appends exactly one wine row with the form's name and year |
| `Handlers.DeleteWine` | src/web/handlers.rs:26-37 | deleting a wine removes it and its dependent rows, then renders the wine table |
| `Handlers.AddComment` | src/web/handlers.rs:68-79 | a comment is stored with the server's current date and time, then the wine table is rendered |

## Left out

- Db.Database.constructor: does not model the failure of `connect` (src/db.rs:16-19) when `DATABASE_URL` is unset or the database cannot be opened. The model starts from a connected database. It also assumes that the `id` primary key keeps wine ids distinct, because the table schema is not part of this model.
- Image processing: decoding, `rotate90`, the 512×512 Gaussian resize and PNG encoding in `convert_image` are calls into the `image` crate. The conversion is a parameter that may fail.
- Date parsing and the clock: the outcome of chrono's parser and the value of `Local::now()` are parameters.
- Percent/UTF-8 decoding of the grape form is a library call. The handlers take its outcome. The whole body is decoded before it is split, so a grape name holding `&` or `=` is split apart. This is why `Handlers.DecodeGrapeFormBody` requires names free of both characters.
- HTML generation: `index`, the form pages, the layout of `wine_information`, `upload_wine_image`, and `src/web/markup/image.rs` are presentation only. Responses are modelled as the data they show.
- The thumbnail that `wine_table` reads (`image_thumbnail_b64`, src/web/markup.rs:55) is not a field of `db::Wine` (src/db.rs:1-7). Table rows have no thumbnail.
- Database I/O failures are modelled only for `set_wine_grapes`, where all-or-nothing is the point, and for the missing row of `fetch_one`. Every other query succeeds. So the panics of the `.expect` calls in `wine_table` and `edit_wine_grapes` do not arise.
- Handlers.AddWine: the rendering of the new row (`wine_table_row`) is not part of this model. The handler's result says only that it succeeded.
- Handlers.DrinkDelta: does not model the 64-bit overflow of negating `i64::MIN`. Counts are unbounded integers.
- Markup.SumBottles: does not model 64-bit overflow of the summed deltas. Counts are unbounded integers.
- The crop handler `edit_image` with its bounds, `consume_wine`, `wine_table_row`, `wine_table_body` and `db::wine_comments` are not part of this model.
- `src/web.rs`, the routing table, the TCP listener and the upload body limit (`DefaultBodyLimit`) are transport plumbing. `Errors.PayloadTooLarge` is modelled as a constructor only.
- `js/edit-image.js` is browser event handling with floating-point scaling.
- Locking, async concurrency and `src/main.rs` (tracing, migrations, signal handling) are not modelled. Each handler runs as one sequential step on the database object.
