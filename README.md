# MyArtGallery core, modelled in Dafny

MyArtGallery is a small self-hosted gallery for an artist's reference images
and commissions. This project models the three pieces of its Python code
that hold real logic, and proves what they promise:

- **Watermarking** (`utils.py`, `add_watermark`). The model covers:
  - the choice of text and font;
  - the spacing and tile-count arithmetic, over integers and exact rationals;
  - the text tile;
  - the nested paste loop, as a class `Overlay` whose `pasted` list the loop
    extends, proved equal to a row-major placement grid;
  - the RGBA/RGB mode steps and the success flag.
- **Commission uploads and file names** (`app.py`). The model covers:
  - parsing of the `image-order` field, with its fallback;
  - the loop that builds `image_list`;
  - the match-and-pop loop that stores each named upload once, at its
    position in the order list;
  - the order pairs and appended display orders used when a commission is
    edited;
  - timestamped upload names and the display name recovered from them;
  - the `db_path` strings;
  - the entry paths and file name of the references zip.
- **The in-Python table logic of `db.py`**. Tables are sequences of rows in
  table order. Each `UPDATE` or `DELETE` is a function from the old table to
  the new one. The model covers:
  - `convert_date_fields`, as a method with its loop;
  - the nested-dictionary grouping of `get_organized_references`, as a method
    with its loop;
  - `update_settings` and the `get_site_title`/`get_contact_link` defaults;
  - the guarded `delete_artist`;
  - `rename_category` and `rename_subcategory` with their row counts;
  - the replace-all item update of `update_custom_reference`.

Python's `str(int)`, `int(str)` and three `strftime`/`strptime` layouts are
modelled in `numerals.dfy` and `dates.dfy`, with round-trip lemmas. The other
files are:

| file | contents |
|---|---|
| `strings.dfy` | `str.split`/`join` |
| `options.dfy` | `Option` and Python truthiness of optional strings |
| `records.dfy` | column values and `str()` of them |
| `watermark.dfy` | `utils.py` |
| `naming.dfy` | file names, paths and the zip in `app.py` |
| `uploads.dfy` | commission uploads in `app.py` |
| `store.dfy` | date conversion and grouping in `db.py` |
| `tables.dfy` | the table updates in `db.py` |

Things the code takes from outside become parameters:

- image decoding, as an optional decoded image;
- text measurement, as a function from font and text to width and height;
- whether `arial.ttf` loads and whether `save` succeeds, as booleans;
- `datetime.now()`, `uuid4()` and the success of `add_watermark`, as
  functions indexed by the number that goes into the stored file name;
- `secure_filename` and the werkzeug password hash, as uninterpreted
  functions;
- `os.path.exists`, as a predicate on paths.

## Model

| member | source | states |
|---|---|---|
| Watermark.WatermarkText | utils.py:20-22 | A missing or empty text becomes exactly "DO NOT USE FOR AI TRAINING"; a non-empty text is used unchanged; the text used is never empty |
| Watermark.LoadFont | utils.py:14-18 | The font is arial.ttf at size 36 exactly when it loads, and the built-in default otherwise |
| Watermark.SpacingX | utils.py:31 | The horizontal spacing is a multiple of 3 and `spacing_x // 3` is the text width |
| Watermark.SpacingY | utils.py:32 | The vertical spacing is exactly 2.5 text heights (`2 * spacing_y == 5 * h`) |
| Watermark.CeilDivBounds | utils.py:36-37 | The integer ceiling used for `math.ceil` is the least multiple count covering the dividend |
| Watermark.NumXBounds | utils.py:36 | `num_x - 2` columns of `spacing_x` cover the width and `num_x - 3` do not, i.e. `num_x == ceil(W / spacing_x) + 2` |
| Watermark.NumYBounds | utils.py:37 | `num_y - 6` rows of `spacing_y` cover the height and `num_y - 7` do not, i.e. `num_y == ceil(H / spacing_y) + 6` |
| Watermark.RowYIsFloor | utils.py:58-63 | `int(i * spacing_y - h)` equals `floor((5ih - 2h) / 2)` for every row |
| Watermark.RowYStep | utils.py:53-58 | Row anchors strictly increase, by at most 3 text heights per row |
| Watermark.RowShape | utils.py:54-71 | Row `i` holds `3 * num_x` tiles, tile `m` at `x = (m - 1) * w`, `y = int(y_i)`, rotated +30°, −30°, +30° in turn per cell |
| Watermark.RowsLayout | utils.py:53-71 | The nested loop's placements form `rows * 3 * columns` tiles in row-major order, tile `k` in row `k / (3 * columns)` |
| Watermark.GridLayout | utils.py:36-71 | The grid has exactly `3 * num_x * num_y` placements in row-major order with the x, y and rotation of each |
| Watermark.GridFirstTile | utils.py:57-63 | The first tile is anchored at `(-w, -h)` with +30° rotation, so the top-left corner is covered |
| Watermark.GridReachesRight | utils.py:36-70 | The last x offset of every row, `(3 * num_x - 2) * w`, lies at least `4w` beyond the right edge |
| Watermark.GridReachesBottom | utils.py:37-58 | The last row's anchor lies at or below the bottom edge |
| Watermark.TextTile | utils.py:41-46 | The tile is `2w x 2h` with the text anchored at exactly `(w // 2, h // 2)`; the anchor and a `w x h` box from it lie inside the tile; the text is drawn in white at alpha 128 |
| Watermark.Overlay.constructor | utils.py:11 | A new overlay has the image's size and no tiles |
| Watermark.Overlay.Paste | utils.py:63 | A paste appends one placement and changes nothing else |
| Watermark.PasteCell | utils.py:57-71 | One pass of the inner loop appends exactly the three placements of cell `(i, j)` |
| Watermark.DrawGrid | utils.py:53-71 | The nested loop appends exactly the row-major grid of placements to the overlay |
| Watermark.AddWatermark | utils.py:5-88 | The result is `True` exactly when the image decodes, the text box is non-degenerate and saving succeeds; the written image then has the source's size, is RGB, and carries the full grid of the chosen text and font on top |
| Numerals.ParseIntOfIntToString | app.py:513 | `int(str(i)) == i` for every integer |
| Dates.ParseFormatDateTime | db.py:24-27 | A datetime formatted as `%Y-%m-%d %H:%M:%S` parses back to itself with that layout |
| Dates.ParseFormatDate | db.py:24-27 | A date formatted as `%Y-%m-%d` parses back to that day at midnight |
| Records.PyStr | app.py:866 | An f-string renders text as itself, `None` as "None" and an integer as digits that parse back to it |
| Naming.StampedName | app.py:227 | A stamped name is 14 digits, an underscore and the secured name |
| Naming.DisplayName | app.py:235 | The display name is what follows the first underscore, or the whole name when there is none |
| Naming.DisplayNameOfStampedName | app.py:227-235 | The display name of a stamped upload name is exactly the name that was stamped |
| Naming.NewReferenceName | app.py:234-235 | A given non-empty name is kept; otherwise the display name of the stored file is used |
| Naming.NewReferenceNameIsUploadName | app.py:225-235 | A reference added without a name is named after the uploaded file |
| Naming.EditedReferenceNameAsWritten | app.py:276-281 | As written, an empty or missing name makes the request fail before `update_reference`, since the row is a `dict` (db.py:15) and `reference.filename` raises; any other name is saved as given |
| Naming.EditedReferenceName | app.py:276-278 | Intended: an empty name is replaced by the stored file's display name only when that file name is non-empty; a non-empty name is kept, as the code as written keeps it |
| Naming.EditedReferenceNameIsUploadName | app.py:225-278 | Intended: clearing the name of an uploaded reference renames it after the uploaded file |
| Naming.EditedReferenceNameAsWrittenFails | app.py:276-278 | For every stored upload name a cleared name makes the route as written fail, while the intended route saves the uploaded name |
| Naming.CommissionFileNameFields | app.py:544 | The stamp and the position are the first two underscore-separated fields of a commission image name |
| Naming.DbPath | app.py:553-565 | The path is `{id}/watermarked/{uuid}.jpg` exactly when watermarking was requested and succeeded, and `{id}/original/{name}` otherwise |
| Naming.OriginalPathFields | app.py:553 | An original path splits into the id, "original" and the file name |
| Naming.WatermarkedPathFields | app.py:565 | A watermarked path splits into the id, "watermarked" and `{uuid}.jpg` |
| Naming.DbPathFields | app.py:553-565 | Any stored path splits into three parts whose first parses back to the commission id and whose folder says which copy is shown |
| Naming.ZipEntryPathFields | app.py:866 | A zip entry path splits back into category, subcategory and file name |
| Naming.ZipFileName | app.py:881-886 | The zip name is the site title, " References - ", then the custom name when truthy or else today's date (parsing back to today), then ".zip" |
| Naming.ZipContentsHas | app.py:860-873 | Every reference whose file exists on disk has its entry in the zip |
| Naming.WriteZip | app.py:860-873 | The loop writes one entry per reference whose file exists, in order; every entry's file exists, and none is missed |
| Uploads.ParseAll | app.py:513 | The list comprehension succeeds exactly when every item parses, and then yields each item's integer in order |
| Uploads.OrderedIndices | app.py:507-519 | An empty `image-order` field yields `range(len(images))` |
| Uploads.OrderedIndicesFallback | app.py:510-516 | A field with an item that is not an integer yields `range(len(images))` |
| Uploads.OrderedIndicesOfOrderField | app.py:510-513 | A non-empty order list sent as comma-separated integers is parsed back unchanged |
| Uploads.Candidates | app.py:531-534 | `image_list` holds exactly the uploads with a file name, with their positions, in increasing position order |
| Uploads.BuildImageList | app.py:531-534 | The building loop produces exactly those candidates |
| Uploads.RemainingPop | app.py:571 | In an increasing candidate list, `pop(idx)` at the found position removes exactly the candidates with that upload position |
| Uploads.FindCandidate | app.py:539-540 | The search stops at the first candidate with the wanted position, or at the end when there is none |
| Uploads.MatchStep | app.py:539-572 | The search finds a candidate exactly when the position names an unused upload with a file, and popping it leaves the candidates of the still unused positions |
| Uploads.MatchOutcome | app.py:537-572 | One outer step stores the found upload at display order `p` and pops it, or stores nothing and leaves the list |
| Uploads.MatchPosition | app.py:537-572 | The body of the outer loop advances both the candidate list and the stored rows by exactly one position of the order list |
| Uploads.StoreOrderedImages | app.py:531-572 | The rows stored are exactly those of the first-occurrence matches of the order list, in order |
| Uploads.MatchesShape | app.py:537-568 | Every stored upload has a file, is named by the order list at its display order for the first time there, and display orders strictly increase |
| Uploads.MatchedAtMostOnce | app.py:570-572 | No upload is stored twice, however often the order list names it |
| Uploads.MatchesComplete | app.py:537-572 | Every upload with a file that the order list names is stored, at the first position naming it |
| Uploads.DefaultOrderStoresAll | app.py:517-572 | With the default order every upload with a file is stored with its own position as display order |
| Uploads.ImageOrderPairs | app.py:615-627 | Pairs are produced exactly when the field is non-empty and every item parses as an integer; then pair `k` is the `k`-th parsed id with position `k`, and otherwise no order is updated |
| Uploads.ImageOrderPairsOfOrderField | app.py:619-622 | Each image id sent in the order field is paired with its position |
| Uploads.NewMatchesShape | app.py:644-673 | An edit appends exactly the uploads with a file, upload `i` at display order `i + len(existing images)`, in increasing order |
| Uploads.AppendNewImages | app.py:644-673 | The edit loop stores exactly those rows, in upload order |
| Store.FirstParse | db.py:24-30 | The layouts are tried in order and the first that parses wins; the result is `None` exactly when none parses |
| Store.ConvertValue | db.py:17-33 | Text that either layout parses becomes the datetime of the first layout that does; any other value is unchanged |
| Store.ConvertFormattedDateTime | db.py:24-28 | A stored `%Y-%m-%d %H:%M:%S` value converts to its datetime |
| Store.ConvertFormattedDate | db.py:24-30 | A stored `%Y-%m-%d` value falls through to the second layout and converts to that day at midnight |
| Store.ConvertValueIdempotent | db.py:19-20 | Converting a converted value changes nothing |
| Store.Converted | db.py:15-17 | The copy has the same keys, and the fields not listed are unchanged |
| Store.ConvertDateFields | db.py:11-34 | `None` stays `None`; otherwise the result is the copy with exactly the listed fields converted |
| Store.Visible | db.py:220-223 | With `include_private` every row is fetched; without it only rows with `public == 1` are |
| Store.VisibleKeepsPublic | db.py:223 | No public row is dropped |
| Store.BucketPosition | db.py:229-239 | Every row lands once in its own bucket, after exactly the earlier rows of that bucket |
| Store.Insert | db.py:233-239 | The category and subcategory are created on first use and the row is appended to that bucket; all else is unchanged |
| Store.GroupingKeys | db.py:233-234 | A category is a key exactly when some row has it |
| Store.GroupingBuckets | db.py:236-239 | Under a category, a subcategory is a key exactly when some row has both, and its list holds those rows, converted, in row order |
| Store.GroupingShape | db.py:228-239 | The two facts above for every category and subcategory |
| Store.Organize | db.py:228-239 | The loop builds exactly the grouping of its rows |
| Store.GetOrganizedReferences | db.py:216-242 | The fetched rows, grouped: category keys, subcategory keys and bucket contents as above |
| Tables.GetSiteTitle | db.py:150-156 | The first admin row's title, or "Art Commission Gallery" when there is no row |
| Tables.GetContactLink | db.py:162-168 | The first admin row's link when it is non-empty, and `''` otherwise |
| Tables.UpdateSettings | db.py:195-213 | Title and password hash change only for truthy arguments, the contact link whenever one is given (`''` included); nothing else changes; the result is `True` |
| Tables.UpdateSettingsIdempotent | db.py:201-209 | Submitting the same settings twice, each submission hashing with its own salt, leaves every column but the password as one submission does, and the whole table when no new password is given |
| Tables.SiteTitleAfterUpdate | db.py:201-202 | After an update the title reads back as the new one, or as before when none was given |
| Tables.ContactLinkAfterUpdate | db.py:208-209 | After an update the contact link reads back as the given one, or as before when none was given |
| Tables.WithoutArtist | db.py:492 | Exactly the rows of other artists remain |
| Tables.DeleteArtist | db.py:479-495 | Deletion succeeds exactly when no commission names the artist; a refusal deletes nothing |
| Tables.DeleteArtistKeepsArtistsOfCommissions | db.py:483-489 | Every commission's artist still exists after a deletion |
| Tables.SetWhere | db.py:703-708 | The `UPDATE` renames exactly the rows its `WHERE` selects and keeps the number of rows |
| Tables.RenameRowBack | db.py:703-707 | On one row, renaming to an unused name and back restores the row |
| Tables.SetWhereCount | db.py:708 | The reported `rowcount` is the number of rows the `WHERE` selects |
| Tables.SetWhereMoves | db.py:697-737 | Renaming to an unused name leaves no row under the old name and exactly the reported number under the new one |
| Tables.SetWhereRoundTrip | db.py:697-737 | Renaming to an unused name and back restores the table and reports the same count |
| Tables.RenameCategory | db.py:697-711 | Exactly the references in the old category move to the new one; the result is their number |
| Tables.RenameSubcategory | db.py:713-737 | With a non-empty category only rows matching both are renamed, otherwise all rows with the subcategory; other rows are unchanged; the result is their number |
| Tables.WithoutItems | db.py:406 | Exactly the items of other custom references remain |
| Tables.NewItems | db.py:408-413 | One item per selected reference, in the given order |
| Tables.ItemsOfWithout | db.py:406 | After the `DELETE` the custom reference has no items and the others keep theirs |
| Tables.ItemsOfNew | db.py:408-413 | The inserted items belong to the custom reference alone |
| Tables.UpdateCustomReference | db.py:394-417 | The custom reference is renamed, its items become exactly the given ids in order, every other custom reference keeps its items, and the result is `True` |
| Tables.UpdateCustomReferenceIdempotent | db.py:394-417 | Saving the same selection twice gives the tables one save gives |

## Left out

- Pixel work is not modelled, so the overlay is the list of `(x, y, rotation)` placements the loop produces and an image is its size, mode and placements. This covers:
  - Pillow decoding;
  - `textbbox` measurement;
  - glyph rendering;
  - `rotate(..., expand=1)` with its float trigonometry;
  - masked `paste` and `alpha_composite` pixel arithmetic;
  - encoding on `save`.
- The error log line of `add_watermark` and all Flask routing, sessions, flash messages and templates are I/O and are not modelled.
- Watermark.AddWatermark: any other exception raised inside Pillow is not modelled. Only the failures visible in the code are: a failed decode, the division by a zero spacing, and a failed save.
- `utils.py` loads `arial.ttf` at size 36, falling back to Pillow's default font, and draws the text filled. It has no outline, no size scaled to the image width, no platform font lookup and no thumbnails, and neither has the model.
- Watermark.TextTile: the `left` and `top` offsets of `textbbox` are not modelled; only the measured width and height are. Pillow draws the ink shifted by those offsets from the anchor, so the model states that the anchor and a `w x h` box from it lie inside the tile, not the ink itself.
- Filesystem and zip I/O are not modelled: `file.save`, `os.replace`, `os.makedirs`, the directory walks and the `ZipFile` writes. File existence is a predicate, and a zip is its list of `(disk path, archive path)` entries.
- The SQLite connection, SQL text, schema and migrations are not modelled. Tables are sequences in table order.
- Store.GetOrganizedReferences: the `ORDER BY category, subcategory` of the query is not modelled. The rows are taken in the order the query returns them, so buckets are proved to keep that order. Python dict key order is not modelled either, because a map has none.
- The werkzeug hash is a function parameter. Its random salt is modelled only by letting two submissions hash with two functions, in Tables.UpdateSettingsIdempotent. `secure_filename`, `uuid4()` and `datetime.now()` are parameters.
- Tables.UpdateSettingsIdempotent: with a new password, a second submission stores a newly salted hash. The lemma therefore states that every other column is unchanged, and the whole table only when no password is given.
- Numerals.ParseInt: Python `int()` is modelled on ASCII. It strips whitespace and accepts a sign and single underscores between digits. Unicode digits are not modelled.
- Numerals.ParseInt: the interpreter's digit limit (4300 digits by default since Python 3.11) is not modelled. There, `int()` raises `ValueError` on a longer numeral, and an image order holding one falls back to upload order (app.py:514-516); the model parses it. Numerals.ParseIntOfIntToString likewise holds for integers of any length, where `str()` of a longer one raises.
- Dates.ParseDateTime: `strptime` is modelled in its strict form, with every field at full width. Its acceptance of non-padded fields (`2024-1-5`) is not modelled. Dates.ParseDate likewise.
- Junction-table row ids and SQLite type affinity are not modelled. Ids are integers, and columns hold `None`, text, integers or datetimes.
- Tables.UpdateSettings: the three `UPDATE [admin]` statements have no `WHERE`, so they are applied to every admin row, as in the code.
- The `commission['images']` count used as the edit offset is an input: the query that produces it is not part of this model.

## Findings

| source | as written | input that shows it | evidently intended | confidence | as-written member | corrected member |
|---|---|---|---|---|---|---|
| app.py:277 | `reference.filename` is read from the `dict` that `get_reference_by_id` returns (db.py:15, db.py:278), which raises `AttributeError` | editing any reference with the name field left empty | the name becomes the display name of the stored file, `reference['filename']` | not executed | Naming.EditedReferenceNameAsWritten, Naming.EditedReferenceNameAsWrittenFails | Naming.EditedReferenceName, Naming.EditedReferenceNameIsUploadName |
