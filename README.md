# Home page content selection of the Tripper Press site

The site's home page (`app/page.jsx`) lists recent essays and a photo album. This project models its only logic.

- **Recent-items selection** (`fetchBlogData`). The page sorts the shared collections `allPosts` and `allPhotos` in place, newest first. It uses `Array.prototype.sort` with the `compareDesc` comparator. That sort is stable: items with equal dates keep their relative order. The page then returns copies of the first 3 essays and the first 8 photos.
- **Display fields** of each selected item:
  - the cover image, or a placeholder URL built from the title;
  - the date rendered as `yyyy-MM-dd`;
  - an optional `" · " + category` suffix on an essay's date line;
  - the excerpt, shown as it is.

The project has four modules:

- `Wrappers` (`wrappers.dfy`): the `Option` type for fields that may be missing.
- `Dates` (`dates.dfy`): calendar dates and their chronological order `Before`. It also holds the descending comparator `CompareDesc` and the `yyyy-MM-dd` rendering `FormatDate`. `ParseDate` reads a rendering back; it is the partner of `FormatDate`.
- `Selection` (`selection.dfy`): the core, written for any item type with a date key.
  - `Sort` defines the stable descending sort as a function: insertion, one item at a time.
  - `Select` is the sorted prefix of length `min(|s|, limit)`.
  - `SortByDateDesc` is the in-place insertion sort on an `array`. It is proved equal to `Sort` of the old contents.
  - Lemmas prove that the result is sorted, a permutation, stable, idempotent, made of the most recent items, and unique.
- `Page` (`page.dfy`):
  - the `Post` and `Photo` records;
  - `FetchBlogData`, which sorts both arrays and slices them;
  - the display functions;
  - `Home`, which puts these together.

Stability is stated per date. For every date `d`, `WithDate(s, key, d)` is the sub-sequence of items of `s` dated `d`. The sort leaves each such sub-sequence unchanged. `StableSortIsUnique` shows that every arrangement that is newest first and stable in this sense equals `Sort(s)`. So the result does not depend on which sorting algorithm a JavaScript engine uses.

Three points about the model are easy to miss:

- The selection is not pure: the code sorts the module-level arrays in place, so `FetchBlogData` modifies both arrays.
- The code tests the cover and the category for JavaScript truthiness, so an empty string counts as absent (`Truthy`).
- An item's date is a `CalendarDate`: a `Date` for which `Valid` holds (year 1 onwards, a month 1..12, a day that exists in that month).

## Model

| member | source | states |
|---|---|---|
| Dates.CompareDesc | app/page.jsx:15 | The comparator is positive exactly when the first date is earlier, negative exactly when it is later, and zero exactly on equal dates. |
| Dates.BeforeIsStrictTotalOrder | app/page.jsx:15 | The date order is irreflexive, asymmetric, transitive and total, so the comparator is a consistent one. |
| Dates.CompareDescAntisymmetric | app/page.jsx:15 | Swapping the arguments of the comparator negates its result. |
| Dates.PadDigits | app/page.jsx:59 | A `yyyy`/`MM`/`dd` field consists of decimal digits and is at least as wide as its pattern. |
| Dates.PadDigitsInFull | app/page.jsx:59 | A number of at least 10^width is written in full: its first character is not a padding zero. |
| Dates.PadDigitsLength | app/page.jsx:59 | A number below 10^width is written in exactly `width` digits, with leading zeros. |
| Dates.ValueOfPadDigits | app/page.jsx:59 | The padded digits denote the number they were made from. |
| Dates.FormatDate | app/page.jsx:59 | For an existing date the rendering has at least ten characters, a dash before the two month digits and before the two day digits, and digits in the year, month and day fields. |
| Dates.FormatDateRoundTrip | app/page.jsx:59 | Parsing the `yyyy-MM-dd` rendering of any existing date gives that date back. |
| Dates.FormatDateShape | app/page.jsx:59 | For a four-digit year the rendering has 10 characters: dashes at positions 4 and 7, digits elsewhere. |
| Selection.Insert | app/page.jsx:15 | Inserting one item into the arrangement adds exactly that item: the length grows by one and the multiset gains `x`. |
| Selection.Sort | app/page.jsx:15 | The sorted sequence is a permutation of the collection: same length, same multiset. |
| Selection.SortIsSorted | app/page.jsx:15 | The sorted sequence is newest first: no item is earlier than an item after it. |
| Selection.SortIsStable | app/page.jsx:15 | For every date, the items of that date appear in the sorted sequence in their original order. |
| Selection.SortOfSorted | app/page.jsx:15 | A collection that is already newest first is left exactly as it is. |
| Selection.SortIdempotent | app/page.jsx:13-21 | Sorting the sorted collection again changes nothing. |
| Selection.SameGroupsEqual | app/page.jsx:15 | Two newest-first sequences that agree on every date's items and their order are equal. |
| Selection.StableSortIsUnique | app/page.jsx:15 | Any newest-first arrangement that is stable for every date equals `Sort(s)`, whatever algorithm produced it. |
| Selection.Select | app/page.jsx:14-19 | The selection has length `min(|s|, limit)` and is the prefix of the sorted collection; an empty collection gives an empty selection. |
| Selection.SelectIsSorted | app/page.jsx:14-19 | Each selection is ordered newest first. |
| Selection.SelectIsMostRecent | app/page.jsx:14-19 | The selection is drawn from the collection, and every selected item is at least as recent as every item left unselected. |
| Selection.SelectIsStable | app/page.jsx:14-19 | For every date, the selected items of that date are the first items of that date in the collection, in their original order. |
| Selection.SelectIdempotent | app/page.jsx:13-21 | Selecting from a selection, or from the already sorted collection, gives the same items. |
| Selection.InsertLast | app/page.jsx:15 | The engine's insertion step: with `a[..i]` sorted, it places `a[i]` as `Insert` does and leaves the rest of the array unchanged. |
| Selection.SortByDateDesc | app/page.jsx:15 | The in-place sort leaves the array holding `Sort` of its old contents. |
| Page.FetchBlogData | app/page.jsx:13-21 | Both arrays end up holding the stable newest-first sort of their old contents, and each sort touches only its own array. The results are the first 3 essays and the first 8 photos, equal to `Select` of the old contents. An array that was already sorted is unchanged. |
| Page.FetchBlogDataTwice | app/page.jsx:13-21 | A second call returns the same essays and photos as the first and leaves both arrays as the first call left them. |
| Page.PostCover | app/page.jsx:47-55 | The cover is the essay's own, optimised, when that is a non-empty string. Otherwise it is the unoptimised placeholder: the og endpoint followed by exactly the title. The alt text is the title and the source is never empty. |
| Page.CategorySuffix | app/page.jsx:60-62 | The suffix is `" · " + category` for a non-empty category and empty otherwise. |
| Page.Truthy | app/page.jsx:47 | An optional string field is truthy exactly when it is present and not the empty string. |
| Page.PostDateLine | app/page.jsx:59-62 | For every year, an essay's date line starts with the rendering of its date, which parses back to that date, and continues with exactly the category suffix. Without a category the line is the date alone. |
| Page.PostDateLineParts | app/page.jsx:59-62 | Only for four-digit years (it requires `year < 10000`): the first ten characters of the date line parse back to the essay's date, and the rest is exactly the category suffix. |
| Page.ExcerptText | app/page.jsx:64 | The excerpt is shown unchanged, or as nothing when missing. |
| Page.PresentPost | app/page.jsx:43-66 | An essay's card links to `/post/<url>` and is built from its cover, title, date line and excerpt. |
| Page.PresentPhoto | app/page.jsx:82-90 | A photo's tile links to `/album/<url>` and uses the photo's cover verbatim and its title. The date line is the rendered date with no category. |
| Page.Home | app/page.jsx:23-95 | The page shows one card per selected essay and one tile per selected photo, in newest-first order, and leaves both collections sorted. |
| Page.SelectExample | app/page.jsx:14-16 | For dates 2023-01-01, 2023-06-01 and 2023-03-01 with limit 2, the selection is June then March. An empty collection with limit 3 gives nothing. |

## Left out

- Layout: the JSX structure, CSS module classes, the `next/image` and `next/link` components and their sizes, and the page `metadata` are presentation only (app/page.jsx:7-11, 25-111).
- `app/components/footer/footer.jsx` is static markup with nothing to compute. It is not part of this model.
- The content layer that generates `allPosts` and `allPhotos`: the model takes the two collections as given arrays.
- `async`/`await`: nothing suspends in practice, so `FetchBlogData` and `Home` are plain methods.
- Date parsing and time zones. An item's date is a `CalendarDate` value, so it exists. The model does not distinguish the sort's `new Date(...)` (UTC for date-only strings) from the display's `parseISO` (local time).
- Dates.CompareDesc: compares calendar dates only. The time of day within a date, and the NaN result for invalid dates, are not modelled.
- Dates.FormatDate: years before year 1 are not modelled: `Valid` requires `1 <= year`. date-fns prints the era year there, so year 0 shows as `0001`.
- Content items with a date that does not exist, such as 2023-02-30, are not representable: the records hold a `CalendarDate`. For such a date the page's `format` call throws instead of rendering.
- Selection.SortByDateDesc: the engine's own sorting algorithm is not modelled. The model uses insertion sort, and `StableSortIsUnique` shows that every stable sort gives the same result.
- Page.PostCover: the title is appended to the placeholder URL without percent-encoding, as the code does. The model makes no claim about how the og endpoint reads a title that contains `&` or `#`.
- The React list keys (`key={post.url}`) and the photo link's scroll margin are rendering concerns, not modelled beyond the anchor id.
