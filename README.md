# PlanetOfSounds catalog page — a Dafny model

PlanetOfSounds is a client-side page for browsing a directory of music bands. Its `script.js` lists the
stored bands filtered by a genre selector and a search box, fills the genre selector with the catalog's
genres, shortens each card's description, and handles two forms: registering a user and adding a band.
Both forms read a list from local storage, append one record and write the list back.

This project models that logic with the DOM and storage plumbing removed:

- `text.dfy` (module `Text`): JavaScript's `trim` (exactly, over ECMAScript's whitespace and line
  terminator code points), `toLowerCase` (for ASCII, Latin-1 and basic Cyrillic) and `includes`
  (proved equal to "occurs at some index").
- `seqs.dfy` (module `Seqs`): `Array.prototype.filter` and `[...new Set(xs)]`, with subsequence,
  counting, conjunction, idempotence and first-occurrence-order lemmas.
- `catalog.dfy` (module `Catalog`): the `Band` record, the filter stage of `renderBandList`, the genre
  option list of `populateGenreFilter`, the description preview, and the two sample bands.
- `accounts.dfy` (module `Accounts`): the registration handler as `UserStore.Register`, a method on a
  class whose `users` field is the stored list.
- `bands.dfy` (module `Bands`): the add-band handler as `BandStore.AddBand`, a method on a class
  whose `bands` field is the stored list.
- `options.dfy` (module `Options`): an `Option` type for an absent selector or an unchosen file.

Adding a band makes no duplicate-name check (script.js:121-139), so `Bands.BandStore.AddBand` accepts
a second band of the same name; `Bands.SameNameTwice` shows a second identical band being appended.
`script.js` has no likes, sorting by likes or liked-only view, so none are modelled.

A band whose genre is the literal text `all` is offered as a second "all" option. Selecting it switches
the genre filter off, like the first option, because the filter compares the selected value with `"all"`.

## Model

| member | source | states |
|---|---|---|
| `Text.Trim` | script.js:153-155 | the trimmed text is no longer than the input; its properties are those `Text.TrimSpec`, `Text.TrimStartSpec` and `Text.TrimEndSpec` state |
| `Text.TrimStart` | script.js:153-155 | the result is a suffix of the input; `Text.TrimStartSpec` states that exactly the leading whitespace is dropped |
| `Text.TrimEnd` | script.js:153-155 | the result is a prefix of the input; `Text.TrimEndSpec` states that exactly the trailing whitespace is dropped |
| `Text.TrimSpec` | script.js:153-155 | the trimmed text occurs in the input; it is empty exactly when the input is all whitespace; it neither starts nor ends with whitespace |
| `Text.TrimStartSpec` | script.js:153-155 | drops exactly the leading whitespace: what is dropped is all whitespace and the rest does not start with whitespace |
| `Text.TrimEndSpec` | script.js:153-155 | drops exactly the trailing whitespace: what is dropped is all whitespace and the rest does not end with whitespace |
| `Text.TrimIdempotent` | script.js:114-118 | trimming a trimmed field changes nothing |
| `Text.Lower` | script.js:54 | lower-casing keeps the length and maps each character by the case map |
| `Text.LowerIdempotent` | script.js:54 | lower-casing twice is lower-casing once |
| `Text.Includes` | script.js:54 | `includes` is true exactly when the text occurs in the string at some index |
| `Seqs.Filter` | script.js:48 | the filtered list is no longer than its input, holds only elements of it, and every element passes the test |
| `Seqs.FilterIsSubsequence` | script.js:48 | the filtered list embeds in its input at increasing positions: order kept, nothing added |
| `Seqs.FilterCount` | script.js:53-55 | every occurrence of a passing element is kept and no occurrence of a failing one |
| `Seqs.FilterKeepsAll` | script.js:53-55 | filtering a list whose elements all pass returns it unchanged |
| `Seqs.FilterIdempotent` | script.js:48 | filtering a filtered list again by the same test changes nothing |
| `Seqs.FilterThenFilter` | script.js:47-56 | two filters in a row equal one filter by the conjunction of the two tests |
| `Seqs.FilterAppend` | script.js:48 | filtering distributes over concatenation |
| `Seqs.Distinct` | script.js:99 | the Set-based list has no duplicates and holds exactly the input's elements |
| `Seqs.DistinctInFirstOccurrenceOrder` | script.js:99 | the distinct elements are ordered by their first occurrence in the input |
| `Seqs.DistinctAppend` | script.js:99 | appending an element appends it to the distinct list exactly when it is new |
| `Catalog.FilterBands` | script.js:44-56 | the listed bands are catalog bands and no more of them than the catalog holds |
| `Catalog.FilterBandsIsConjunction` | script.js:44-56 | the genre step then the search step equal a single filter by "passes every active filter" |
| `Catalog.FilterBandsIsSubsequence` | script.js:44-56 | the listed bands are a subsequence of the catalog |
| `Catalog.FilterBandsListsExactlySelected` | script.js:44-56 | a band is listed if and only if it is in the catalog and passes both active filters, as often as the catalog holds it |
| `Catalog.FilterBandsGenreMatches` | script.js:47-49 | with a genre other than "all" selected, every listed band has that genre |
| `Catalog.FilterBandsNameMatches` | script.js:52-56 | with a non-empty search, every listed band's lower-cased name contains the lower-cased search text |
| `Catalog.NoActiveFilterListsAll` | script.js:44-56 | with the selector absent or on "all" and an empty search, the whole catalog is listed |
| `Catalog.FilterBandsIdempotent` | script.js:44-56 | filtering the listed bands again with the same genre and search text changes nothing |
| `Catalog.SearchIgnoresCase` | script.js:53-55 | a search text and its lower-cased form list the same bands |
| `Catalog.AppendedBandListedLast` | script.js:44-56 | a band appended to the catalog is listed last if it passes the filters and not at all otherwise |
| `Catalog.Genres` | script.js:99 | one genre per band, in catalog order |
| `Catalog.DistinctGenres` | script.js:99 | the genre list has no repeats and holds the genre of every band; `Catalog.DistinctGenresSpec` adds the converse and the order |
| `Catalog.DistinctGenresSpec` | script.js:99 | the genre list has no repeats, holds exactly the catalog's genres, and follows the order of each genre's first band |
| `Catalog.AppendedBandGenre` | script.js:99 | a new band adds its genre at the end of the genre list if it is new, and nothing otherwise |
| `Catalog.GenreOptions` | script.js:100-106 | the selector's first option is "all", and the options after it are exactly the distinct genres, with the properties `Catalog.DistinctGenresSpec` states |
| `Catalog.EveryGenreOptionListsABand` | script.js:99-106 | in a non-empty catalog, no selector option with an empty search lists nothing |
| `Catalog.DescriptionPreview` | script.js:73-77 | a description of at most 100 characters is shown whole; a longer one as its first 100 characters and "...", 103 in all |
| `Catalog.PreviewBounded` | script.js:73-77 | a preview is at most 103 characters and starts with the description's first characters |
| `Catalog.PreviewIdempotent` | script.js:73-77 | previewing a preview changes nothing |
| `Catalog.SampleSearchScenario` | script.js:9-28 | on the sample catalog, searching "COLD" lists only Coldplay |
| `Catalog.SampleGenreScenario` | script.js:9-28 | on the sample catalog, selecting the pop-rock genre lists Imagine Dragons, and the genres come in catalog order |
| `Accounts.HasEmail` | script.js:163 | true exactly when some stored user has the email |
| `Accounts.CheckRegistration` | script.js:157-166 | a blank field is refused first; otherwise an email some stored user has is refused; otherwise the user is accepted |
| `Accounts.NewUser` | script.js:168 | the appended user carries the trimmed email, and each of its fields is already trimmed |
| `Accounts.UserStore.constructor` | script.js:162 | the store holds the list read from storage |
| `Accounts.UserStore.Register` | script.js:153-169 | a refused registration leaves the list unchanged; an accepted one appends the trimmed user at the end and nothing else; unique emails stay unique |
| `Accounts.RegistrationKeepsEmailsUnique` | script.js:163-168 | an accepted registration grows the list by one, keeps the earlier users in place, and keeps emails unique |
| `Accounts.RegisteredEmailIsTaken` | script.js:163-168 | after a registration, every later registration with the same email is refused as taken |
| `Bands.NewBand` | script.js:114-136 | a band is built exactly when every trimmed field is non-blank and an image is chosen, from the trimmed fields and the image |
| `Bands.BandStore.constructor` | script.js:138 | the store holds the list read from storage |
| `Bands.BandStore.AddBand` | script.js:114-140 | an incomplete form leaves the list unchanged; a complete one appends the new band at the end, with no duplicate-name check |
| `Bands.AddedBandIsListed` | script.js:138-139 | an added band is listed last when its genre is selected and the search is empty |

## Left out

- DOM lookups, card HTML, the click-to-navigate handler and the "nothing found" message (script.js:2-7, 58-92): presentation only.
- Local storage, `JSON.parse`/`JSON.stringify` and the fallback to the sample bands (script.js:30-37, 162, 169): the stored lists are the `users` and `bands` fields of the two store classes. The sample bands appear only in the two scenario lemmas.
- `FileReader` and its asynchronous `onload` (script.js:126-145): the image is a parameter holding the data URL the chosen file is read as, `None` when no file is chosen. The model appends the band in the same step as the validation, so nothing that changes the list between the two is modelled.
- `alert` and `window.location` navigation (script.js:122, 142-143, 158, 164, 170-171): user-interface side effects.
- Theme toggling (script.js:176-187): presentation state in `classList` and local storage.
- Event wiring (script.js:189-202): the search text and the genre selection are parameters of `Catalog.FilterBands`.
- Text.Lower: lower-cases ASCII, Latin-1 and basic Cyrillic (U+0400–U+042F, U+0490) only, and leaves every other character unchanged. JavaScript's full Unicode case map, including mappings that change length, is not modelled.
- Strings are sequences of Unicode code points. JavaScript counts UTF-16 code units, so `Catalog.DescriptionPreview` differs from the page for descriptions with characters outside the Basic Multilingual Plane.
- The band's year is the trimmed text of the form field; the sample bands' numeric years are written as text.
