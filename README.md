# Movie catalog query layer

A Dafny model of the record query layer of a small Express catalog browser
(`app.js`). The server loads a JSON array of movie records once at start-up
and answers read-only queries over it:

- `/data/movie/:index` looks a record up by zero-based position;
- `/data/search/id/result?movieId=…` returns the first record whose
  `Movie_ID` equals the parsed identifier (`Array.prototype.find`);
- `/data/search/title/result?title=…` lower-cases the query and every title
  and keeps, in dataset order, each record whose title includes the query;
- the Handlebars helpers `hasWebsite` and `highlightIfNoWebsite` decide, from
  a record's `Website` field, whether a row appears in the filtered view and
  whether it carries the `highlight` class.

Each route ends in one `Queries.Outcome`: `Found` with the record(s) that are
rendered, `NotFound` with the route's fixed 404 message, or `TypeError` for
the exception the title route throws when its parameter is missing.

Files:

- `wrappers.dfy`: `Option`, for a parameter that may be absent or NaN and a
  field that may be missing.
- `text.dfy`: JavaScript's `trim` (the full ECMAScript whitespace and line
  terminator set), `toLowerCase` on ASCII letters, and `includes`, each with
  an independent characterisation (`Trim` is empty iff the string is all
  whitespace, `Lower` agrees on two strings iff they differ only in case,
  `Includes` holds iff the query occurs at some position).
- `queries.dfy`: the record type, the three lookup routes and their
  properties.
- `view_helpers.dfy`: the two helpers and how they relate.

The dataset is a parameter (`seq<Movie>`) of every query; the parsed index and
identifier are `Option<int>` with `None` standing for NaN.

Some of the code's behaviour is easy to overlook, and the model keeps it
as written:

- a missing `title` parameter makes `req.query.title.toLowerCase()` throw a
  TypeError before anything is rendered (app.js:101);
- an empty title query matches every record, because `includes("")` holds
  for every title, so the whole dataset is rendered (app.js:102,
  `Queries.EmptyQueryMatchesAll`);
- the two helpers are not complements. `"N/A"` has non-whitespace content,
  so `hasWebsite` shows it, and it lower-cases to `"n/a"`, so it is also
  highlighted. `" n/a "` is shown and not highlighted, because the "n/a"
  comparison is made on the untrimmed value (app.js:38, 45;
  `ViewHelpers.ShownAndHighlightedIff`,
  `ViewHelpers.PaddedMarkerIsNotHighlighted`). The comments at
  app.js:39-48 speak only of a "blank" field and of a "blank or 'N/A'"
  field.

## Model

| member | source | states |
|---|---|---|
| Queries.ByIndex | app.js:66-74 | a record is found iff the parsed index is a number with 0 <= i < length, and it is then exactly the record at i; a negative index, one past the end and NaN give NotFound("Movie not found at this index") |
| Queries.FirstIndexWithId | app.js:85 | the position `find` stops at holds the identifier and no earlier position does; no position at all when no record has it |
| Queries.ById | app.js:83-91 | a record is found iff the id parsed to a number that some record carries, and it is the record at the first such position; NaN and unmatched ids give NotFound("Movie not found") |
| Queries.FirstWithIdUnique | app.js:85 | at most one position is the first with a given identifier, so the answer of `find` is determined |
| Queries.ByIdFindsOwnRecord | app.js:85-88 | with unique identifiers, looking up a record's own identifier returns that record |
| Queries.ByIdShadowsLaterDuplicate | app.js:85 | with a duplicated identifier the lookup answers with a record at or before the earlier occurrence, never from beyond it |
| Queries.TitleMatches | app.js:102 | the filter callback: the lower-cased title includes the lower-cased query |
| Queries.FilterByTitle | app.js:102 | the filter returns no more records than the dataset, only matching records, and every matching record |
| Queries.FilterIsOrderedSelection | app.js:102 | the filter's result is the records at exactly the matching positions, in increasing position order |
| Queries.FilterKeepsAllWhenAllMatch | app.js:102 | when every record matches, the filter returns the dataset unchanged |
| Queries.SearchByTitle | app.js:100-109 | a missing title is a TypeError; otherwise the search is Found iff some lower-cased title includes the lower-cased query, its payload is non-empty and the ordered selection of the matches, and a miss is NotFound("No movies found with that title") |
| Queries.SearchIgnoresCase | app.js:101-102 | two queries differing only in letter case give identical outcomes |
| Queries.EmptyQueryMatchesAll | app.js:101-108 | the empty query matches every record: the whole dataset is Found, and only an empty dataset gives the 404 |
| Queries.NarrowerQueryFindsSubset | app.js:102 | a query whose lower-case form includes another's finds only records the other also finds |
| Queries.ExampleLookups | app.js:66-91 | on a three-record dataset, id 2 finds the second record, NaN and index 5 or -1 give the route's 404 |
| Text.IsWhitespace | app.js:38 | the characters `trim` strips: ECMAScript's WhiteSpace and LineTerminator characters |
| Text.SkipLeading | app.js:38 | the scan for the start of the trimmed value stops at the first non-whitespace character, having passed only whitespace |
| Text.SkipTrailing | app.js:38 | the scan for the end of the trimmed value stops just after the last non-whitespace character, having passed only whitespace |
| Text.Trim | app.js:38 | `trim` yields the stretch of `s` left after removing all-whitespace runs at the front and the back: non-whitespace at both ends, empty iff the input is all whitespace |
| Text.Lower | app.js:101-102 | `toLowerCase` keeps the length and maps each character to its lower-case form |
| Text.LowerChar | app.js:101-102 | a lowered character is never upper-case and is the input or its lower-case letter |
| Text.LowerEqualIff | app.js:101-102 | two strings lower-case to the same string iff they differ only in the case of their letters |
| Text.Includes | app.js:102 | `includes`, as a left-to-right scan of start positions |
| Text.IncludesIff | app.js:102 | `includes` holds iff the query occurs at some position of the string |
| Text.IncludesEmpty | app.js:102 | every string includes the empty string |
| Text.IncludesTransitive | app.js:102 | a string including m includes every substring of m |
| ViewHelpers.Truthy | app.js:38-45 | JavaScript truthiness of the field (`website &&`, `!website`): present and not the empty string |
| ViewHelpers.HasWebsite | app.js:37-42 | a row is shown iff the field is present and has a non-whitespace character |
| ViewHelpers.HighlightIfNoWebsite | app.js:44-49 | the class is "highlight" iff the field is absent, all whitespace, or lower-cases to "n/a" untrimmed; otherwise "" |
| ViewHelpers.HiddenRowsAreHighlighted | app.js:38-46 | every row hidden from the filtered view is highlighted |
| ViewHelpers.ShownAndHighlightedIff | app.js:38-46 | a row is both shown and highlighted iff its field lower-cases to "n/a" |
| ViewHelpers.ComplementsAwayFromMarker | app.js:38-48 | away from the "n/a" marker, shown iff not highlighted |
| ViewHelpers.UpperCaseMarkerIsShownAndHighlighted | app.js:38-46 | "N/A" is shown in the filtered view and highlighted |
| ViewHelpers.PaddedMarkerIsNotHighlighted | app.js:38-48 | " n/a " is shown and not highlighted, since the comparison does not trim |

## Left out

- Dataset loading (`loadMovieData`, app.js:17-27): file I/O, JSON parsing and `process.exit`; the dataset is an already-loaded parameter. The window before the asynchronous load finishes, in which `moviesData` is undefined (the index route then gives its 404 and the other routes throw), is not modelled.
- Express wiring, static files, the port setting, the Handlebars engine and template rendering (app.js:2-12, 30-35, 51-53, 136-140): library glue.
- The `/`, `/data`, `/users`, `/viewData`, `/filteredData`, `/highlightedData`, form and catch-all routes: they only pass the dataset or fixed text to templates; the filtering those views show is done by the two helpers, modelled on their own.
- `parseInt`: the index and identifier arrive already parsed, as `Option<int>` with `None` for NaN.
- Text.Lower: case-folds ASCII letters only, not the full Unicode mapping of `toLowerCase`.
- Records hold only `Movie_ID`, `Title` and `Website`; other fields pass through untouched in the source and are omitted. A record field of another JSON type (a numeric `Website`, a missing `Title`) is not modelled.
- JavaScript truthiness of the looked-up record (app.js:70, 87): records are objects, so "a record was found" stands for it.
- A repeated query parameter (which Express turns into an array) is not modelled; `title` is a string or absent.
