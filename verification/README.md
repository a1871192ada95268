# Movie catalogue: a Dafny model

This project models the core of a React movie-catalogue front end. The
model covers five parts of the app:

- **List helpers** (`src/utils/movieUtils.js`): filter by genre, sort,
  search, the "N movies found" text, validation of the movie form, the next
  id, and the formatting of a movie before it is sent.
- **Application state** (`src/App.js`): the state of the app component.
  The effect that derives the displayed list from that state. The search,
  genre and sort handlers. The handlers that open the modals. The submit
  handler, which edits or adds a movie, and the delete confirmation.
- **REST client** (`src/services/movieService.js`): the paginated fetch of
  the whole catalogue (`getAllMovies`). The single-request calls and the id
  guards of update and delete. The "Failed to …" messages every call
  rethrows.
- **Add/edit modal** (`src/components/AddMovieModal/AddMovieModal.jsx`):
  the form state, `validateForm`, `handleSubmit`, `handleReset`,
  `handleInputChange`, and the prefill effect. Also the genre checkboxes,
  which edit a comma-separated genre text.
- **Detail view** (`src/components/MovieDetail/MovieDetail.jsx`): how it
  shows the year, the runtime and the genres.

Modules:

- `Results` holds `Option` and `Result`.
- `Strings` holds trimming, ASCII lower-casing, substring search,
  split/join with their round trips, and decimal number text.
- `Seqs` holds `Filter`, the model of `Array.prototype.filter`, and its laws.
- `Movies` holds the movie record and the seven-field form data. It also
  holds `Host`, described below.
- `Sorting` holds a stable insertion sort over the three orders the app
  uses, with proofs that it sorts, permutes and is idempotent.
- `MovieUtils`, `App`, `MovieService`, `MovieForm` and `MovieDetail` each
  follow their source file.

The JavaScript primitives the code calls are fields of `Movies.Host`.
These are `Date` parsing and `getFullYear`, `parseFloat`, `Number(...)`,
`new URL(...)` and `Number#toString`. The model never fixes their
behaviour; every property is proved for all of them. The HTTP transport is
also a parameter: a function from the request to its outcome. The two
`Date.now()` readings in `handleMovieSubmit` are parameters too.

## Model

| member | source | states |
|---|---|---|
| MovieUtils.FilterMoviesByGenre | src/utils/movieUtils.js:2-16 | "ALL" returns the list unchanged. Any other genre keeps, in order and with every copy, exactly the movies whose lower-cased genre matches. "ACTION" also accepts "adventure". |
| MovieUtils.ActionKeepsActionOrAdventure | src/utils/movieUtils.js:7-11 | A movie survives the "ACTION" filter iff its lower-cased genre mentions "action" or "adventure". |
| MovieUtils.SortMovies | src/utils/movieUtils.js:18-30 | The result is a permutation of the input. It is ordered by title ascending, by rating descending, or by the time of `releaseDate \|\| year` descending. |
| MovieUtils.SortMoviesIdempotent | src/utils/movieUtils.js:18-30 | Sorting a sorted result again by the same key changes nothing. |
| MovieUtils.SearchMovies | src/utils/movieUtils.js:32-43 | An empty term returns the list. Otherwise the result keeps, in order and with every copy, exactly the movies whose title, genre or overview contains the lower-cased term, or whose year contains it. |
| MovieUtils.SearchIgnoresTermCase | src/utils/movieUtils.js:35-42 | A term and its lower-cased form select the same movies. |
| MovieUtils.MovieCountText | src/utils/movieUtils.js:45-49 | 0 gives "No movies found", 1 gives "1 movie found", and any other count gives "<n> movies found". |
| MovieUtils.MovieCountTextInjective | src/utils/movieUtils.js:45-49 | Different non-negative counts produce different texts. |
| MovieUtils.ValidateMovieData | src/utils/movieUtils.js:51-90 | For each field: it has an error iff its test fails, with the source's exact message. The URL and rating range tests apply only to present values. The data is valid iff there are no errors. |
| MovieUtils.ValidMovieDataIff | src/utils/movieUtils.js:51-90 | The data is valid iff every required text is present, the URL parses and the rating is not out of range. |
| MovieUtils.MaxId | src/utils/movieUtils.js:101-104 | The result bounds every id of a non-empty list and is one of its ids. |
| MovieUtils.GenerateMovieId | src/utils/movieUtils.js:101-104 | A missing or empty list gives 1. Otherwise the result is one more than an existing id and exceeds every id. |
| MovieUtils.GeneratedIdIsFresh | src/utils/movieUtils.js:101-104 | No movie in the list carries the generated id. |
| MovieUtils.FormatMovieForSubmission | src/utils/movieUtils.js:106-118 | The texts are trimmed, poster and url both come from the trimmed movie URL, and year and rating come from parsing. |
| MovieUtils.FormattedTextsAreTrimmed | src/utils/movieUtils.js:106-118 | Formatting is stable under `trim`. A formatted text is empty iff the form's text was blank, so formatting keeps every "is required" verdict. |
| Sorting.Sort | src/utils/movieUtils.js:19-29 | The model of `Array.prototype.sort` with a comparator: the result is sorted under the order and has the same members. |
| Sorting.SortIdempotent | src/utils/movieUtils.js:19-29 | Sorting a sorted sequence returns it unchanged. |
| Strings.Trim | src/utils/movieUtils.js:54-87 | `String#trim`: the result is a slice of the input, starts and ends with no white space, and is empty iff the input is all white space. |
| Strings.SplitJoin | src/components/AddMovieModal/AddMovieModal.jsx:240-243 | With a border-free separator, splitting the join of a non-empty list of separator-free parts gives the parts back. |
| Strings.JoinSplit | src/components/AddMovieModal/AddMovieModal.jsx:240-243 | Joining the pieces of a split gives the text back. |
| Seqs.Filter | src/App.js:38-55 | `Array.prototype.filter`: the result is an ordered subsequence, every element passes, every passing element keeps its multiplicity, and membership is "in the input and passes". |
| Seqs.FilterAppend | src/components/AddMovieModal/AddMovieModal.jsx:240-243 | Filtering distributes over concatenation. |
| App.Init | src/App.js:13-31 | The first state shows every movie with no search, genre "ALL", the "release_date" sort and every modal closed; no movie is selected, marked for deletion or being edited, and the success message is empty. |
| App.FilterStages | src/App.js:36-55 | The search stage followed by the genre stage keeps exactly the movies that pass both active tests, each with its multiplicity. |
| App.SearchStage | src/App.js:38-44 | A blank term keeps the list. Otherwise only movies whose title, genre or overview contains the lower-cased term remain, each with its multiplicity. |
| App.GenreStage | src/App.js:47-55 | "ALL" keeps the list. Otherwise only movies passing the genre test (for "ACTION", a genre mentioning "action") remain, each with its multiplicity. |
| App.Project | src/App.js:34-71 | The displayed list holds exactly the selected movies with their multiplicities; with no filter active it is a permutation of the collection. It is ordered by title, rating, or the time of `year` alone. |
| App.BlankTermIsNoOp | src/App.js:38-44 | A search term made only of white space displays the same list as no term. |
| App.HandleSearch | src/App.js:73-79 | Stores the term. A non-blank term resets the genre to "ALL". Every other part of the state is untouched, and the search/genre interlock is kept. |
| App.HandleGenreChange | src/App.js:81-87 | Stores the genre. Any genre but "ALL" clears the search. Every other part of the state is untouched, and the interlock is kept. |
| App.HandleSortChange | src/App.js:89-91 | Changes only the sort key and keeps the interlock. |
| App.ViewInvariantHolds | src/App.js:73-91 | Any sequence of search, genre and sort events keeps the interlock: a non-blank search and a genre filter are never both active. |
| App.ViewInvariantFromInit | src/App.js:13-31 | From the first render, no sequence of view events reaches a state with both filters active. |
| App.ViewEventsKeepMovies | src/App.js:73-91 | View events never change the collection. |
| App.HandleAddMovie | src/App.js:93-96 | Opens the modal with no movie being edited; nothing else changes. |
| App.HandleEditMovie | src/App.js:98-101 | Opens the modal on the given movie; nothing else changes. |
| App.HandleDeleteMovie | src/App.js:103-106 | Marks the movie for deletion and opens the confirmation; nothing else changes. |
| App.HandleMovieSelect | src/App.js:108-111 | Selects the movie and opens the detail view; nothing else changes. |
| App.HandleMovieSubmit | src/App.js:113-153 | Edit: every movie with the edited id gets the form's fields, parsed rating and year, keeps its id and poster, and all others stay. Add: one new movie is appended after the unchanged collection, with every field stated: the given id, the form's texts, the parsed rating, the year of the release date and the picsum poster URL for the second clock reading. In both cases the modal closes and the matching success message is shown. The view parameters, the selection, the detail view and the delete marker are untouched. |
| App.HandleDeleteConfirm | src/App.js:155-163 | With no movie marked, nothing changes. Otherwise exactly the movies with the marked id are removed, the others keep their order and multiplicity, and the success message is shown. The view parameters, the movie being edited, the selection and the detail view are untouched. |
| App.DeleteCount | src/App.js:155-163 | The collection shrinks by exactly the number of movies carrying the deleted id. |
| App.SentFormIsAccepted | src/components/AddMovieModal/AddMovieModal.jsx:82-103 | A form the modal sends has a rating that `parseFloat` reads as a number from 0 to 10, which the app's submit handler needs. |
| App.UnchangedEditKeepsMovies | src/App.js:114-131 | Opening the edit modal on a movie and saving the prefilled form unchanged leaves the collection as it was, when the rating round-trips through text and the year matches the release date. |
| App.AddedMovieDetail | src/App.js:134-146 | A movie just added shows in the detail view with the year derived from the release date it was given and with its genre text, each falling back to "N/A". |
| MovieService.Failed | src/services/movieService.js:66-73 | The message is "Failed to <action>: " followed by the server's message when it is present and non-empty, else by the error's own message. |
| MovieService.FailedKeepsReason | src/services/movieService.js:68-72 | For one action, equal messages carry the same reason: the composition loses nothing. |
| MovieService.GetAllMovies | src/services/movieService.js:29-74 | Callable on any server on which the loop stops. The requests go to offsets 0, 100, 200, … with limit 100. The loop continues exactly while the previous page was full and the total is not yet reached. Success returns all pages in order with totalAmount and limit equal to their count and offset 0. A failed request ends the call with "Failed to fetch all movies: …". |
| MovieService.RequestCountBound | src/services/movieService.js:39-56 | On a server whose reported totals never exceed a bound T, the loop sends at most ceil(T / 100) requests, and at least one. |
| MovieService.Wrap | src/services/movieService.js:76-116 | A transport success passes through. A failure becomes the "Failed to <action>" message. |
| MovieService.GetMovies | src/services/movieService.js:76-88 | One request, with errors rethrown as "Failed to fetch movies: …". |
| MovieService.GetMovieById | src/services/movieService.js:90-102 | One request, with errors rethrown as "Failed to fetch movie: …". |
| MovieService.CreateMovie | src/services/movieService.js:104-116 | One request, with errors rethrown as "Failed to create movie: …". |
| MovieService.UpdateMovie | src/services/movieService.js:118-133 | A missing or zero id sends nothing and fails with "Failed to update movie: Movie ID is required for update". Otherwise one PUT is sent and its outcome is wrapped. |
| MovieService.DeleteMovie | src/services/movieService.js:135-150 | A missing or zero id sends nothing and fails with "Failed to delete movie: Movie ID is required for deletion". Otherwise one DELETE is sent for the id. |
| MovieService.NoRequestMeansGuardFailed | src/services/movieService.js:118-150 | Update and delete send nothing iff the id is missing or zero, and then the call fails. |
| MovieForm.ValidateForm | src/components/AddMovieModal/AddMovieModal.jsx:75-95 | For each field: it has an error iff its test fails, with the source's message. A present rating that `parseFloat` cannot read, or that is outside 0 to 10, gets the range message. Every recorded error is on screen. |
| MovieForm.HandleSubmit | src/components/AddMovieModal/AddMovieModal.jsx:97-103 | The errors are replaced by the new validation. The form data is sent, unchanged, iff there are no errors. |
| MovieForm.SubmitIff | src/components/AddMovieModal/AddMovieModal.jsx:75-103 | A form is sent iff every required text is present and the rating reads as a number from 0 to 10. |
| MovieForm.HandleInputChange | src/components/AddMovieModal/AddMovieModal.jsx:61-73 | Sets only the given field. The field's error stops being shown, other errors and all keys are kept. |
| MovieForm.HandleReset | src/components/AddMovieModal/AddMovieModal.jsx:105-116 | Every field becomes empty and the errors are cleared. |
| MovieForm.ResetFormIsRejected | src/components/AddMovieModal/AddMovieModal.jsx:75-116 | A reset form cannot be sent: every field reports an error. |
| MovieForm.Prefill | src/components/AddMovieModal/AddMovieModal.jsx:34-59 | Clears the errors in every case. Edit mode with a movie copies its fields, with url going to the URL field and the rating written as text. Add mode empties the form. Edit mode without a movie leaves the data. |
| MovieForm.EntryIsChecked | src/components/AddMovieModal/AddMovieModal.jsx:230 | The box state is a substring test, so a genre that is an entry of the text is always shown checked. |
| MovieForm.AddGenre | src/components/AddMovieModal/AddMovieModal.jsx:232-238 | Checking keeps the old text in front and leaves the genre's box checked. |
| MovieForm.RemoveGenre | src/components/AddMovieModal/AddMovieModal.jsx:239-244 | Unchecking keeps every entry other than the genre in the text. |
| MovieForm.Toggle | src/components/AddMovieModal/AddMovieModal.jsx:230-245 | A click on an unchecked box checks it; a click on a checked box keeps every other entry. |
| MovieForm.AddGenreEntries | src/components/AddMovieModal/AddMovieModal.jsx:232-238 | Checking a box appends the genre as the last entry of the ", "-separated text. |
| MovieForm.RemoveGenreEntries | src/components/AddMovieModal/AddMovieModal.jsx:239-244 | Unchecking removes exactly the entries equal to the genre and keeps the others in order. |
| MovieForm.RemoveAbsentKeepsText | src/components/AddMovieModal/AddMovieModal.jsx:230-244 | Unchecking a genre that is checked only as a substring of another entry leaves the text unchanged. |
| MovieForm.RemoveAfterAdd | src/components/AddMovieModal/AddMovieModal.jsx:231-244 | Unchecking right after checking restores the original text. |
| MovieForm.EntryOccurs | src/components/AddMovieModal/AddMovieModal.jsx:230-242 | Every entry of the split text occurs in the text, so an entry's box shows as checked. |
| MovieForm.ToggleTwiceFromUnchecked | src/components/AddMovieModal/AddMovieModal.jsx:230-244 | Clicking an unchecked box checks it, and clicking again gives the original text back. |
| MovieForm.ToggleEntries | src/components/AddMovieModal/AddMovieModal.jsx:230-244 | For the six offered genres (lines 25-32), clicks keep a text with no empty entry in that shape. An adding click makes the genre the last entry; a removing click leaves it in no entry. |
| MovieDetail.GetYear | src/components/MovieDetail/MovieDetail.jsx:7-12 | The release date's year when there is a date, else the stored year, else "N/A". |
| MovieDetail.JsRem | src/components/MovieDetail/MovieDetail.jsx:17 | JavaScript's `%`: the dividend is the divisor times the quotient truncated toward zero plus the remainder, and the remainder lies strictly between -divisor and divisor with the dividend's sign. |
| MovieDetail.GetRuntime | src/components/MovieDetail/MovieDetail.jsx:14-24 | A missing or zero runtime gives "N/A". Under an hour gives "<m>min". From 60 minutes on it gives "<h>h <m>min" with h = m div 60 and the minutes below 60. A negative runtime shows only its signed remainder, with -0 written "0". Every non-zero runtime ends in "min". |
| MovieDetail.RuntimeRoundTrip | src/components/MovieDetail/MovieDetail.jsx:14-24 | The text for a positive runtime reads back as that number of minutes. |
| MovieDetail.RuntimeTextInjective | src/components/MovieDetail/MovieDetail.jsx:14-24 | Different positive runtimes produce different texts. |
| MovieDetail.GetGenres | src/components/MovieDetail/MovieDetail.jsx:26-31 | An array is joined in order with " & " (`Strings.Join`), giving "" only for no genres or one empty genre. Otherwise the genre text is used, else "N/A". |
| MovieDetail.GenresShown | src/components/MovieDetail/MovieDetail.jsx:26-31 | The joined text contains every genre of the array. |
| MovieDetail.AppRecordShows | src/components/MovieDetail/MovieDetail.jsx:7-12 | For a record of the app's collection, which has `releaseDate` rather than `release_date` and no genre array, the view shows the stored year and the genre text, each falling back to "N/A". |

## Left out

- Rendering, CSS, icons, the loading spinner and error banner, and every other component outside these five files: they hold no logic beyond calling the handlers modelled here.
- The axios instance, its interceptors, base URL and timeout, and all `console` logging: configuration and side effects with no bearing on results.
- Asynchrony: each `await` is modelled as a completed call whose outcome is a parameter. Interleavings of concurrent requests are not modelled.
- `localeCompare` is modelled as code-unit lexicographic order, and `toLowerCase` folds ASCII letters only: locale collation and Unicode case tables are foreign.
- `Date`, `getFullYear`, `parseFloat`, `Number(...)`, `new URL(...)` and `Number#toString` are parameters (`Movies.Host`). A NaN from `parseFloat` or `Number` is a `None`, and a rating is a `real`, so floating-point rounding is not modelled.
- MovieUtils.SortMovies: the date order assumes every date text parses (`Host.timeOf` always gives a time). In the source, a date or year that does not parse makes the comparator return NaN, which `sort` reads as 0, so the resulting order is implementation-defined; that case is not modelled.
- App.Project: the same assumption for the default order on `new Date(year)`.
- Movies.Movie: a missing text field is "". The source's `toLowerCase`, `trim` and `toString` throw a TypeError on an undefined title, genre, overview or year, where the model reads "" and goes on; records are assumed to carry every text field.
- App.HandleMovieSubmit: requires that `parseFloat` reads the rating. A NaN rating cannot reach it through the modal's submit (`App.SentFormIsAccepted`); a NaN stored in a movie is not modelled.
- MovieService.GetAllMovies: takes the ghost index of a request after which the loop does not continue. A server on which the source loop never stops is excluded, because a non-terminating run has no result to model.
- MovieService.GetAllMovies: a listing response that is a bare array reads as no data and total 0. The loop then stops after that page and returns nothing from it, as the code does, even when that array is the whole catalogue.
- The App effect sorts by `new Date(year)` only, while `sortMovies` uses `releaseDate || year`. The App search ignores the year, while `searchMovies` includes it. The App "ACTION" filter matches only "action", while `filterMoviesByGenre` also matches "adventure". Each is modelled as written.
- Sorting.Sort: its contract does not state stability, which `Array.prototype.sort` guarantees; no property of the app depends on it.
- MovieDetail.GetRuntime: the runtime is a number of minutes. A runtime stored as free text, which the form lets a user enter, would render "NaNmin" in the source; that case is not modelled.
- MovieForm.Prefill: the runtime is copied as text. A numeric runtime from the server is not modelled, because the form's `trim` would throw on it.
- The modal's `handleClose`, the genre dropdown's open/closed flag and the close handlers of the other modals: they only toggle visibility flags.
- The test files' expectations are not modelled. Where they disagree with the code, the code is followed.
