/** The list and form helpers of src/utils/movieUtils.js. */
module MovieUtils {
  import opened Results
  import opened Strings
  import opened Seqs
  import opened Movies
  import opened Sorting

  /* ---------------------------------------------------------------------
     filterMoviesByGenre
     --------------------------------------------------------------------- */

  /** The per-movie test of `filterMoviesByGenre`: "ACTION" (exactly, upper
      case) accepts action or adventure; any other selection is a
      case-insensitive substring test on the genre text. */
  predicate GenreMatch(m: Movie, genre: string) {
    var g := Lower(m.genre);
    if genre == "ACTION" then Contains(g, "action") || Contains(g, "adventure")
    else Contains(g, Lower(genre))
  }

  function FilterMoviesByGenre(movies: seq<Movie>, genre: string): (r: seq<Movie>)
    ensures genre == "ALL" ==> r == movies
    ensures genre != "ALL" ==> IsSubseq(r, movies)
    ensures genre != "ALL" ==> forall i :: 0 <= i < |r| ==> GenreMatch(r[i], genre)
    ensures genre != "ALL" ==> forall m :: GenreMatch(m, genre) ==> multiset(r)[m] == multiset(movies)[m]
  {
    if genre == "ALL" then movies
    else Filter(movies, m => GenreMatch(m, genre))
  }

  /** Selecting "ACTION" keeps a movie exactly when its lower-cased genre
      mentions "action" or "adventure". */
  lemma ActionKeepsActionOrAdventure(movies: seq<Movie>, m: Movie)
    ensures m in FilterMoviesByGenre(movies, "ACTION") <==>
            m in movies && (Contains(Lower(m.genre), "action") || Contains(Lower(m.genre), "adventure"))
  {
  }

  /* ---------------------------------------------------------------------
     sortMovies
     --------------------------------------------------------------------- */

  /** `a.releaseDate || a.year`: the date text the default order compares. */
  function DateText(m: Movie): string {
    if m.releaseDate != "" then m.releaseDate else m.year
  }

  /** The comparator `sortMovies` picks for a sort key. */
  function UtilsOrder(sortBy: string, host: Host): Order {
    if sortBy == "title" then ByTitle
    else if sortBy == "rating" then ByRating
    else ByTime(m => host.timeOf(DateText(m)))
  }

  function SortMovies(movies: seq<Movie>, sortBy: string, host: Host): (r: seq<Movie>)
    ensures multiset(r) == multiset(movies)
    ensures sortBy == "title" ==>
      forall i, j :: 0 <= i < j < |r| ==> LexLe(r[i].title, r[j].title)
    ensures sortBy == "rating" ==>
      forall i, j :: 0 <= i < j < |r| ==> r[i].rating >= r[j].rating
    ensures sortBy != "title" && sortBy != "rating" ==>
      forall i, j :: 0 <= i < j < |r| ==> host.timeOf(DateText(r[i])) >= host.timeOf(DateText(r[j]))
  {
    Sort(UtilsOrder(sortBy, host), movies)
  }

  /** Sorting an already sorted result again changes nothing. */
  lemma SortMoviesIdempotent(movies: seq<Movie>, sortBy: string, host: Host)
    ensures SortMovies(SortMovies(movies, sortBy, host), sortBy, host) == SortMovies(movies, sortBy, host)
  {
    SortIdempotent(UtilsOrder(sortBy, host), movies);
  }

  /* ---------------------------------------------------------------------
     searchMovies
     --------------------------------------------------------------------- */

  /** The per-movie test of `searchMovies`: the lower-cased term occurs in the
      lower-cased title, genre or overview, or in the year text as it is. */
  predicate SearchHit(m: Movie, term: string) {
    var t := Lower(term);
    Contains(Lower(m.title), t) || Contains(Lower(m.genre), t)
    || Contains(Lower(m.overview), t) || Contains(m.year, t)
  }

  function SearchMovies(movies: seq<Movie>, term: string): (r: seq<Movie>)
    ensures term == "" ==> r == movies
    ensures IsSubseq(r, movies)
    ensures term != "" ==> forall i :: 0 <= i < |r| ==> SearchHit(r[i], term)
    ensures forall m :: SearchHit(m, term) ==> multiset(r)[m] == multiset(movies)[m]
  {
    if term == "" then SubseqRefl(movies); movies
    else Filter(movies, m => SearchHit(m, term))
  }

  /** The search ignores the case of the term: "COMEDY" and "comedy" select
      the same movies. */
  lemma SearchIgnoresTermCase(movies: seq<Movie>, term: string)
    requires term != ""
    ensures SearchMovies(movies, term) == SearchMovies(movies, Lower(term))
  {
    LowerIdempotent(term);
    FilterCongruent(movies, m => SearchHit(m, term), m => SearchHit(m, Lower(term)));
  }

  /* ---------------------------------------------------------------------
     getMovieCountText
     --------------------------------------------------------------------- */

  function MovieCountText(count: int): (r: string)
    ensures count == 0 ==> r == "No movies found"
    ensures count == 1 ==> r == "1 movie found"
    ensures count != 0 && count != 1 ==> r == IntToString(count) + " movies found"
  {
    if count == 0 then "No movies found"
    else if count == 1 then "1 movie found"
    else IntToString(count) + " movies found"
  }

  lemma MovieCountTextShape(k: nat)
    requires k >= 2
    ensures IsDigit(MovieCountText(k)[0]) && |MovieCountText(k)| >= 14
  {
  }

  /** Different non-negative counts always read differently. */
  lemma MovieCountTextInjective(m: nat, n: nat)
    requires MovieCountText(m) == MovieCountText(n)
    ensures m == n
  {
    if m >= 2 {
      MovieCountTextShape(m);
    }
    if n >= 2 {
      MovieCountTextShape(n);
    }
    if m >= 2 && n >= 2 {
      var sm, sn := NatToString(m), NatToString(n);
      var suffix := " movies found";
      assert sm == (sm + suffix)[..|sm + suffix| - |suffix|];
      assert sn == (sn + suffix)[..|sn + suffix| - |suffix|];
      NatToStringInjective(m, n);
    }
  }

  /* ---------------------------------------------------------------------
     validateMovieData
     --------------------------------------------------------------------- */

  datatype Validation = Validation(isValid: bool, errors: map<Field, string>)

  /** `movieData.rating < 0 || movieData.rating > 10` with the text coerced by
      `Number`; NaN passes, as every comparison with NaN is false. */
  predicate RatingOutOfRange(rating: string, host: Host) {
    var v := host.toNumber(rating);
    v.Some? && (v.value < 0.0 || v.value > 10.0)
  }

  /** The message `validateMovieData` records for one field, if any; for the
      URL and the rating the "required" test is made first and the second
      test only on present values (`else if`). `!x?.trim()` is `IsBlank(x)`
      (see `Strings.Trim`). */
  function FieldError(d: FormData, host: Host, f: Field): Option<string> {
    match f
    case Title => if IsBlank(d.title) then Some("Title is required") else None
    case ReleaseDate => if d.releaseDate == "" then Some("Release date is required") else None
    case MovieUrl =>
      if IsBlank(d.movieUrl) then Some("Movie URL is required")
      else if !host.isUrl(d.movieUrl) then Some("Please enter a valid URL")
      else None
    case Rating =>
      if d.rating == "" then Some("Rating is required")
      else if RatingOutOfRange(d.rating, host) then Some("Rating must be between 0 and 10")
      else None
    case Genre => if IsBlank(d.genre) then Some("Genre is required") else None
    case Runtime => if IsBlank(d.runtime) then Some("Runtime is required") else None
    case Overview => if IsBlank(d.overview) then Some("Overview is required") else None
  }

  function ValidateMovieData(d: FormData, host: Host): (r: Validation)
    ensures r.isValid <==> r.errors == map[]
    ensures Title in r.errors <==> IsBlank(d.title)
    ensures Title in r.errors ==> r.errors[Title] == "Title is required"
    ensures ReleaseDate in r.errors <==> d.releaseDate == ""
    ensures ReleaseDate in r.errors ==> r.errors[ReleaseDate] == "Release date is required"
    ensures MovieUrl in r.errors <==> IsBlank(d.movieUrl) || !host.isUrl(d.movieUrl)
    ensures MovieUrl in r.errors ==>
      r.errors[MovieUrl] == if IsBlank(d.movieUrl) then "Movie URL is required" else "Please enter a valid URL"
    ensures Rating in r.errors <==> d.rating == "" || RatingOutOfRange(d.rating, host)
    ensures Rating in r.errors ==>
      r.errors[Rating] == if d.rating == "" then "Rating is required" else "Rating must be between 0 and 10"
    ensures Genre in r.errors <==> IsBlank(d.genre)
    ensures Genre in r.errors ==> r.errors[Genre] == "Genre is required"
    ensures Runtime in r.errors <==> IsBlank(d.runtime)
    ensures Runtime in r.errors ==> r.errors[Runtime] == "Runtime is required"
    ensures Overview in r.errors <==> IsBlank(d.overview)
    ensures Overview in r.errors ==> r.errors[Overview] == "Overview is required"
  {
    var errors := map f | f in AllFields && FieldError(d, host, f).Some? :: FieldError(d, host, f).value;
    assert forall f :: f in errors <==> FieldError(d, host, f).Some?;
    Validation(|errors| == 0, errors)
  }

  /** The data passes exactly when every required text is present, the URL
      parses and the rating is not out of range. */
  lemma ValidMovieDataIff(d: FormData, host: Host)
    ensures ValidateMovieData(d, host).isValid <==>
      && !IsBlank(d.title) && d.releaseDate != "" && !IsBlank(d.movieUrl) && host.isUrl(d.movieUrl)
      && d.rating != "" && !RatingOutOfRange(d.rating, host)
      && !IsBlank(d.genre) && !IsBlank(d.runtime) && !IsBlank(d.overview)
  {
    var r := ValidateMovieData(d, host);
    if !r.isValid {
      var f :| f in r.errors;
    }
  }

  /* ---------------------------------------------------------------------
     generateMovieId
     --------------------------------------------------------------------- */

  /** `Math.max(...movies.map(m => m.id))` for a non-empty list. */
  function MaxId(movies: seq<Movie>): (r: int)
    requires |movies| > 0
    ensures forall i :: 0 <= i < |movies| ==> movies[i].id <= r
    ensures exists i :: 0 <= i < |movies| && movies[i].id == r
  {
    if |movies| == 1 then movies[0].id
    else
      var rest := MaxId(movies[1..]);
      assert forall i :: 1 <= i < |movies| ==> movies[i] == movies[1..][i - 1];
      if movies[0].id >= rest then movies[0].id else rest
  }

  /** The next id: one past the largest, or 1 for no list or an empty one. */
  function GenerateMovieId(movies: Option<seq<Movie>>): (r: int)
    ensures movies.None? || movies.value == [] ==> r == 1
    ensures movies.Some? ==> forall i :: 0 <= i < |movies.value| ==> movies.value[i].id < r
    ensures movies.Some? && movies.value != [] ==>
      exists i :: 0 <= i < |movies.value| && movies.value[i].id == r - 1
  {
    if movies.None? || |movies.value| == 0 then 1
    else MaxId(movies.value) + 1
  }

  /** A movie given the generated id collides with no existing movie. */
  lemma GeneratedIdIsFresh(movies: seq<Movie>, m: Movie)
    requires m in movies
    ensures m.id != GenerateMovieId(Some(movies))
  {
  }

  /* ---------------------------------------------------------------------
     formatMovieForSubmission
     --------------------------------------------------------------------- */

  /** The record `formatMovieForSubmission` builds; `rating` is None where
      `parseFloat` gives NaN. */
  datatype Submission = Submission(
    title: string, year: string, genre: string, rating: Option<real>, runtime: string,
    overview: string, poster: string, url: string, releaseDate: string)

  function FormatMovieForSubmission(d: FormData, host: Host): (r: Submission)
    ensures r.title == Trim(d.title) && r.runtime == Trim(d.runtime) && r.overview == Trim(d.overview)
    ensures r.poster == r.url == Trim(d.movieUrl)
    ensures r.genre == d.genre && r.releaseDate == d.releaseDate
    ensures r.year == host.yearText(d.releaseDate) && r.rating == host.parseFloat(d.rating)
  {
    Submission(
      Trim(d.title), host.yearText(d.releaseDate), d.genre, host.parseFloat(d.rating),
      Trim(d.runtime), Trim(d.overview), Trim(d.movieUrl), Trim(d.movieUrl), d.releaseDate)
  }

  /** The trimmed texts are already trimmed, and a trimmed text is empty
      exactly when the form's text was blank, so formatting keeps every
      "is required" verdict of `validateMovieData`. */
  lemma FormattedTextsAreTrimmed(d: FormData, host: Host)
    ensures var r := FormatMovieForSubmission(d, host);
      && Trim(r.title) == r.title && Trim(r.runtime) == r.runtime
      && Trim(r.overview) == r.overview && Trim(r.url) == r.url
      && (r.title == "" <==> IsBlank(d.title))
      && (r.runtime == "" <==> IsBlank(d.runtime))
      && (r.overview == "" <==> IsBlank(d.overview))
      && (r.url == "" <==> IsBlank(d.movieUrl))
  {
    TrimIdempotent(d.title);
    TrimIdempotent(d.runtime);
    TrimIdempotent(d.overview);
    TrimIdempotent(d.movieUrl);
  }
}
