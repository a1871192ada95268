/** The state of src/App.js, its filter/sort effect and its event handlers.
    The effect is modelled as a function of the state (`Displayed`): the
    component recomputes `filteredMovies` from exactly these inputs whenever
    one of them changes. */
module App {
  import opened Results
  import opened Strings
  import opened Seqs
  import opened Movies
  import opened Sorting
  import MovieForm
  import MovieDetail

  datatype AppState = AppState(
    movies: seq<Movie>,
    selectedGenre: string,
    sortBy: string,
    searchTerm: string,
    showAddModal: bool,
    showDeleteModal: bool,
    showSuccessModal: bool,
    showMovieDetail: bool,
    selectedMovie: Option<Movie>,
    movieToDelete: Option<Movie>,
    editingMovie: Option<Movie>,
    successMessage: string)

  /** The state on first render, over the initial collection. */
  function Init(movies: seq<Movie>): (s: AppState)
    ensures s.movies == movies && s.searchTerm == "" && s.selectedGenre == "ALL"
    ensures s.sortBy == "release_date"
    ensures !s.showAddModal && !s.showDeleteModal && !s.showSuccessModal && !s.showMovieDetail
    ensures s.selectedMovie == None && s.movieToDelete == None && s.editingMovie == None
    ensures s.successMessage == ""
  {
    AppState(movies, "ALL", "release_date", "", false, false, false, false, None, None, None, "")
  }

  /* ---------------------------------------------------------------------
     The filter/sort effect
     --------------------------------------------------------------------- */

  /** Search stage test: the lower-cased term (not trimmed) occurs in the
      lower-cased title, genre or overview; the year is not searched. */
  predicate SearchHit(m: Movie, term: string) {
    var t := Lower(term);
    Contains(Lower(m.title), t) || Contains(Lower(m.genre), t) || Contains(Lower(m.overview), t)
  }

  /** Genre stage test: "ACTION" looks for "action" only; any other
      selection is a case-insensitive substring test. */
  predicate GenreHit(m: Movie, genre: string) {
    if genre == "ACTION" then Contains(Lower(m.genre), "action")
    else Contains(Lower(m.genre), Lower(genre))
  }

  /** A movie survives both filter stages. */
  predicate Selected(m: Movie, term: string, genre: string) {
    && (Trim(term) != "" ==> SearchHit(m, term))
    && (genre != "ALL" ==> GenreHit(m, genre))
  }

  function SearchStage(movies: seq<Movie>, term: string): (r: seq<Movie>)
    ensures Trim(term) == "" ==> r == movies
    ensures forall m :: m in r ==> m in movies && (Trim(term) != "" ==> SearchHit(m, term))
    ensures forall m :: (Trim(term) != "" ==> SearchHit(m, term)) ==> multiset(r)[m] == multiset(movies)[m]
  {
    if Trim(term) != "" then Filter(movies, m => SearchHit(m, term)) else movies
  }

  function GenreStage(movies: seq<Movie>, genre: string): (r: seq<Movie>)
    ensures genre == "ALL" ==> r == movies
    ensures forall m :: m in r ==> m in movies && (genre != "ALL" ==> GenreHit(m, genre))
    ensures forall m :: (genre != "ALL" ==> GenreHit(m, genre)) ==> multiset(r)[m] == multiset(movies)[m]
  {
    if genre != "ALL" then Filter(movies, m => GenreHit(m, genre)) else movies
  }

  /** The comparator of the effect: the default compares `new Date(year)`
      only, never `releaseDate`. */
  function AppOrder(sortBy: string, host: Host): Order {
    if sortBy == "title" then ByTitle
    else if sortBy == "rating" then ByRating
    else ByTime((m: Movie) => host.timeOf(m.year))
  }

  /** The two filter stages together keep exactly the selected movies. */
  lemma FilterStages(movies: seq<Movie>, term: string, genre: string)
    ensures var f := GenreStage(SearchStage(movies, term), genre);
      && (forall m :: m in f ==> m in movies && Selected(m, term, genre))
      && (forall m :: Selected(m, term, genre) ==> multiset(f)[m] == multiset(movies)[m])
  {
  }

  /** What sortedness under the effect's comparator says about the keys. */
  lemma AppOrderSorted(sortBy: string, host: Host, r: seq<Movie>)
    requires Sorted(AppOrder(sortBy, host), r)
    ensures sortBy == "title" ==>
      forall i, j :: 0 <= i < j < |r| ==> LexLe(r[i].title, r[j].title)
    ensures sortBy == "rating" ==>
      forall i, j :: 0 <= i < j < |r| ==> r[i].rating >= r[j].rating
    ensures sortBy != "title" && sortBy != "rating" ==>
      forall i, j :: 0 <= i < j < |r| ==> host.timeOf(r[i].year) >= host.timeOf(r[j].year)
  {
    forall i, j | 0 <= i < j < |r| ensures Precedes(AppOrder(sortBy, host), r[i], r[j]) {
    }
  }

  /** `filteredMovies` for the given collection and view parameters: the
      movies that pass both filters, each as often as in the collection, in
      the order of the sort key. */
  function Project(movies: seq<Movie>, term: string, genre: string, sortBy: string, host: Host): (r: seq<Movie>)
    ensures forall m :: m in r ==> m in movies && Selected(m, term, genre)
    ensures forall m :: Selected(m, term, genre) ==> multiset(r)[m] == multiset(movies)[m]
    ensures Trim(term) == "" && genre == "ALL" ==> multiset(r) == multiset(movies)
    ensures sortBy == "title" ==>
      forall i, j :: 0 <= i < j < |r| ==> LexLe(r[i].title, r[j].title)
    ensures sortBy == "rating" ==>
      forall i, j :: 0 <= i < j < |r| ==> r[i].rating >= r[j].rating
    ensures sortBy != "title" && sortBy != "rating" ==>
      forall i, j :: 0 <= i < j < |r| ==> host.timeOf(r[i].year) >= host.timeOf(r[j].year)
  {
    var filtered := GenreStage(SearchStage(movies, term), genre);
    var r := Sort(AppOrder(sortBy, host), filtered);
    FilterStages(movies, term, genre);
    SortMembers(AppOrder(sortBy, host), filtered);
    AppOrderSorted(sortBy, host, r);
    r
  }

  function Displayed(s: AppState, host: Host): seq<Movie> {
    Project(s.movies, s.searchTerm, s.selectedGenre, s.sortBy, host)
  }

  /** A term made only of white space filters nothing, whatever it is. */
  lemma BlankTermIsNoOp(movies: seq<Movie>, term: string, genre: string, sortBy: string, host: Host)
    requires IsBlank(term)
    ensures Project(movies, term, genre, sortBy, host) == Project(movies, "", genre, sortBy, host)
  {
  }

  /* ---------------------------------------------------------------------
     View-parameter handlers
     --------------------------------------------------------------------- */

  /** The interlock the handlers keep: a search and a genre filter are never
      active together. */
  predicate ViewInvariant(s: AppState) {
    Trim(s.searchTerm) == "" || s.selectedGenre == "ALL"
  }

  /** `handleSearch`: store the term; a non-blank term resets the genre. */
  function HandleSearch(s: AppState, term: string): (r: AppState)
    ensures r.searchTerm == term
    ensures r.selectedGenre == if Trim(term) != "" then "ALL" else s.selectedGenre
    ensures r.(searchTerm := s.searchTerm, selectedGenre := s.selectedGenre) == s
    ensures ViewInvariant(s) ==> ViewInvariant(r)
  {
    var r := s.(searchTerm := term);
    if Trim(term) != "" then r.(selectedGenre := "ALL") else r
  }

  /** `handleGenreChange`: store the genre; any genre but "ALL" clears the search. */
  function HandleGenreChange(s: AppState, genre: string): (r: AppState)
    ensures r.selectedGenre == genre
    ensures r.searchTerm == if genre != "ALL" then "" else s.searchTerm
    ensures r.(searchTerm := s.searchTerm, selectedGenre := s.selectedGenre) == s
    ensures ViewInvariant(s) ==> ViewInvariant(r)
  {
    var r := s.(selectedGenre := genre);
    if genre != "ALL" then r.(searchTerm := "") else r
  }

  function HandleSortChange(s: AppState, sortBy: string): (r: AppState)
    ensures r == s.(sortBy := sortBy)
    ensures ViewInvariant(s) ==> ViewInvariant(r)
  {
    s.(sortBy := sortBy)
  }

  datatype ViewEvent = Search(term: string) | GenreChange(genre: string) | SortChange(sortBy: string)

  function Step(s: AppState, e: ViewEvent): AppState {
    match e
    case Search(term) => HandleSearch(s, term)
    case GenreChange(genre) => HandleGenreChange(s, genre)
    case SortChange(sortBy) => HandleSortChange(s, sortBy)
  }

  function Run(s: AppState, events: seq<ViewEvent>): AppState
    decreases |events|
  {
    if |events| == 0 then s else Run(Step(s, events[0]), events[1..])
  }

  /** From the initial state, no sequence of view events ever has a
      non-blank search and a genre filter active at once. */
  lemma {:induction false} ViewInvariantHolds(s: AppState, events: seq<ViewEvent>)
    requires ViewInvariant(s)
    ensures ViewInvariant(Run(s, events))
    decreases |events|
  {
    if |events| > 0 {
      ViewInvariantHolds(Step(s, events[0]), events[1..]);
    }
  }

  /** From the first render on, whatever the user types and selects, a
      search and a genre filter are never in force together. */
  lemma ViewInvariantFromInit(movies: seq<Movie>, events: seq<ViewEvent>)
    ensures ViewInvariant(Run(Init(movies), events))
  {
    assert Trim("") == "";
    ViewInvariantHolds(Init(movies), events);
  }

  /** View events never touch the collection. */
  lemma {:induction false} ViewEventsKeepMovies(s: AppState, events: seq<ViewEvent>)
    ensures Run(s, events).movies == s.movies
    decreases |events|
  {
    if |events| > 0 {
      ViewEventsKeepMovies(Step(s, events[0]), events[1..]);
    }
  }

  /* ---------------------------------------------------------------------
     Opening modals
     --------------------------------------------------------------------- */

  function HandleAddMovie(s: AppState): (r: AppState)
    ensures r.editingMovie == None && r.showAddModal
    ensures r.(editingMovie := s.editingMovie, showAddModal := s.showAddModal) == s
  {
    s.(editingMovie := None, showAddModal := true)
  }

  function HandleEditMovie(s: AppState, m: Movie): (r: AppState)
    ensures r.editingMovie == Some(m) && r.showAddModal
    ensures r.(editingMovie := s.editingMovie, showAddModal := s.showAddModal) == s
  {
    s.(editingMovie := Some(m), showAddModal := true)
  }

  function HandleDeleteMovie(s: AppState, m: Movie): (r: AppState)
    ensures r.movieToDelete == Some(m) && r.showDeleteModal
    ensures r.(movieToDelete := s.movieToDelete, showDeleteModal := s.showDeleteModal) == s
  {
    s.(movieToDelete := Some(m), showDeleteModal := true)
  }

  function HandleMovieSelect(s: AppState, m: Movie): (r: AppState)
    ensures r.selectedMovie == Some(m) && r.showMovieDetail
    ensures r.(selectedMovie := s.selectedMovie, showMovieDetail := s.showMovieDetail) == s
  {
    s.(selectedMovie := Some(m), showMovieDetail := true)
  }

  /* ---------------------------------------------------------------------
     Submitting the form and confirming a delete
     --------------------------------------------------------------------- */

  /** The fields an edit overwrites; id and poster are kept. */
  function Edited(m: Movie, form: FormData, rating: real, host: Host): Movie {
    m.(title := form.title, releaseDate := form.releaseDate, url := form.movieUrl,
       rating := rating, genre := form.genre, runtime := form.runtime,
       overview := form.overview, year := host.yearText(form.releaseDate))
  }

  /** The movie an add appends: `idTime` and `posterTime` are the two
      `Date.now()` readings of the source. */
  function NewMovie(form: FormData, rating: real, host: Host, idTime: int, posterTime: int): Movie {
    Movie(idTime, form.title, host.yearText(form.releaseDate), form.genre, rating, form.runtime,
          form.overview, "https://picsum.photos/300/450?random=" + IntToString(posterTime),
          form.movieUrl, form.releaseDate)
  }

  /** `handleMovieSubmit`. It is only reached through the form's submit,
      which admits a rating only when `parseFloat` reads a number. */
  function HandleMovieSubmit(s: AppState, form: FormData, host: Host, idTime: int, posterTime: int): (r: AppState)
    requires host.parseFloat(form.rating).Some?
    ensures !r.showAddModal && r.editingMovie == None && r.showSuccessModal
    ensures r.searchTerm == s.searchTerm && r.selectedGenre == s.selectedGenre && r.sortBy == s.sortBy
    ensures r.selectedMovie == s.selectedMovie && r.showMovieDetail == s.showMovieDetail
    ensures r.movieToDelete == s.movieToDelete && r.showDeleteModal == s.showDeleteModal
    ensures s.editingMovie.Some? ==>
      && |r.movies| == |s.movies|
      && r.successMessage == "The movie has been updated successfully"
      && forall i :: 0 <= i < |s.movies| ==>
           if s.movies[i].id == s.editingMovie.value.id then
             && r.movies[i].id == s.movies[i].id && r.movies[i].poster == s.movies[i].poster
             && r.movies[i].title == form.title && r.movies[i].releaseDate == form.releaseDate
             && r.movies[i].url == form.movieUrl && r.movies[i].genre == form.genre
             && r.movies[i].runtime == form.runtime && r.movies[i].overview == form.overview
             && r.movies[i].rating == host.parseFloat(form.rating).value
             && r.movies[i].year == host.yearText(form.releaseDate)
           else r.movies[i] == s.movies[i]
    ensures s.editingMovie.None? ==>
      && |r.movies| == |s.movies| + 1
      && r.movies[..|s.movies|] == s.movies
      && r.movies[|s.movies|].id == idTime
      && r.movies[|s.movies|].title == form.title
      && r.movies[|s.movies|].year == host.yearText(form.releaseDate)
      && r.movies[|s.movies|].genre == form.genre
      && r.movies[|s.movies|].rating == host.parseFloat(form.rating).value
      && r.movies[|s.movies|].runtime == form.runtime
      && r.movies[|s.movies|].overview == form.overview
      && r.movies[|s.movies|].poster == "https://picsum.photos/300/450?random=" + IntToString(posterTime)
      && r.movies[|s.movies|].url == form.movieUrl
      && r.movies[|s.movies|].releaseDate == form.releaseDate
      && r.successMessage == "The movie has been added to database successfully"
  {
    var rating := host.parseFloat(form.rating).value;
    var r :=
      if s.editingMovie.Some? then
        var id := s.editingMovie.value.id;
        s.(movies := seq(|s.movies|, i requires 0 <= i < |s.movies| =>
                         if s.movies[i].id == id then Edited(s.movies[i], form, rating, host) else s.movies[i]),
           successMessage := "The movie has been updated successfully")
      else
        s.(movies := s.movies + [NewMovie(form, rating, host, idTime, posterTime)],
           successMessage := "The movie has been added to database successfully");
    r.(showAddModal := false, editingMovie := None, showSuccessModal := true)
  }

  /** `handleDeleteConfirm`: removes every movie carrying the id of the one
      marked for deletion, keeping the others in order; with nothing marked
      it does nothing. */
  function HandleDeleteConfirm(s: AppState): (r: AppState)
    ensures s.movieToDelete.None? ==> r == s
    ensures r.searchTerm == s.searchTerm && r.selectedGenre == s.selectedGenre && r.sortBy == s.sortBy
    ensures r.editingMovie == s.editingMovie && r.showAddModal == s.showAddModal
    ensures r.selectedMovie == s.selectedMovie && r.showMovieDetail == s.showMovieDetail
    ensures s.movieToDelete.Some? ==>
      && IsSubseq(r.movies, s.movies)
      && (forall m :: m in r.movies ==> m.id != s.movieToDelete.value.id)
      && (forall m: Movie :: m.id != s.movieToDelete.value.id ==> multiset(r.movies)[m] == multiset(s.movies)[m])
      && !r.showDeleteModal && r.movieToDelete == None && r.showSuccessModal
      && r.successMessage == "The movie has been deleted successfully"
  {
    if s.movieToDelete.Some? then
      var id := s.movieToDelete.value.id;
      s.(movies := Filter(s.movies, (m: Movie) => m.id != id),
         successMessage := "The movie has been deleted successfully",
         showDeleteModal := false, movieToDelete := None, showSuccessModal := true)
    else s
  }

  /** Deleting shortens the collection by exactly the number of movies that
      carry the deleted id. */
  lemma DeleteCount(s: AppState)
    requires s.movieToDelete.Some?
    ensures |HandleDeleteConfirm(s).movies|
            == |s.movies| - |Filter(s.movies, (m: Movie) => m.id == s.movieToDelete.value.id)|
  {
    var id := s.movieToDelete.value.id;
    FilterComplement(s.movies, (m: Movie) => m.id == id, (m: Movie) => m.id != id);
  }

  /* ---------------------------------------------------------------------
     The modal and the app together
     --------------------------------------------------------------------- */

  /** A form the modal sends always carries a rating `parseFloat` reads, from
      0 to 10, so the app's submit handler is defined on it. */
  lemma SentFormIsAccepted(f: MovieForm.FormState, host: Host)
    requires MovieForm.HandleSubmit(f, host).sent.Some?
    ensures host.parseFloat(MovieForm.HandleSubmit(f, host).sent.value.rating).Some?
    ensures 0.0 <= host.parseFloat(MovieForm.HandleSubmit(f, host).sent.value.rating).value <= 10.0
  {
    MovieForm.SubmitIff(f, host);
  }

  /** Opening the edit modal on a movie and saving without touching the form
      leaves the collection as it was, provided the rating survives being
      written as text and read back, and the stored year is the release
      date's year. */
  lemma UnchangedEditKeepsMovies(s: AppState, f: MovieForm.FormState, m: Movie, host: Host,
                                 idTime: int, posterTime: int)
    requires s.editingMovie == Some(m)
    requires forall i :: 0 <= i < |s.movies| && s.movies[i].id == m.id ==> s.movies[i] == m
    requires host.parseFloat(host.numberText(m.rating)) == Some(m.rating)
    requires host.yearText(m.releaseDate) == m.year
    ensures var form := MovieForm.Prefill(f, Some(m), MovieForm.Edit, host).data;
            HandleMovieSubmit(s, form, host, idTime, posterTime).movies == s.movies
  {
    var form := MovieForm.Prefill(f, Some(m), MovieForm.Edit, host).data;
    var r := HandleMovieSubmit(s, form, host, idTime, posterTime);
    forall i | 0 <= i < |s.movies| ensures r.movies[i] == s.movies[i] {
      if s.movies[i].id == m.id {
        assert Edited(m, form, m.rating, host) == m;
      }
    }
  }

  /** A movie just added through the form shows in the detail view with
      the year `handleMovieSubmit` derived from the release date it was
      given, and with the genre text the checkboxes built. */
  lemma AddedMovieDetail(s: AppState, form: FormData, host: Host, idTime: int, posterTime: int,
                         runtime: Option<int>)
    requires s.editingMovie.None? && host.parseFloat(form.rating).Some?
    ensures var r := HandleMovieSubmit(s, form, host, idTime, posterTime);
      var view := MovieDetail.AppRecord(r.movies[|s.movies|], runtime);
      && MovieDetail.GetYear(view, host)
           == (if host.yearText(form.releaseDate) == "" then "N/A" else host.yearText(form.releaseDate))
      && MovieDetail.GetGenres(view) == (if form.genre == "" then "N/A" else form.genre)
  {
    var r := HandleMovieSubmit(s, form, host, idTime, posterTime);
    MovieDetail.AppRecordShows(r.movies[|s.movies|], runtime, host);
  }
}
