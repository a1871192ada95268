/** The REST client of src/services/movieService.js: the paginated full
    fetch, the id guards of update and delete, and the error messages every
    call composes. The HTTP transport is an oracle passed in by the caller. */
module MovieService {
  import opened Results
  import opened Movies

  const PageSize := 100

  /** The body of a listing response as the code reads it: `data.data` and
      `data.totalAmount`, None where the property is missing or falsy. A bare
      array body reads as `Page(None, None)`. */
  datatype Page = Page(data: Option<seq<Movie>>, totalAmount: Option<int>)

  /** A rejected request: the server's `message` when the response carried
      one, and the transport error's own message. */
  datatype HttpError = HttpError(serverMessage: Option<string>, message: string)

  /** The value `getAllMovies` resolves with. */
  datatype Listing = Listing(data: seq<Movie>, totalAmount: int, offset: int, limit: int)

  datatype Request = Request(limit: int, offset: int)

  /** `error.response?.data?.message || error.message`. */
  function ErrorText(e: HttpError): string {
    if e.serverMessage.Some? && e.serverMessage.value != "" then e.serverMessage.value else e.message
  }

  /** The message every call rethrows: "Failed to <action>: <reason>". */
  function Failed(action: string, e: HttpError): (msg: string)
    ensures e.serverMessage.Some? && e.serverMessage.value != "" ==>
      msg == "Failed to " + action + ": " + e.serverMessage.value
    ensures e.serverMessage.None? || e.serverMessage.value == "" ==>
      msg == "Failed to " + action + ": " + e.message
  {
    "Failed to " + action + ": " + ErrorText(e)
  }

  /** The message loses nothing: for one action, equal messages carry the
      same reason, so the caller can read the reason back. */
  lemma FailedKeepsReason(action: string, e1: HttpError, e2: HttpError)
    requires Failed(action, e1) == Failed(action, e2)
    ensures ErrorText(e1) == ErrorText(e2)
  {
    var prefix := "Failed to " + action + ": ";
    assert Failed(action, e1)[|prefix|..] == ErrorText(e1);
    assert Failed(action, e2)[|prefix|..] == ErrorText(e2);
  }

  /* ---------------------------------------------------------------------
     getAllMovies
     --------------------------------------------------------------------- */

  /** `data.data || []`. */
  function Items(p: Page): seq<Movie> { p.data.GetOr([]) }

  /** `data.totalAmount || 0`. */
  function Total(p: Page): int { p.totalAmount.GetOr(0) }

  /** The items of the `i`-th page request (offset `100 * i`), [] if it failed. */
  function ItemsAt(fetch: int -> Result<Page, HttpError>, i: nat): seq<Movie> {
    if fetch(PageSize * i).Success? then Items(fetch(PageSize * i).value) else []
  }

  /** The in-order concatenation of the first `k` pages. */
  function Fetched(fetch: int -> Result<Page, HttpError>, k: nat): seq<Movie> {
    if k == 0 then [] else Fetched(fetch, k - 1) + ItemsAt(fetch, k - 1)
  }

  /** After the `i`-th request the loop goes on: the request succeeded, the
      page was full and fewer items than the reported total are in hand. */
  predicate Continues(fetch: int -> Result<Page, HttpError>, i: nat) {
    && fetch(PageSize * i).Success?
    && |ItemsAt(fetch, i)| == PageSize
    && |Fetched(fetch, i + 1)| < Total(fetch(PageSize * i).value)
  }

  /** `getAllMovies`, with `fetch(offset)` standing for
      `api.get("/movies", { params: { limit: 100, offset } })`. It returns the
      requests it issued, in order. The source loop stops exactly when some
      request does not continue; the ghost `n` names one such request, and
      without it the loop need not stop. */
  method GetAllMovies(fetch: int -> Result<Page, HttpError>, ghost n: nat)
    returns (r: Result<Listing, string>, requests: seq<Request>)
    requires !Continues(fetch, n)
    ensures 1 <= |requests| <= n + 1
    ensures forall i :: 0 <= i < |requests| ==> requests[i] == Request(PageSize, PageSize * i)
    ensures forall i :: 0 <= i < |requests| - 1 ==> Continues(fetch, i)
    ensures r.Success? ==>
      && fetch(PageSize * (|requests| - 1)).Success?
      && !Continues(fetch, |requests| - 1)
      && r.value.data == Fetched(fetch, |requests|)
      && r.value.totalAmount == r.value.limit == |r.value.data|
      && r.value.offset == 0
    ensures r.Failure? ==>
      && fetch(PageSize * (|requests| - 1)).Failure?
      && r.error == Failed("fetch all movies", fetch(PageSize * (|requests| - 1)).error)
  {
    var allMovies: seq<Movie> := [];
    var offset := 0;
    var hasMore := true;
    requests := [];
    while hasMore
      invariant offset == PageSize * |requests|
      invariant forall i :: 0 <= i < |requests| ==> requests[i] == Request(PageSize, PageSize * i)
      invariant allMovies == Fetched(fetch, |requests|)
      invariant forall i :: 0 <= i < |requests| - 1 ==> Continues(fetch, i)
      invariant hasMore ==> |requests| == 0 || Continues(fetch, |requests| - 1)
      invariant hasMore ==> |requests| <= n
      invariant !hasMore ==> |requests| > 0 && fetch(PageSize * (|requests| - 1)).Success?
                             && !Continues(fetch, |requests| - 1)
      invariant |requests| <= n + 1
      decreases hasMore, n - |requests|
    {
      var response := fetch(offset);
      requests := requests + [Request(PageSize, offset)];
      if response.Failure? {
        r := Failure(Failed("fetch all movies", response.error));
        return;
      }
      var movies := Items(response.value);
      var totalAmount := Total(response.value);
      allMovies := allMovies + movies;
      hasMore := |movies| == PageSize && |allMovies| < totalAmount;
      offset := offset + PageSize;
    }
    r := Success(Listing(allMovies, |allMovies|, 0, |allMovies|));
  }

  /** While every page continues, each one was full. */
  lemma {:induction false} FetchedFull(fetch: int -> Result<Page, HttpError>, k: nat)
    requires forall i :: 0 <= i < k ==> Continues(fetch, i)
    ensures |Fetched(fetch, k)| == PageSize * k
  {
    if k > 0 {
      FetchedFull(fetch, k - 1);
      assert Continues(fetch, k - 1);
      assert Fetched(fetch, k) == Fetched(fetch, k - 1) + ItemsAt(fetch, k - 1);
    }
  }

  /** A server whose reported totals never exceed `bound` gets at most
      ceil(bound / 100) requests (and always at least one). */
  lemma RequestCountBound(fetch: int -> Result<Page, HttpError>, bound: nat, k: nat)
    requires k >= 1
    requires forall i :: 0 <= i < k - 1 ==> Continues(fetch, i)
    requires forall off :: fetch(off).Success? ==> Total(fetch(off).value) <= bound
    ensures k <= if bound <= PageSize then 1 else (bound + PageSize - 1) / PageSize
  {
    if k >= 2 {
      FetchedFull(fetch, k - 1);
      assert Continues(fetch, k - 2);
      assert PageSize * (k - 1) < bound;
    }
  }

  /* ---------------------------------------------------------------------
     The single-request calls
     --------------------------------------------------------------------- */

  /** A call's outcome together with the number of requests it sent. */
  datatype Call<T> = Call(result: Result<T, string>, sent: nat)

  /** Rethrow a transport outcome with the call's "Failed to ..." message. */
  function Wrap<T>(action: string, outcome: Result<T, HttpError>): (r: Result<T, string>)
    ensures outcome.Success? ==> r == Success(outcome.value)
    ensures outcome.Failure? ==> r == Failure(Failed(action, outcome.error))
  {
    match outcome
    case Success(v) => Success(v)
    case Failure(e) => Failure(Failed(action, e))
  }

  /** `getMovies`, `getMovieById` and `createMovie`: one request each. */
  function GetMovies<T>(outcome: Result<T, HttpError>): (c: Call<T>)
    ensures c.sent == 1 && c.result == Wrap("fetch movies", outcome)
  {
    Call(Wrap("fetch movies", outcome), 1)
  }

  function GetMovieById<T>(outcome: Result<T, HttpError>): (c: Call<T>)
    ensures c.sent == 1 && c.result == Wrap("fetch movie", outcome)
  {
    Call(Wrap("fetch movie", outcome), 1)
  }

  function CreateMovie<T>(outcome: Result<T, HttpError>): (c: Call<T>)
    ensures c.sent == 1 && c.result == Wrap("create movie", outcome)
  {
    Call(Wrap("create movie", outcome), 1)
  }

  /** The errors the id guards throw inside the `try`; the `catch` wraps
      them like any transport error. */
  const UpdateIdRequired := "Movie ID is required for update"
  const DeleteIdRequired := "Movie ID is required for deletion"

  /** `!id` for a numeric id: missing or 0. */
  predicate Falsy(id: Option<int>) {
    id.None? || id.value == 0
  }

  /** `updateMovie`: without an id it rejects before sending anything;
      otherwise it sends one PUT whose outcome `put` gives. */
  function UpdateMovie<T>(id: Option<int>, put: Result<T, HttpError>): (c: Call<T>)
    ensures Falsy(id) ==> c.sent == 0 && c.result == Failure("Failed to " + "update movie" + ": " + UpdateIdRequired)
    ensures !Falsy(id) ==> c.sent == 1 && c.result == Wrap("update movie", put)
  {
    if Falsy(id) then Call(Failure(Failed("update movie", HttpError(None, UpdateIdRequired))), 0)
    else Call(Wrap("update movie", put), 1)
  }

  /** `deleteMovie`: the same guard, then one DELETE. */
  function DeleteMovie<T>(id: Option<int>, del: int -> Result<T, HttpError>): (c: Call<T>)
    ensures Falsy(id) ==> c.sent == 0 && c.result == Failure("Failed to " + "delete movie" + ": " + DeleteIdRequired)
    ensures !Falsy(id) ==> c.sent == 1 && c.result == Wrap("delete movie", del(id.value))
  {
    if Falsy(id) then Call(Failure(Failed("delete movie", HttpError(None, DeleteIdRequired))), 0)
    else Call(Wrap("delete movie", del(id.value)), 1)
  }

  /** A call that sent nothing failed: only the id guards stop a request. */
  lemma NoRequestMeansGuardFailed<T>(id: Option<int>, put: Result<T, HttpError>, del: int -> Result<T, HttpError>)
    ensures UpdateMovie(id, put).sent == 0 <==> Falsy(id)
    ensures DeleteMovie(id, del).sent == 0 <==> Falsy(id)
    ensures UpdateMovie(id, put).sent == 0 ==> UpdateMovie(id, put).result.Failure?
  {
  }
}
