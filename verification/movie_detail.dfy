/** The display helpers of src/components/MovieDetail/MovieDetail.jsx: the
    year, the runtime and the genres shown in the detail view. The view
    reads the record as the server sends it, so its field names differ from
    the app's own `Movie`. */
module MovieDetail {
  import opened Results
  import opened Strings
  import opened Movies

  /** The fields the three helpers read. `runtime` is a number of minutes,
      None when missing; `genres` is None unless the record holds an array. */
  datatype DetailMovie = DetailMovie(
    release_date: string,
    year: string,
    runtime: Option<int>,
    genres: Option<seq<string>>,
    genre: string)

  /** `getYear`: the year of the release date when there is one, else the
      stored year, else "N/A". */
  function GetYear(m: DetailMovie, host: Host): (r: string)
    ensures m.release_date != "" ==> r == host.yearText(m.release_date)
    ensures m.release_date == "" ==> (r == "N/A" <==> m.year == "" || m.year == "N/A")
    ensures m.release_date == "" && m.year != "" ==> r == m.year
  {
    if m.release_date != "" then host.yearText(m.release_date)
    else if m.year != "" then m.year
    else "N/A"
  }

  /* ---------------------------------------------------------------------
     getRuntime
     --------------------------------------------------------------------- */

  /** The quotient JavaScript's `%` goes with: `a / b` truncated toward zero. */
  function JsQuot(a: int, b: int): int
    requires b > 0
  {
    if a >= 0 then a / b else -((-a) / b)
  }

  /** JavaScript's `%`: what is left of `a` after the truncated quotient,
      so the remainder takes the sign of the dividend. */
  function JsRem(a: int, b: int): (r: int)
    requires b > 0
    ensures a >= 0 ==> 0 <= r < b
    ensures a < 0 ==> -b < r <= 0
    ensures a == b * JsQuot(a, b) + r
  {
    if a >= 0 then a % b
    else
      var q := (-a) / b;
      assert -a == b * q + (-a) % b;
      assert b * JsQuot(a, b) == -(b * q);
      -((-a) % b)
  }

  /** `getRuntime`: "N/A" for a missing or zero runtime; otherwise the
      minutes as "<h>h <m>min", or "<m>min" under an hour. The hours are
      `Math.floor(runtime / 60)`, which for a positive divisor is Dafny's
      `/`; a negative runtime has negative hours, so it is shown as its
      signed remainder alone, and JavaScript writes the remainder -0 as
      "0". */
  function GetRuntime(runtime: Option<int>): (r: string)
    ensures runtime.None? || runtime.value == 0 ==> r == "N/A"
    ensures runtime.Some? && 0 < runtime.value < 60 ==> r == NatToString(runtime.value) + "min"
    ensures runtime.Some? && runtime.value >= 60 ==>
      r == NatToString(runtime.value / 60) + "h " + NatToString(runtime.value % 60) + "min"
    ensures runtime.Some? && runtime.value < 0 && (-runtime.value) % 60 == 0 ==> r == "0min"
    ensures runtime.Some? && runtime.value < 0 && (-runtime.value) % 60 != 0 ==>
      r == "-" + NatToString((-runtime.value) % 60) + "min"
    ensures runtime.Some? && runtime.value != 0 ==> |r| > 3 && r[|r| - 3..] == "min"
  {
    if runtime.None? || runtime.value == 0 then "N/A"
    else
      var hours := runtime.value / 60;
      var minutes := JsRem(runtime.value, 60);
      if hours > 0 then IntToString(hours) + "h " + IntToString(minutes) + "min"
      else IntToString(minutes) + "min"
  }

  /** The length of the longest run of digits at the front of `s`. */
  function DigitPrefix(s: string): (k: nat)
    ensures k <= |s| && AllDigits(s[..k])
    ensures k < |s| ==> !IsDigit(s[k])
  {
    if |s| == 0 || !IsDigit(s[0]) then 0
    else
      var k := 1 + DigitPrefix(s[1..]);
      assert forall j :: 1 <= j < k ==> s[..k][j] == s[1..][..k - 1][j - 1];
      k
  }

  lemma {:induction false} DigitPrefixOf(d: string, rest: string)
    requires AllDigits(d)
    requires |rest| > 0 ==> !IsDigit(rest[0])
    ensures DigitPrefix(d + rest) == |d|
    decreases |d|
  {
    if |d| > 0 {
      assert (d + rest)[1..] == d[1..] + rest;
      DigitPrefixOf(d[1..], rest);
    } else {
      assert d + rest == rest;
    }
  }

  /** Reads a runtime text back into minutes: "<h>h <m>min" or "<m>min"
      with decimal digits; None for anything else. */
  function ReadRuntime(t: string): (r: Option<int>)
    ensures r.Some? ==> r.value >= 0
  {
    if |t| < 3 || t[|t| - 3..] != "min" then None
    else
      var body := t[..|t| - 3];
      var k := DigitPrefix(body);
      if k == 0 then None
      else if k == |body| then Some(DigitsValue(body))
      else if k + 2 < |body| && body[k..k + 2] == "h " && AllDigits(body[k + 2..]) then
        Some(DigitsValue(body[..k]) * 60 + DigitsValue(body[k + 2..]))
      else None
  }

  lemma ReadHoursText(h: nat, mm: nat)
    requires h > 0
    ensures ReadRuntime(NatToString(h) + "h " + NatToString(mm) + "min") == Some(h * 60 + mm)
  {
    var dh, dm := NatToString(h), NatToString(mm);
    NatToStringRoundTrip(h);
    NatToStringRoundTrip(mm);
    var t := dh + "h " + dm + "min";
    var body := dh + ("h " + dm);
    assert t[..|t| - 3] == body;
    assert t[|t| - 3..] == "min";
    DigitPrefixOf(dh, "h " + dm);
    assert body[|dh|..|dh| + 2] == "h ";
    assert body[|dh| + 2..] == dm;
    assert body[..|dh|] == dh;
  }

  lemma ReadMinutesText(mm: nat)
    ensures ReadRuntime(NatToString(mm) + "min") == Some(mm)
  {
    var dm := NatToString(mm);
    NatToStringRoundTrip(mm);
    var t := dm + "min";
    assert t[..|t| - 3] == dm;
    assert t[|t| - 3..] == "min";
    DigitPrefixOf(dm, "");
    assert dm + "" == dm;
  }

  /** Positive runtimes are shown without loss: the text reads back as the
      number of minutes it was made from. */
  lemma RuntimeRoundTrip(minutes: int)
    requires minutes > 0
    ensures ReadRuntime(GetRuntime(Some(minutes))) == Some(minutes)
  {
    var h, mm := minutes / 60, minutes % 60;
    assert minutes == h * 60 + mm;
    assert JsRem(minutes, 60) == mm;
    assert IntToString(mm) == NatToString(mm);
    if h > 0 {
      assert IntToString(h) == NatToString(h);
      assert GetRuntime(Some(minutes)) == NatToString(h) + "h " + NatToString(mm) + "min";
      ReadHoursText(h, mm);
    } else {
      assert GetRuntime(Some(minutes)) == NatToString(mm) + "min";
      ReadMinutesText(mm);
    }
  }

  /** Different positive runtimes are shown differently. */
  lemma RuntimeTextInjective(a: int, b: int)
    requires a > 0 && b > 0 && GetRuntime(Some(a)) == GetRuntime(Some(b))
    ensures a == b
  {
    RuntimeRoundTrip(a);
    RuntimeRoundTrip(b);
  }

  /* ---------------------------------------------------------------------
     getGenres
     --------------------------------------------------------------------- */

  const GenreSep := " & "

  /** `getGenres`: an array of genres joined with " & " (an empty array
      gives ""), else the genre text, else "N/A". */
  function GetGenres(m: DetailMovie): (r: string)
    ensures m.genres.Some? ==> r == Join(m.genres.value, GenreSep)
    ensures m.genres.Some? ==> (r == "" <==> m.genres.value == [] || m.genres.value == [""])
    ensures m.genres.None? && m.genre != "" ==> r == m.genre
    ensures m.genres.None? && m.genre == "" ==> r == "N/A"
  {
    if m.genres.Some? then Join(m.genres.value, GenreSep)
    else if m.genre != "" then m.genre
    else "N/A"
  }

  /** The text lists every genre of the array. */
  lemma GenresShown(m: DetailMovie)
    requires m.genres.Some?
    ensures forall k :: 0 <= k < |m.genres.value| ==> Contains(GetGenres(m), m.genres.value[k])
  {
    JoinShowsParts(m.genres.value, GenreSep);
  }

  /* ---------------------------------------------------------------------
     The app's own records in the detail view
     --------------------------------------------------------------------- */

  /** How the view reads a movie of the app's collection: the app stores
      the date as `releaseDate`, so `release_date` is absent, and it keeps
      one genre text, never a `genres` array. The runtime is given as the
      number the view reads. */
  function AppRecord(m: Movie, runtime: Option<int>): DetailMovie {
    DetailMovie("", m.year, runtime, None, m.genre)
  }

  /** For the app's records the view never parses a date: it shows the
      stored year and the genre text, each falling back to "N/A". */
  lemma AppRecordShows(m: Movie, runtime: Option<int>, host: Host)
    ensures GetYear(AppRecord(m, runtime), host) == if m.year == "" then "N/A" else m.year
    ensures GetGenres(AppRecord(m, runtime)) == if m.genre == "" then "N/A" else m.genre
  {
  }
}
