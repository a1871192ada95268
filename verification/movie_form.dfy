/** The add/edit modal of src/components/AddMovieModal/AddMovieModal.jsx:
    its form state, validation, submit, reset, the prefill on opening and
    the genre checkboxes that edit the comma-separated genre text. */
module MovieForm {
  import opened Results
  import opened Strings
  import opened Seqs
  import opened Movies

  datatype Mode = Add | Edit

  /** The modal's state: the seven field texts and the error text per field.
      A field whose error was cleared by typing keeps its key, with "". */
  datatype FormState = FormState(data: FormData, errors: map<Field, string>)

  /** The fields whose error message is on screen (`errors.f && ...`). */
  function Shown(errors: map<Field, string>): set<Field> {
    set f | f in errors && errors[f] != ""
  }

  /* ---------------------------------------------------------------------
     validateForm and handleSubmit
     --------------------------------------------------------------------- */

  /** `!(isNaN(rating) || rating < 0 || rating > 10)` for `parseFloat`. */
  predicate RatingInRange(rating: string, host: Host) {
    var v := host.parseFloat(rating);
    v.Some? && 0.0 <= v.value <= 10.0
  }

  /** The message `validateForm` records for one field, if any. Title, URL,
      runtime and overview are tested after `trim`, the others as they are;
      the range test on a present rating overrides nothing else. */
  function FormError(d: FormData, host: Host, f: Field): Option<string> {
    match f
    case Title => if IsBlank(d.title) then Some("Title is required") else None
    case ReleaseDate => if d.releaseDate == "" then Some("Release date is required") else None
    case MovieUrl => if IsBlank(d.movieUrl) then Some("Movie URL is required") else None
    case Rating =>
      if d.rating == "" then Some("Rating is required")
      else if !RatingInRange(d.rating, host) then Some("Rating must be between 0 and 10")
      else None
    case Genre => if d.genre == "" then Some("Please select at least one genre") else None
    case Runtime => if IsBlank(d.runtime) then Some("Runtime is required") else None
    case Overview => if IsBlank(d.overview) then Some("Overview is required") else None
  }

  /** The `newErrors` object `validateForm` builds. */
  function ValidateForm(d: FormData, host: Host): (errors: map<Field, string>)
    ensures Title in errors <==> IsBlank(d.title)
    ensures Title in errors ==> errors[Title] == "Title is required"
    ensures ReleaseDate in errors <==> d.releaseDate == ""
    ensures ReleaseDate in errors ==> errors[ReleaseDate] == "Release date is required"
    ensures MovieUrl in errors <==> IsBlank(d.movieUrl)
    ensures MovieUrl in errors ==> errors[MovieUrl] == "Movie URL is required"
    ensures Rating in errors <==> !RatingInRange(d.rating, host) || d.rating == ""
    ensures Rating in errors ==>
      errors[Rating] == if d.rating == "" then "Rating is required" else "Rating must be between 0 and 10"
    ensures Genre in errors <==> d.genre == ""
    ensures Genre in errors ==> errors[Genre] == "Please select at least one genre"
    ensures Runtime in errors <==> IsBlank(d.runtime)
    ensures Runtime in errors ==> errors[Runtime] == "Runtime is required"
    ensures Overview in errors <==> IsBlank(d.overview)
    ensures Overview in errors ==> errors[Overview] == "Overview is required"
    ensures Shown(errors) == errors.Keys
  {
    var errors := map f | f in AllFields && FormError(d, host, f).Some? :: FormError(d, host, f).value;
    assert forall f :: f in errors <==> FormError(d, host, f).Some?;
    errors
  }

  datatype Submitted = Submitted(state: FormState, sent: Option<FormData>)

  /** `handleSubmit`: the errors are replaced by the new ones, and the form
      data goes to `onSubmit` exactly when there are none. */
  function HandleSubmit(s: FormState, host: Host): (r: Submitted)
    ensures r.state.data == s.data
    ensures r.state.errors == ValidateForm(s.data, host)
    ensures r.sent.Some? <==> r.state.errors == map[]
    ensures r.sent.Some? ==> r.sent.value == s.data
  {
    var errors := ValidateForm(s.data, host);
    Submitted(FormState(s.data, errors), if |errors| == 0 then Some(s.data) else None)
  }

  /** What a form must hold to be sent: every required text, and a rating
      that `parseFloat` reads as a number from 0 to 10. This is what lets
      the app's submit handler read the rating. */
  lemma SubmitIff(s: FormState, host: Host)
    ensures HandleSubmit(s, host).sent.Some? <==>
      && !IsBlank(s.data.title) && s.data.releaseDate != "" && !IsBlank(s.data.movieUrl)
      && s.data.rating != "" && RatingInRange(s.data.rating, host) && s.data.genre != ""
      && !IsBlank(s.data.runtime) && !IsBlank(s.data.overview)
  {
    var errors := ValidateForm(s.data, host);
    if errors != map[] {
      var f :| f in errors;
    }
  }

  /* ---------------------------------------------------------------------
     handleInputChange, handleReset and the prefill effect
     --------------------------------------------------------------------- */

  /** `handleInputChange(field, value)`: sets the field and, if its error is
      on screen, blanks that error (the key stays). */
  function HandleInputChange(s: FormState, f: Field, v: string): (r: FormState)
    ensures Get(r.data, f) == v
    ensures forall g :: g != f ==> Get(r.data, g) == Get(s.data, g)
    ensures r.errors.Keys == s.errors.Keys
    ensures forall g :: g in s.errors && g != f ==> r.errors[g] == s.errors[g]
    ensures Shown(r.errors) == Shown(s.errors) - {f}
  {
    var errors := if f in s.errors && s.errors[f] != "" then s.errors[f := ""] else s.errors;
    FormState(With(s.data, f, v), errors)
  }

  /** `handleReset`. */
  function HandleReset(s: FormState): (r: FormState)
    ensures forall f :: Get(r.data, f) == ""
    ensures r.errors == map[]
  {
    FormState(EmptyForm, map[])
  }

  /** A reset form cannot be sent: every field reports its "required" error. */
  lemma ResetFormIsRejected(s: FormState, host: Host)
    ensures HandleSubmit(HandleReset(s), host).sent == None
    ensures forall f: Field :: f in HandleSubmit(HandleReset(s), host).state.errors
  {
    var errors := HandleSubmit(HandleReset(s), host).state.errors;
    assert IsBlank("");
    forall f: Field ensures f in errors {
      match f
      case Title =>
      case ReleaseDate =>
      case MovieUrl =>
      case Rating =>
      case Genre =>
      case Runtime =>
      case Overview =>
    }
  }

  /** The effect run when the modal opens or its movie or mode change. In
      edit mode with a movie the fields are copied from it (`url` goes to
      the URL field, the rating is written as text); in add mode they are
      emptied; in edit mode without a movie they are left as they were. The
      errors are cleared in every case. */
  function Prefill(s: FormState, movie: Option<Movie>, mode: Mode, host: Host): (r: FormState)
    ensures r.errors == map[]
    ensures mode == Add ==> r == HandleReset(s)
    ensures mode == Edit && movie.None? ==> r.data == s.data
    ensures mode == Edit && movie.Some? ==>
      && r.data.title == movie.value.title && r.data.releaseDate == movie.value.releaseDate
      && r.data.movieUrl == movie.value.url && r.data.rating == host.numberText(movie.value.rating)
      && r.data.genre == movie.value.genre && r.data.runtime == movie.value.runtime
      && r.data.overview == movie.value.overview
  {
    match (movie, mode)
    case (Some(m), Edit) =>
      FormState(FormData(m.title, m.releaseDate, m.url, host.numberText(m.rating), m.genre, m.runtime, m.overview), map[])
    case (_, Add) => FormState(EmptyForm, map[])
    case (None, Edit) => FormState(s.data, map[])
  }

  /* ---------------------------------------------------------------------
     The genre checkboxes
     --------------------------------------------------------------------- */

  const GenreOptions: seq<string> := ["Crime", "Documentary", "Horror", "Comedy", "Action", "Drama"]

  /** The separator the checkboxes write between genres. */
  const Sep := ", "

  lemma SepBorderFree()
    ensures |Sep| > 0 && BorderFree(Sep)
  {
    assert Sep[1..] != Sep[..1] by { assert Sep[1..][0] == ' '; }
  }

  /** A text without a comma cannot contain the separator. */
  lemma NoCommaNoSep(g: string)
    requires forall k :: 0 <= k < |g| ==> g[k] != ','
    ensures !Contains(g, Sep)
  {
    forall i | 0 <= i <= |g| - |Sep| ensures !OccursAt(g, Sep, i) {
      assert g[i..i + |Sep|][0] == g[i];
    }
  }

  /** A genre one of the checkboxes offers. */
  predicate IsOption(g: string) {
    g in GenreOptions
  }

  lemma OptionShape(g: string)
    requires IsOption(g)
    ensures g != "" && !Contains(g, Sep)
  {
    NoCommaNoSep(g);
  }

  /** The genres a genre text lists: none for "", else its comma pieces. */
  function Entries(cur: string): seq<string> {
    if cur == "" then [] else Split(cur, Sep)
  }

  /** No genre in the text is empty, as when it is built by the checkboxes
      from "" (or a movie's genre without stray separators). */
  predicate WellFormed(cur: string) {
    forall k :: 0 <= k < |Entries(cur)| ==> Entries(cur)[k] != ""
  }

  /** `checked={formData.genre.includes(genre)}`: a substring test. */
  predicate IsChecked(cur: string, g: string) {
    Contains(cur, g)
  }

  /** A genre that is an entry of the text is always shown checked. */
  lemma EntryIsChecked(cur: string, g: string)
    requires g in Split(cur, Sep)
    ensures IsChecked(cur, g)
  {
    EntryOccurs(cur, g);
  }

  /** Checking a box: `formData.genre ? \`${formData.genre}, ${genre}\` : genre`.
      The old text is kept in front and the genre's box becomes checked. */
  function AddGenre(cur: string, g: string): (r: string)
    ensures |cur| <= |r| && r[..|cur|] == cur
    ensures IsChecked(r, g)
  {
    var r := if cur == "" then g else cur + Sep + g;
    assert OccursAt(r, g, |r| - |g|) by { assert r[|r| - |g|..] == g; }
    r
  }

  /** Unchecking a box: split at ", ", drop the pieces equal to the genre,
      join with ", ". Every other piece stays in the text. */
  function RemoveGenre(cur: string, g: string): (r: string)
    ensures forall x :: x in Split(cur, Sep) && x != g ==> Contains(r, x)
  {
    var kept := Filter(Split(cur, Sep), (x: string) => x != g);
    JoinShowsParts(kept, Sep);
    assert forall x :: x in kept ==> exists k :: 0 <= k < |kept| && kept[k] == x;
    Join(kept, Sep)
  }

  /** A checkbox's `onChange`: it was checked exactly when the text
      contains the genre, so a click removes it then and adds it otherwise.
      A click on an unchecked box checks it; a click on a checked box keeps
      every other entry. */
  function Toggle(cur: string, g: string): (r: string)
    ensures !IsChecked(cur, g) ==> IsChecked(r, g)
    ensures IsChecked(cur, g) ==> forall x :: x in Split(cur, Sep) && x != g ==> Contains(r, x)
  {
    if IsChecked(cur, g) then RemoveGenre(cur, g) else AddGenre(cur, g)
  }

  lemma SplitSingle(g: string)
    requires !Contains(g, Sep)
    ensures Split(g, Sep) == [g]
  {
    SepBorderFree();
    SplitJoin([g], Sep);
  }

  /** Checking adds the genre as the last entry. */
  lemma AddGenreEntries(cur: string, g: string)
    requires g != "" && !Contains(g, Sep)
    ensures Entries(AddGenre(cur, g)) == Entries(cur) + [g]
  {
    SepBorderFree();
    if cur == "" {
      SplitSingle(g);
    } else {
      SplitAppend(cur, g, Sep);
    }
  }

  /** Unchecking removes exactly the entries equal to the genre, keeping
      the others in order. */
  lemma RemoveGenreEntries(cur: string, g: string)
    requires WellFormed(cur)
    ensures Entries(RemoveGenre(cur, g)) == Filter(Entries(cur), (x: string) => x != g)
  {
    SepBorderFree();
    var p := (x: string) => x != g;
    if cur == "" {
      SplitSingle("");
      assert Filter([""], p) == if g == "" then [] else [""];
    } else {
      var parts := Split(cur, Sep);
      var kept := Filter(parts, p);
      if kept != [] {
        assert forall k :: 0 <= k < |kept| ==> kept[k] in parts;
        assert kept[0] != "" by {
          var k :| 0 <= k < |parts| && parts[k] == kept[0];
          assert Entries(cur)[k] == parts[k];
        }
        JoinCoversFirst(kept, Sep);
        SplitJoin(kept, Sep);
      }
    }
  }

  /** Unchecking a genre that is no entry of the text (it occurs only
      inside another entry, as "Action" inside "Action & Adventure")
      leaves the text as it was, so the box stays checked. */
  lemma RemoveAbsentKeepsText(cur: string, g: string)
    requires forall k :: 0 <= k < |Split(cur, Sep)| ==> Split(cur, Sep)[k] != g
    ensures RemoveGenre(cur, g) == cur
  {
    FilterAll(Split(cur, Sep), (x: string) => x != g);
    JoinSplit(cur, Sep);
  }

  /** Unchecking right after checking restores the text. */
  lemma {:induction false} RemoveAfterAdd(cur: string, g: string)
    requires g != "" && !Contains(g, Sep)
    requires forall k :: 0 <= k < |Split(cur, Sep)| ==> Split(cur, Sep)[k] != g
    ensures RemoveGenre(AddGenre(cur, g), g) == cur
  {
    SepBorderFree();
    var p := (x: string) => x != g;
    if cur == "" {
      SplitSingle(g);
      assert Filter([g], p) == [];
    } else {
      SplitAppend(cur, g, Sep);
      FilterAppend(Split(cur, Sep), [g], p);
      assert Filter([g], p) == [];
      FilterAll(Split(cur, Sep), p);
      assert Filter(Split(cur, Sep), p) + [] == Split(cur, Sep);
      JoinSplit(cur, Sep);
    }
  }

  /** An occurrence in a suffix is an occurrence in the whole. */
  lemma OccursInSuffix(s: string, t: string, k: nat)
    requires k <= |s| && Contains(s[k..], t)
    ensures Contains(s, t)
  {
    var j :| 0 <= j <= |s[k..]| - |t| && OccursAt(s[k..], t, j);
    assert s[k + j..k + j + |t|] == s[k..][j..j + |t|];
    assert OccursAt(s, t, k + j);
  }

  /** Every entry of a split text occurs in it. */
  lemma {:induction false} EntryOccurs(s: string, p: string)
    requires p in Split(s, Sep)
    ensures Contains(s, p)
    decreases |s|
  {
    match Find(s, Sep, 0)
    case None =>
      SplitNone(s, Sep);
      assert OccursAt(s, p, 0) by { assert p == s && s[0..|s|] == s; }
    case Some(i) =>
      var rest := s[i + |Sep|..];
      SplitSome(s, Sep, i);
      if p == s[..i] {
        assert OccursAt(s, p, 0);
      } else {
        assert p in Split(rest, Sep);
        EntryOccurs(rest, p);
        OccursInSuffix(s, p, i + |Sep|);
      }
  }

  /** Clicking an unchecked box twice gives the text back. */
  lemma ToggleTwiceFromUnchecked(cur: string, g: string)
    requires IsOption(g) && !IsChecked(cur, g)
    ensures IsChecked(Toggle(cur, g), g)
    ensures Toggle(Toggle(cur, g), g) == cur
  {
    OptionShape(g);
    var added := AddGenre(cur, g);
    assert OccursAt(added, g, |added| - |g|) by {
      assert added[|added| - |g|..] == g;
    }
    forall k | 0 <= k < |Split(cur, Sep)| ensures Split(cur, Sep)[k] != g {
      if Split(cur, Sep)[k] == g {
        EntryOccurs(cur, g);
      }
    }
    RemoveAfterAdd(cur, g);
  }

  /** The checkboxes keep a well-formed genre text well-formed, and after a
      click that adds, the genre is the last entry; after one that removes,
      it is no entry at all. */
  lemma ToggleEntries(cur: string, g: string)
    requires IsOption(g) && WellFormed(cur)
    ensures WellFormed(Toggle(cur, g))
    ensures IsChecked(cur, g) ==> g !in Entries(Toggle(cur, g))
    ensures !IsChecked(cur, g) ==> Entries(Toggle(cur, g)) == Entries(cur) + [g]
  {
    OptionShape(g);
    if IsChecked(cur, g) {
      RemoveGenreEntries(cur, g);
      var kept := Filter(Entries(cur), (x: string) => x != g);
      assert forall k :: 0 <= k < |kept| ==> kept[k] in Entries(cur);
    } else {
      AddGenreEntries(cur, g);
    }
  }
}
