/** The records the catalogue works on: a movie as the app keeps it, the
    add/edit form's seven text fields, and the browser primitives the code
    calls but whose behaviour is outside this model. */
module Movies {
  import opened Results

  /** A movie in the app's in-memory collection. A text field the source
      leaves undefined is "" here. The `||` fallbacks and `!x` tests treat
      undefined and "" alike, but `toLowerCase`, `trim` and `toString` throw
      on undefined where the model reads "": records are assumed to carry
      every text field. */
  datatype Movie = Movie(
    id: int,
    title: string,
    year: string,
    genre: string,        // one text such as "Action & Adventure" or "Crime, Drama"
    rating: real,
    runtime: string,      // display text such as "2h 30min"
    overview: string,
    poster: string,
    url: string,
    releaseDate: string)  // ISO date text, "" when absent

  /** Browser and language primitives, passed in rather than defined. */
  datatype Host = Host(
    timeOf: string -> int,              // new Date(s) as a time value; texts that do not parse are outside the model
    yearText: string -> string,         // new Date(s).getFullYear().toString()
    parseFloat: string -> Option<real>, // parseFloat(s); None is NaN
    toNumber: string -> Option<real>,   // Number(s), as `<`/`>` coerce text; None is NaN
    isUrl: string -> bool,              // `new URL(s)` does not throw
    numberText: real -> string)         // Number.prototype.toString

  /** The add/edit form: every field is the text of its input element. */
  datatype FormData = FormData(
    title: string,
    releaseDate: string,
    movieUrl: string,
    rating: string,
    genre: string,
    runtime: string,
    overview: string)

  datatype Field = Title | ReleaseDate | MovieUrl | Rating | Genre | Runtime | Overview

  const AllFields: set<Field> := {Title, ReleaseDate, MovieUrl, Rating, Genre, Runtime, Overview}

  const EmptyForm := FormData("", "", "", "", "", "", "")

  function Get(d: FormData, f: Field): string {
    match f
    case Title => d.title
    case ReleaseDate => d.releaseDate
    case MovieUrl => d.movieUrl
    case Rating => d.rating
    case Genre => d.genre
    case Runtime => d.runtime
    case Overview => d.overview
  }

  /** `{ ...d, [f]: v }`: only field `f` takes the new value. */
  function With(d: FormData, f: Field, v: string): (r: FormData)
    ensures Get(r, f) == v
    ensures forall g :: g != f ==> Get(r, g) == Get(d, g)
  {
    match f
    case Title => d.(title := v)
    case ReleaseDate => d.(releaseDate := v)
    case MovieUrl => d.(movieUrl := v)
    case Rating => d.(rating := v)
    case Genre => d.(genre := v)
    case Runtime => d.(runtime := v)
    case Overview => d.(overview := v)
  }
}
