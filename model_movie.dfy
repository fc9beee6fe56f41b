/** `MovieSchema`: a trimmed title of 3 to 255 characters, a required embedded
    copy of a genre, and a stock count and daily rate with defaults and ranges. */
module MovieModel {
  import opened Common
  import GenreModel

  const MinTitle := 3
  const MaxTitle := 255
  const MaxStock := 200
  const MaxRate := 50

  /** The genre sub-document a movie embeds: a copy of the genre's `_id` and
      `name` taken when the movie is written, not a reference. */
  datatype GenreSnapshot = GenreSnapshot(id: Option<Id>, name: Option<string>)

  /** A stored movie document. */
  datatype Movie = Movie(
    title: string,
    genre: GenreSnapshot,
    numberInStock: int,
    dailyRentalRate: int)

  predicate StockInRange(n: int) {
    0 <= n <= MaxStock
  }

  predicate RateInRange(n: int) {
    0 <= n <= MaxRate
  }

  /** The numeric bounds of the schema (`min`/`max` on both counters). */
  predicate InRanges(m: Movie) {
    StockInRange(m.numberInStock) && RateInRange(m.dailyRentalRate)
  }

  /** The schema's validators on a cast document: the title is required and of
      3 to 255 characters, both counters lie in their ranges, and the embedded
      genre, which is required and always present in a `Movie`, passes
      `GenreSchema`'s own length validators on its name. */
  predicate Admits(m: Movie) {
    MinTitle <= JsLength(m.title) <= MaxTitle && InRanges(m) && GenreModel.NameAdmitted(m.genre.name)
  }

  /** The indexes of the movies collection. `GenreSchema`, embedded as
      `genre`, declares `name` unique, and Mongoose builds that index on the
      parent too: `genre.name` is unique across movies. The schema option
      `excludeIndexes` would leave it out. */
  datatype MovieIndexes = GenreNameIndexed | GenreNameNotIndexed

  /** Writing a movie whose embedded genre name is `name`, as the document `id`
      (`None` for a new one), breaks the unique index: another movie holds
      the same name. A missing name is indexed as `null`, one value too. */
  predicate IndexRejects(indexes: MovieIndexes, movies: map<Id, Movie>, id: Option<Id>, name: Option<string>) {
    indexes == GenreNameIndexed && exists k :: k in movies && Some(k) != id && movies[k].genre.name == name
  }

  /** As written, once one movie of a genre is stored, writing any other movie
      of that genre breaks the index; without the index nothing is refused. */
  lemma SecondMovieOfAGenreIsRefused(movies: map<Id, Movie>, k: Id, id: Option<Id>, name: Option<string>)
    requires k in movies && movies[k].genre.name == name && Some(k) != id
    ensures IndexRejects(GenreNameIndexed, movies, id, name)
    ensures !IndexRejects(GenreNameNotIndexed, movies, id, name)
  {
  }

  /** What the unique index keeps: no two movies embed the same genre name. */
  ghost predicate GenreNamesUnique(movies: map<Id, Movie>) {
    forall a, b :: a in movies && b in movies && movies[a].genre.name == movies[b].genre.name ==> a == b
  }

  /** Casting `{ title, genre, numberInStock, dailyRentalRate }` into the schema:
      the title is trimmed and a missing counter gets its default 0. */
  function Cast(title: string, genre: GenreSnapshot, stock: Option<int>, rate: Option<int>): (m: Movie)
    ensures m.title == Trim(title)
    ensures IsTrimmed(m.title) && |m.title| <= |title|
    ensures IsTrimmed(title) ==> m.title == title
    ensures m.genre == genre
    ensures m.numberInStock == (if stock.Some? then stock.value else 0)
    ensures m.dailyRentalRate == (if rate.Some? then rate.value else 0)
  {
    var t := Trim(title);
    assert IsTrimmed(title) ==> t == title by {
      if IsTrimmed(title) {
        TrimOfTrimmed(title);
      }
    }
    Movie(t, genre, stock.GetOr(0), rate.GetOr(0))
  }

  /** A movie stored with only its defaults has no copies and costs nothing,
      and the schema accepts it once its title and its genre's name are of an
      accepted length. */
  lemma DefaultsAreAdmitted(title: string, genre: GenreSnapshot)
    requires MinTitle <= JsLength(Trim(title)) <= MaxTitle
    requires GenreModel.NameAdmitted(genre.name)
    ensures Cast(title, genre, None, None).numberInStock == 0
    ensures Cast(title, genre, None, None).dailyRentalRate == 0
    ensures Admits(Cast(title, genre, None, None))
  {
  }
}
