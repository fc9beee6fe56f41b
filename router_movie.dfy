/** routers/movie.js: create, read, overwrite and delete movies. A created
    movie embeds a copy of its genre's id and name. */
module MovieRouter {
  import opened Common
  import opened MovieModel
  import opened GenreModel
  import opened Http
  import opened Store

  const InvalidGenre := "Invalid genre"
  const InvalidGenreOnPut := "Invalid Genre"
  const NotFoundOnPut := "Not found"
  const StockMessage := "numberInStock must be a positive integer and maximum of 200"
  const RateMessage := "dailyRentalRate must be positive and maximum of 50"

  /** The messages of the two range validators (`isInt` with `min`/`max`), in
      the order they are declared; an absent counter is not checked. */
  function RangeErrors(stock: Option<int>, rate: Option<int>): (errs: seq<string>)
    ensures errs == [] <==> (stock.Some? ==> StockInRange(stock.value)) && (rate.Some? ==> RateInRange(rate.value))
    ensures StockMessage in errs <==> stock.Some? && !StockInRange(stock.value)
    ensures RateMessage in errs <==> rate.Some? && !RateInRange(rate.value)
    ensures stock.Some? && !StockInRange(stock.value) ==> errs[0] == StockMessage
  {
    (if stock.Some? && !StockInRange(stock.value) then [StockMessage] else [])
    + (if rate.Some? && !RateInRange(rate.value) then [RateMessage] else [])
  }

  /** `numberInStock ? parseInt(numberInStock) : 0`, and the same for the rate:
      a counter that passed its validator, or 0 when it is absent. */
  function Counter(x: Option<int>): int {
    x.GetOr(0)
  }

  /** `GET /:id`. */
  method GetMovie(db: Db, id: RawId) returns (r: Response)
    ensures r.status == 200 <==> id.Oid? && id.id in db.movies
    ensures r.status == 200 ==> r.body == MovieDoc(id.id, db.movies[id.id])
    ensures r.status != 200 ==> r == Response(404, Text(NotFound))
  {
    if !ValidateId(id) {
      return Response(404, Text(NotFound));
    }
    if id.id in db.movies {
      r := Response(200, MovieDoc(id.id, db.movies[id.id]));
    } else {
      r := Response(404, Text(NotFound));
    }
  }

  /** Some stored genre is called `genreName` (`Genre.findOne({ name })`). */
  predicate GenreNamed(genres: map<Id, Genre>, genreName: string) {
    exists g :: g in genres && genres[g].name == Some(genreName)
  }

  /** `POST /`. `fieldErrors` are the messages of the title and genre
      validators; the range validators follow them. `save` runs the schema's
      validators, then the insert meets the unique index. */
  method PostMovie(db: Db, fieldErrors: seq<string>, title: string, genreName: string,
                   stock: Option<int>, rate: Option<int>)
    returns (r: Response)
    requires db.Valid()
    modifies db
    ensures db.Valid()
    ensures db.rentals == old(db.rentals) && db.customers == old(db.customers)
    ensures db.genres == old(db.genres) && db.users == old(db.users)
    ensures fieldErrors + RangeErrors(stock, rate) != [] ==>
      r == Response(422, Messages(fieldErrors + RangeErrors(stock, rate)))
    ensures fieldErrors + RangeErrors(stock, rate) == [] && !GenreNamed(old(db.genres), genreName) ==>
      r == Response(400, Text(InvalidGenre))
    ensures fieldErrors + RangeErrors(stock, rate) == [] && GenreNamed(old(db.genres), genreName) ==>
      && (!(MinTitle <= JsLength(Trim(title)) <= MaxTitle) ==> r == Fail(ValidationError))
      && (MinTitle <= JsLength(Trim(title)) <= MaxTitle ==>
            && (IndexRejects(db.indexes, old(db.movies), None, Some(genreName)) ==> r == Fail(DuplicateKey))
            && (!IndexRejects(db.indexes, old(db.movies), None, Some(genreName)) ==> r.status == 200))
    // without the inherited index, any number of movies share a genre
    ensures db.indexes == GenreNameNotIndexed && fieldErrors + RangeErrors(stock, rate) == [] &&
            GenreNamed(old(db.genres), genreName) && MinTitle <= JsLength(Trim(title)) <= MaxTitle ==>
      r.status == 200
    ensures r.status != 200 ==> db.movies == old(db.movies) && db.nextId == old(db.nextId)
    ensures r.status == 200 ==>
      && fieldErrors + RangeErrors(stock, rate) == []
      && var id := old(db.nextId);
      && id !in old(db.movies)
      && r.body.MovieDoc? && r.body.movieId == id
      && db.movies == old(db.movies)[id := r.body.movie]
      && r.body.movie == Cast(title, r.body.movie.genre, Some(Counter(stock)), Some(Counter(rate)))
      && MovieModel.Admits(r.body.movie)
      // the embedded genre is a copy of the genre found by name
      && r.body.movie.genre.id.Some? && r.body.movie.genre.id.value in old(db.genres)
      && r.body.movie.genre.name == Some(genreName)
      && old(db.genres)[r.body.movie.genre.id.value].name == Some(genreName)
  {
    var errors := fieldErrors + RangeErrors(stock, rate);
    if errors != [] {
      return Response(422, Messages(errors));
    }
    if !GenreNamed(db.genres, genreName) {
      return Response(400, Text(InvalidGenre));
    }
    var gid :| gid in db.genres && db.genres[gid].name == Some(genreName);
    r := SaveCopy(db, title, gid, stock, rate);
  }

  /** The end of `POST /`, once the genre `gid` is found: cast the body with a
      copy of that genre and save it. */
  method SaveCopy(db: Db, title: string, gid: Id, stock: Option<int>, rate: Option<int>) returns (r: Response)
    requires db.Valid() && gid in db.genres
    requires RangeErrors(stock, rate) == []
    modifies db
    ensures db.Valid()
    ensures db.rentals == old(db.rentals) && db.customers == old(db.customers)
    ensures db.genres == old(db.genres) && db.users == old(db.users)
    ensures !(MinTitle <= JsLength(Trim(title)) <= MaxTitle) ==>
      r == Fail(ValidationError) && db.movies == old(db.movies) && db.nextId == old(db.nextId)
    ensures MinTitle <= JsLength(Trim(title)) <= MaxTitle ==>
      var copy := GenreSnapshot(Some(gid), old(db.genres)[gid].name);
      var movie := Cast(title, copy, Some(Counter(stock)), Some(Counter(rate)));
      && MovieModel.Admits(movie)
      && (IndexRejects(db.indexes, old(db.movies), None, copy.name) ==>
            r == Fail(DuplicateKey) && db.movies == old(db.movies) && db.nextId == old(db.nextId))
      && (!IndexRejects(db.indexes, old(db.movies), None, copy.name) ==>
            && old(db.nextId) !in old(db.movies)
            && r == Response(200, MovieDoc(old(db.nextId), movie))
            && db.movies == old(db.movies)[old(db.nextId) := movie])
  {
    db.StoredGenreAdmitted(gid);
    var movie := Cast(title, GenreSnapshot(Some(gid), db.genres[gid].name), Some(Counter(stock)), Some(Counter(rate)));
    r := SaveNew(db, movie);
  }

  /** `movie.save()` of a new movie: the schema's validators, then the insert,
      which the unique index may refuse. */
  method SaveNew(db: Db, movie: Movie) returns (r: Response)
    requires db.Valid()
    modifies db
    ensures db.Valid()
    ensures db.rentals == old(db.rentals) && db.customers == old(db.customers)
    ensures db.genres == old(db.genres) && db.users == old(db.users)
    ensures !MovieModel.Admits(movie) ==>
      r == Fail(ValidationError) && db.movies == old(db.movies) && db.nextId == old(db.nextId)
    ensures MovieModel.Admits(movie) && IndexRejects(db.indexes, old(db.movies), None, movie.genre.name) ==>
      r == Fail(DuplicateKey) && db.movies == old(db.movies) && db.nextId == old(db.nextId)
    ensures MovieModel.Admits(movie) && !IndexRejects(db.indexes, old(db.movies), None, movie.genre.name) ==>
      && old(db.nextId) !in old(db.movies)
      && r == Response(200, MovieDoc(old(db.nextId), movie))
      && db.movies == old(db.movies)[old(db.nextId) := movie]
  {
    if !MovieModel.Admits(movie) {
      return Fail(ValidationError);
    }
    if IndexRejects(db.indexes, db.movies, None, movie.genre.name) {
      return Fail(DuplicateKey);
    }
    var id := db.InsertMovie(movie);
    r := Response(200, MovieDoc(id, movie));
  }

  /** `findByIdAndUpdate(id, { $set: ... })` on a checked id: overwrite the
      whole movie. No schema validator runs, but the unique index does. */
  method Overwrite(db: Db, id: Id, title: string, genre: GenreSnapshot, stock: Option<int>, rate: Option<int>)
    returns (r: Response)
    requires db.Valid()
    requires (stock.Some? ==> StockInRange(stock.value)) && (rate.Some? ==> RateInRange(rate.value))
    modifies db
    ensures db.Valid()
    ensures db.rentals == old(db.rentals) && db.customers == old(db.customers)
    ensures db.genres == old(db.genres) && db.users == old(db.users) && db.nextId == old(db.nextId)
    ensures id !in old(db.movies) ==> r == Response(404, Text(NotFound)) && db.movies == old(db.movies)
    ensures id in old(db.movies) && IndexRejects(db.indexes, old(db.movies), Some(id), genre.name) ==>
      r == Fail(DuplicateKey) && db.movies == old(db.movies)
    ensures id in old(db.movies) && !IndexRejects(db.indexes, old(db.movies), Some(id), genre.name) ==>
      var movie := Cast(title, genre, Some(Counter(stock)), Some(Counter(rate)));
      r == Response(200, MovieDoc(id, movie)) && db.movies == old(db.movies)[id := movie]
  {
    if id !in db.movies {
      return Response(404, Text(NotFound));
    }
    if IndexRejects(db.indexes, db.movies, Some(id), genre.name) {
      return Fail(DuplicateKey);
    }
    var movie := Cast(title, genre, Some(Counter(stock)), Some(Counter(rate)));
    db.ReplaceMovie(id, movie);
    r := Response(200, MovieDoc(id, movie));
  }

  /** `PUT /:id` as written. The genre is looked up with `find`, which yields
      a list, so the `!genre` guard never rejects and the embedded copy takes
      `_id` and `name` from the list, where both are undefined. An absent
      counter is reset to 0, not kept. Under the unique index only one movie
      can hold a genre copy without a name, so a second movie updated this
      way is refused. */
  method PutMovie(db: Db, id: RawId, fieldErrors: seq<string>, title: string, genreName: string,
                  stock: Option<int>, rate: Option<int>)
    returns (r: Response)
    requires db.Valid()
    modifies db
    ensures db.Valid()
    ensures db.rentals == old(db.rentals) && db.customers == old(db.customers)
    ensures db.genres == old(db.genres) && db.users == old(db.users) && db.nextId == old(db.nextId)
    ensures fieldErrors + RangeErrors(stock, rate) != [] ==>
      r == Response(400, Messages(fieldErrors + RangeErrors(stock, rate))) && db.movies == old(db.movies)
    ensures fieldErrors + RangeErrors(stock, rate) == [] && !id.Oid? ==>
      r == Response(404, Text(NotFoundOnPut)) && db.movies == old(db.movies)
    // the outcome does not depend on the genres at all
    ensures fieldErrors + RangeErrors(stock, rate) == [] && id.Oid? ==>
      && (id.id !in old(db.movies) ==> r == Response(404, Text(NotFound)) && db.movies == old(db.movies))
      && (id.id in old(db.movies) && IndexRejects(db.indexes, old(db.movies), Some(id.id), None) ==>
            r == Fail(DuplicateKey) && db.movies == old(db.movies))
      && (id.id in old(db.movies) && !IndexRejects(db.indexes, old(db.movies), Some(id.id), None) ==>
            var movie := Cast(title, GenreSnapshot(None, None), Some(Counter(stock)), Some(Counter(rate)));
            r == Response(200, MovieDoc(id.id, movie)) && db.movies == old(db.movies)[id.id := movie])
  {
    var errors := fieldErrors + RangeErrors(stock, rate);
    if errors != [] {
      return Response(400, Messages(errors));
    }
    if !ValidateId(id) {
      return Response(404, Text(NotFoundOnPut));
    }
    // Genre.find({ name: genreName }) is a list: always truthy, no `_id`, no `name`
    r := Overwrite(db, id.id, title, GenreSnapshot(None, None), stock, rate);
  }

  /** `PUT /:id` as evidently intended: the genre is looked up with `findOne`,
      an unknown genre name is rejected, and the movie embeds a copy of the
      genre found. */
  method PutMovieFindOne(db: Db, id: RawId, fieldErrors: seq<string>, title: string, genreName: string,
                         stock: Option<int>, rate: Option<int>)
    returns (r: Response)
    requires db.Valid()
    modifies db
    ensures db.Valid()
    ensures db.rentals == old(db.rentals) && db.customers == old(db.customers)
    ensures db.genres == old(db.genres) && db.users == old(db.users) && db.nextId == old(db.nextId)
    ensures fieldErrors + RangeErrors(stock, rate) != [] ==>
      r == Response(400, Messages(fieldErrors + RangeErrors(stock, rate))) && db.movies == old(db.movies)
    ensures fieldErrors + RangeErrors(stock, rate) == [] && !id.Oid? ==>
      r == Response(404, Text(NotFoundOnPut)) && db.movies == old(db.movies)
    ensures fieldErrors + RangeErrors(stock, rate) == [] && id.Oid? && !GenreNamed(old(db.genres), genreName) ==>
      r == Response(400, Text(InvalidGenreOnPut)) && db.movies == old(db.movies)
    ensures fieldErrors + RangeErrors(stock, rate) == [] && id.Oid? && GenreNamed(old(db.genres), genreName) ==>
      && (id.id !in old(db.movies) ==> r == Response(404, Text(NotFound)) && db.movies == old(db.movies))
      && (id.id in old(db.movies) && IndexRejects(db.indexes, old(db.movies), Some(id.id), Some(genreName)) ==>
            r == Fail(DuplicateKey) && db.movies == old(db.movies))
      && (id.id in old(db.movies) && !IndexRejects(db.indexes, old(db.movies), Some(id.id), Some(genreName)) ==>
            r.status == 200)
    ensures r.status == 200 ==>
      && id.Oid? && id.id in old(db.movies)
      && r.body.MovieDoc? && r.body.movieId == id.id
      && db.movies == old(db.movies)[id.id := r.body.movie]
      && r.body.movie == Cast(title, r.body.movie.genre, Some(Counter(stock)), Some(Counter(rate)))
      && r.body.movie.genre.id.Some? && r.body.movie.genre.id.value in old(db.genres)
      && old(db.genres)[r.body.movie.genre.id.value].name == Some(genreName)
      && r.body.movie.genre.name == Some(genreName)
  {
    var errors := fieldErrors + RangeErrors(stock, rate);
    if errors != [] {
      return Response(400, Messages(errors));
    }
    if !ValidateId(id) {
      return Response(404, Text(NotFoundOnPut));
    }
    if !GenreNamed(db.genres, genreName) {
      return Response(400, Text(InvalidGenreOnPut));
    }
    var gid :| gid in db.genres && db.genres[gid].name == Some(genreName);
    r := Overwrite(db, id.id, title, GenreSnapshot(Some(gid), db.genres[gid].name), stock, rate);
  }

  /** `DELETE /:id`: the id is not validated first, so a malformed one makes
      `findByIdAndRemove` throw. Rentals of the movie stay as they are. */
  method DeleteMovie(db: Db, id: RawId) returns (r: Response)
    requires db.Valid()
    modifies db
    ensures db.Valid()
    ensures db.rentals == old(db.rentals) && db.customers == old(db.customers)
    ensures db.genres == old(db.genres) && db.users == old(db.users) && db.nextId == old(db.nextId)
    ensures id.Malformed? ==> r == Fail(CastError) && db.movies == old(db.movies)
    ensures (id.Absent? || (id.Oid? && id.id !in old(db.movies))) ==>
      r == Response(404, Text(NotFound)) && db.movies == old(db.movies)
    ensures id.Oid? && id.id in old(db.movies) ==>
      && r == Response(200, MovieDoc(id.id, old(db.movies)[id.id]))
      && db.movies == old(db.movies) - {id.id}
  {
    match FindById(db.movies, id)
    case Uncastable => r := Fail(CastError);
    case NoDoc => r := Response(404, Text(NotFound));
    case Found(k, movie) =>
      db.movies := db.movies - {k};
      r := Response(200, MovieDoc(k, movie));
  }
}
