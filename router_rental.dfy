/** routers/rental.js: the rental ledger. Opening a rental checks that the
    movie and the customer exist and that the movie is in stock, then inserts
    the rental and takes one copy out of stock in a single transaction. */
module RentalRouter {
  import opened Common
  import opened RentalModel
  import opened MovieModel
  import opened CustomerModel
  import opened Http
  import opened Store

  const MovieNotFound := "Movie not found"
  const CustomerNotFound := "Customer not found"
  const NotInStock := "Movie not in stock"
  const CreateFailed := "Error creating rental"

  /** Which write of the creation transaction throws, if any. */
  datatype TxFault = NoFault | RentalSaveThrows | MovieSaveThrows

  /** The checks `POST /` and `PUT /:id` run before writing, in this order:
      the movie must exist, then the customer, then the movie must be in stock.
      `Err` carries the response, `Ok` the movie's id. */
  function CheckRefs(movies: map<Id, Movie>, customers: map<Id, Customer>, movieId: RawId, customerId: RawId)
    : (r: Result<Id, Response>)
    ensures r.Ok? <==>
      && movieId.Oid? && movieId.id in movies
      && customerId.Oid? && customerId.id in customers
      && movies[movieId.id].numberInStock != 0
    ensures r.Ok? ==> r.value == movieId.id
    ensures movieId.Malformed? ==> r == Err(Fail(CastError))
    ensures (movieId.Absent? || (movieId.Oid? && movieId.id !in movies)) ==>
      r == Err(Response(404, Text(MovieNotFound)))
    ensures movieId.Oid? && movieId.id in movies ==>
      && (customerId.Malformed? ==> r == Err(Fail(CastError)))
      && ((customerId.Absent? || (customerId.Oid? && customerId.id !in customers)) ==>
            r == Err(Response(404, Text(CustomerNotFound))))
      && (customerId.Oid? && customerId.id in customers && movies[movieId.id].numberInStock == 0 ==>
            r == Err(Response(400, Text(NotInStock))))
  {
    match FindById(movies, movieId)
    case Uncastable => Err(Fail(CastError))
    case NoDoc => Err(Response(404, Text(MovieNotFound)))
    case Found(m, movie) =>
      match FindById(customers, customerId)
      case Uncastable => Err(Fail(CastError))
      case NoDoc => Err(Response(404, Text(CustomerNotFound)))
      case Found(_, _) =>
        if movie.numberInStock == 0 then Err(Response(400, Text(NotInStock))) else Ok(m)
  }

  /** `GET /`: every stored rental (the sort by `dateOut` is not modelled). */
  method ListRentals(db: Db) returns (r: Response)
    ensures r.status == 200 && r.body.RentalList?
    ensures forall k :: k in r.body.rentals <==> k in db.rentals
    ensures forall k :: k in r.body.rentals ==> r.body.rentals[k] == db.rentals[k]
  {
    r := Response(200, RentalList(db.rentals));
  }

  /** `POST /`: open a rental of `movieId` for `customerId`. `errors` are the
      messages of the request validators, `now` is `Date.now()`. */
  method PostRental(db: Db, errors: seq<string>, customerId: RawId, movieId: RawId,
                    dateOut: Option<Time>, now: Time, fault: TxFault)
    returns (r: Response)
    requires db.Valid()
    modifies db
    ensures db.Valid()
    ensures errors != [] ==> r == Response(422, Text(errors[0]))
    ensures errors == [] && CheckRefs(old(db.movies), old(db.customers), movieId, customerId).Err? ==>
      r == CheckRefs(old(db.movies), old(db.customers), movieId, customerId).error
    // a throwing save, or a movie whose decremented document the schema rejects, aborts the transaction
    ensures errors == [] && CheckRefs(old(db.movies), old(db.customers), movieId, customerId).Ok? &&
            (fault != NoFault || !MovieModel.Admits(TakeOne(old(db.movies)[movieId.id]))) ==>
      r == Response(500, Text(CreateFailed))
    ensures r.status == 201 <==>
      && errors == [] && CheckRefs(old(db.movies), old(db.customers), movieId, customerId).Ok? && fault == NoFault
      && MovieModel.Admits(TakeOne(old(db.movies)[movieId.id]))
    // a movie document the schema accepts can be rented while it is in stock
    ensures errors == [] && CheckRefs(old(db.movies), old(db.customers), movieId, customerId).Ok? && fault == NoFault &&
            MovieModel.Admits(old(db.movies)[movieId.id]) ==>
      r.status == 201
    // any rejection, and an aborted transaction, leave the store as it was
    ensures r.status != 201 ==> unchanged(db)
    // a commit adds exactly one open rental and takes exactly one copy out of stock
    ensures r.status == 201 ==>
      var id, m := old(db.nextId), movieId.id;
      var rental := Open(customerId.id, m, dateOut.GetOr(now), now);
      && r.body == RentalDoc(id, rental)
      && id !in old(db.rentals)
      && db.rentals == old(db.rentals)[id := rental]
      && |db.rentals| == |old(db.rentals)| + 1
      && db.movies == old(db.movies)[m := old(db.movies)[m].(numberInStock := old(db.movies)[m].numberInStock - 1)]
      && db.customers == old(db.customers) && db.genres == old(db.genres) && db.users == old(db.users)
    ensures forall m :: m in db.movies ==> db.movies[m].numberInStock >= 0
    // copies in stock plus copies out on open rentals is the same for every movie
    ensures forall m :: m in old(db.movies) ==>
      m in db.movies && Ledger(db.movies, db.rentals, m) == Ledger(old(db.movies), old(db.rentals), m)
  {
    if errors != [] {
      return Response(422, Text(errors[0]));
    }
    var check := CheckRefs(db.movies, db.customers, movieId, customerId);
    if check.Err? {
      return check.error;
    }
    var rental := Open(customerId.id, check.value, dateOut.GetOr(now), now);
    assert rental.movie == movieId.id;
    r := Transact(db, rental, fault);
  }

  /** `movie.numberInStock--`: the movie document with one copy fewer. On a
      movie in stock whose count is within the schema's range, `movie.save()`
      accepts it exactly when the stored document passes the schema. */
  function TakeOne(movie: Movie): (r: Movie)
    ensures r.numberInStock == movie.numberInStock - 1
    ensures r.title == movie.title && r.genre == movie.genre && r.dailyRentalRate == movie.dailyRentalRate
    ensures movie.numberInStock > 0 && MovieModel.Admits(movie) ==> MovieModel.Admits(r)
    ensures movie.numberInStock <= MaxStock && MovieModel.Admits(r) ==> MovieModel.Admits(movie)
  {
    movie.(numberInStock := movie.numberInStock - 1)
  }

  /** The creation transaction for a rental opened on a movie in stock. Inside
      the session the writes stay invisible; a failing `rental.save()` or
      `movie.save()` aborts both, and `commitTransaction` makes both visible
      together: the rental is added under a fresh id, one copy leaves stock,
      and every movie keeps its ledger. `movie.save()` runs the movie schema's
      validators on the whole document, so a movie stored by an update that
      ran none (a title too long once escaped, say) can never be rented. */
  method Transact(db: Db, rental: Rental, fault: TxFault) returns (r: Response)
    requires db.Valid() && IsOpen(rental)
    requires rental.movie in db.movies && db.movies[rental.movie].numberInStock > 0
    modifies db
    ensures db.Valid()
    ensures fault != NoFault || !MovieModel.Admits(TakeOne(old(db.movies)[rental.movie])) ==>
      r == Response(500, Text(CreateFailed)) && unchanged(db)
    ensures fault == NoFault && MovieModel.Admits(old(db.movies)[rental.movie]) ==> r.status == 201
    ensures fault == NoFault && MovieModel.Admits(TakeOne(old(db.movies)[rental.movie])) ==>
      var id, m := old(db.nextId), rental.movie;
      && r == Response(201, RentalDoc(id, rental))
      && id !in old(db.rentals)
      && db.rentals == old(db.rentals)[id := rental] && |db.rentals| == |old(db.rentals)| + 1
      && db.movies == old(db.movies)[m := old(db.movies)[m].(numberInStock := old(db.movies)[m].numberInStock - 1)]
      && db.customers == old(db.customers) && db.genres == old(db.genres) && db.users == old(db.users)
    ensures forall m :: m in db.movies ==> db.movies[m].numberInStock >= 0
    ensures forall m :: m in old(db.movies) ==>
      m in db.movies && Ledger(db.movies, db.rentals, m) == Ledger(old(db.movies), old(db.rentals), m)
  {
    if fault != NoFault {
      // `rental.save()` or the `movie.save()` of the decremented stock
      // rejected: abortTransaction drops every staged write
      return Response(500, Text(CreateFailed));
    }
    if !MovieModel.Admits(TakeOne(db.movies[rental.movie])) {
      // `movie.save()` of the decremented document fails validation: abort
      return Response(500, Text(CreateFailed));
    }
    var id := db.CommitRental(rental);
    LedgerAfterOpen(old(db.movies), old(db.rentals), rental.movie, id, rental);
    r := Response(201, RentalDoc(id, rental));
  }

  /** Copies in stock plus copies out on open rentals, for movie `m`. */
  function Ledger(movies: map<Id, Movie>, rentals: map<Id, Rental>, m: Id): int
    requires m in movies
  {
    movies[m].numberInStock + |OpenRentalsOf(rentals, m)|
  }

  /** Taking one copy of `m` out of stock while opening a rental of `m` under a
      fresh id keeps the ledger of every movie. */
  lemma {:induction false} LedgerAfterOpen(movies: map<Id, Movie>, rentals: map<Id, Rental>, m: Id, id: Id, rental: Rental)
    requires m in movies && id !in rentals && IsOpen(rental) && rental.movie == m
    ensures var movies' := movies[m := movies[m].(numberInStock := movies[m].numberInStock - 1)];
      forall m' :: m' in movies ==> m' in movies' && Ledger(movies', rentals[id := rental], m') == Ledger(movies, rentals, m')
  {
    forall m' | m' in movies
      ensures |OpenRentalsOf(rentals[id := rental], m')| == |OpenRentalsOf(rentals, m')| + (if m' == m then 1 else 0)
    {
      OpenRentalsAfterInsert(rentals, id, rental, m');
    }
  }

  /** `GET /:id`. */
  method GetRental(db: Db, id: RawId) returns (r: Response)
    ensures r.status == 200 <==> id.Oid? && id.id in db.rentals
    ensures r.status == 200 ==> r.body == RentalDoc(id.id, db.rentals[id.id])
    ensures r.status != 200 ==> r == Response(404, Text(NotFound))
  {
    if !ValidateId(id) {
      return Response(404, Text(NotFound));
    }
    if id.id in db.rentals {
      r := Response(200, RentalDoc(id.id, db.rentals[id.id]));
    } else {
      r := Response(404, Text(NotFound));
    }
  }

  /** When `PUT /:id` as written gets as far as `findByIdAndUpdate` and that
      finds the stored rental: no validator error, both references resolve,
      the movie is in stock, `$set` can be built, and the id is stored. */
  predicate AmendReached(movies: map<Id, Movie>, customers: map<Id, Customer>, rentals: map<Id, Rental>,
                         errors: seq<string>, id: RawId, customerId: RawId, movieId: RawId,
                         dateReturned: Option<Time>, rentalFee: Option<real>)
  {
    && errors == [] && CheckRefs(movies, customers, movieId, customerId).Ok?
    && dateReturned.Some? && TruthyNumber(rentalFee)
    && id.Oid? && id.id in rentals
  }

  /** `PUT /:id` as written. Both references must resolve and the movie must be
      in stock, although the validators mark them optional. The `$set` object
      reads `rental.dateReturned` and `rental.rentalFee` while `rental` is still
      being declared, so a request lacking a truthy `dateReturned` or
      `rentalFee` throws. `findByIdAndUpdate` writes without running the
      schema's validators; the following `rental.save()` validates every path of
      the written document, so a negative fee answers 500 after it has been
      stored. No stock count is touched, even when the rental moves to another
      movie. */
  method PutRental(db: Db, id: RawId, errors: seq<string>, customerId: RawId, movieId: RawId,
                   dateOut: Option<Time>, dateReturned: Option<Time>, rentalFee: Option<real>, now: Time)
    returns (r: Response)
    requires db.Valid()
    modifies db
    ensures db.Valid()
    ensures db.movies == old(db.movies) && db.customers == old(db.customers)
    ensures db.genres == old(db.genres) && db.users == old(db.users) && db.nextId == old(db.nextId)
    ensures errors != [] ==> r == Response(422, Text(errors[0]))
    ensures errors == [] && CheckRefs(old(db.movies), old(db.customers), movieId, customerId).Err? ==>
      r == CheckRefs(old(db.movies), old(db.customers), movieId, customerId).error
    ensures errors == [] && CheckRefs(old(db.movies), old(db.customers), movieId, customerId).Ok? ==>
      && (!(dateReturned.Some? && TruthyNumber(rentalFee)) ==> r == Fail(ReferenceError))
      && (dateReturned.Some? && TruthyNumber(rentalFee) && id.Malformed? ==> r == Fail(CastError))
      && (dateReturned.Some? && TruthyNumber(rentalFee) && !(id.Oid? && id.id in old(db.rentals)) && !id.Malformed? ==>
            r == Response(404, Text(NotFound)))
    ensures r.status == 201 <==>
      AmendReached(old(db.movies), old(db.customers), old(db.rentals), errors, id, customerId, movieId,
                   dateReturned, rentalFee)
      && rentalFee.value >= 0.0
    ensures !AmendReached(old(db.movies), old(db.customers), old(db.rentals), errors, id, customerId, movieId,
                          dateReturned, rentalFee) ==>
      unchanged(db)
    // the update is written whatever `save()` then decides
    ensures AmendReached(old(db.movies), old(db.customers), old(db.rentals), errors, id, customerId, movieId,
                         dateReturned, rentalFee) ==>
      var k := id.id;
      var updated := Rental(customerId.id, movieId.id, dateOut.GetOr(now), dateReturned, rentalFee.value,
                            old(db.rentals)[k].createdAt, now);
      && db.rentals == old(db.rentals)[k := updated]
      && (rentalFee.value >= 0.0 ==> r == Response(201, RentalDoc(k, updated)))
      && (rentalFee.value < 0.0 ==> r == Fail(ValidationError) && !FeeAdmitted(db.rentals[k]))
    // the update always records a return, yet no copy goes back to stock: the
    // ledger of the movie an open rental was for loses one copy
    ensures AmendReached(old(db.movies), old(db.customers), old(db.rentals), errors, id, customerId, movieId,
                         dateReturned, rentalFee)
            && IsOpen(old(db.rentals)[id.id]) && old(db.rentals)[id.id].movie in old(db.movies) ==>
      var m := old(db.rentals)[id.id].movie;
      Ledger(db.movies, db.rentals, m) == Ledger(old(db.movies), old(db.rentals), m) - 1
  {
    if errors != [] {
      return Response(422, Text(errors[0]));
    }
    var check := CheckRefs(db.movies, db.customers, movieId, customerId);
    if check.Err? {
      return check.error;
    }
    // Building `$set`: `customerId || rental.customer` and `movieId || rental.movie`
    // never read `rental`, since both ids resolved; the next two fields do when
    // their value is falsy.
    if dateReturned.None? || !TruthyNumber(rentalFee) {
      return Fail(ReferenceError);
    }
    match FindById(db.rentals, id)
    case Uncastable => r := Fail(CastError);
    case NoDoc => r := Response(404, Text(NotFound));
    case Found(k, was) =>
      var updated := Rental(customerId.id, movieId.id, dateOut.GetOr(now), dateReturned, rentalFee.value,
                            was.createdAt, now);
      if IsOpen(was) {
        OpenRentalsAfterClose(db.rentals, k, updated);
      }
      db.rentals := db.rentals[k := updated];
      if FeeAdmitted(updated) {
        r := Response(201, RentalDoc(k, updated));
      } else {
        r := Fail(ValidationError);
      }
  }

  /** `PUT /:id` as evidently intended: an absent `dateReturned` or
      `rentalFee` keeps the stored value instead of throwing, and the update
      runs the schema's validators (`runValidators`), so an amended rental
      with a negative fee is refused before anything is written. */
  method PutRentalMerged(db: Db, id: RawId, errors: seq<string>, customerId: RawId, movieId: RawId,
                         dateOut: Option<Time>, dateReturned: Option<Time>, rentalFee: Option<real>, now: Time)
    returns (r: Response)
    requires db.Valid()
    modifies db
    ensures db.Valid()
    ensures db.movies == old(db.movies) && db.customers == old(db.customers)
    ensures db.genres == old(db.genres) && db.users == old(db.users) && db.nextId == old(db.nextId)
    ensures errors != [] ==> r == Response(422, Text(errors[0]))
    ensures errors == [] && CheckRefs(old(db.movies), old(db.customers), movieId, customerId).Err? ==>
      r == CheckRefs(old(db.movies), old(db.customers), movieId, customerId).error
    ensures errors == [] && CheckRefs(old(db.movies), old(db.customers), movieId, customerId).Ok? ==>
      && (id.Malformed? ==> r == Fail(CastError))
      && (id.Absent? || (id.Oid? && id.id !in old(db.rentals)) ==> r == Response(404, Text(NotFound)))
    ensures r.status == 201 <==>
      && errors == [] && CheckRefs(old(db.movies), old(db.customers), movieId, customerId).Ok?
      && id.Oid? && id.id in old(db.rentals)
      && (if TruthyNumber(rentalFee) then rentalFee.value else old(db.rentals)[id.id].rentalFee) >= 0.0
    ensures r.status != 201 ==> unchanged(db)
    // a refused amendment is the validators' answer
    ensures (errors == [] && CheckRefs(old(db.movies), old(db.customers), movieId, customerId).Ok?
             && id.Oid? && id.id in old(db.rentals) && r.status != 201) ==>
      r == Fail(ValidationError)
    // so the schema's fee bound, once it holds of every stored rental, keeps holding
    ensures (forall k :: k in old(db.rentals) ==> FeeAdmitted(old(db.rentals)[k])) ==>
      forall k :: k in db.rentals ==> FeeAdmitted(db.rentals[k])
    ensures r.status == 201 ==>
      var k := id.id;
      var was := old(db.rentals)[k];
      && k in db.rentals
      && r.body == RentalDoc(k, db.rentals[k])
      && db.rentals == old(db.rentals)[k := db.rentals[k]]
      && db.rentals[k].customer == customerId.id && db.rentals[k].movie == movieId.id
      && db.rentals[k].dateOut == dateOut.GetOr(now)
      && db.rentals[k].dateReturned == (if dateReturned.Some? then dateReturned else was.dateReturned)
      && db.rentals[k].rentalFee == (if TruthyNumber(rentalFee) then rentalFee.value else was.rentalFee)
      && db.rentals[k].createdAt == was.createdAt && db.rentals[k].updatedAt == now
  {
    if errors != [] {
      return Response(422, Text(errors[0]));
    }
    var check := CheckRefs(db.movies, db.customers, movieId, customerId);
    if check.Err? {
      return check.error;
    }
    match FindById(db.rentals, id)
    case Uncastable => r := Fail(CastError);
    case NoDoc => r := Response(404, Text(NotFound));
    case Found(k, was) =>
      var updated := Rental(
        customerId.id, movieId.id, dateOut.GetOr(now),
        if dateReturned.Some? then dateReturned else was.dateReturned,
        if TruthyNumber(rentalFee) then rentalFee.value else was.rentalFee,
        was.createdAt, now);
      if FeeAdmitted(updated) {
        db.rentals := db.rentals[k := updated];
        r := Response(201, RentalDoc(k, updated));
      } else {
        r := Fail(ValidationError);
      }
  }

  /** The DELETE handler for a given `req.params.id`, as it would run on the
      route `/:id`: it removes that rental and gives no copy back to stock. */
  method DeleteRentalById(db: Db, id: RawId) returns (r: Response)
    requires db.Valid()
    modifies db
    ensures db.Valid()
    ensures db.movies == old(db.movies) && db.customers == old(db.customers)
    ensures db.genres == old(db.genres) && db.users == old(db.users) && db.nextId == old(db.nextId)
    ensures !(id.Oid? && id.id in old(db.rentals)) ==> r == Response(404, Text(NotFound)) && unchanged(db)
    ensures id.Oid? && id.id in old(db.rentals) ==>
      r == Response(204, NoBody) && db.rentals == old(db.rentals) - {id.id}
  {
    if !ValidateId(id) {
      return Response(404, Text(NotFound));
    }
    if id.id in db.rentals {
      db.rentals := db.rentals - {id.id};
      r := Response(204, NoBody);
    } else {
      r := Response(404, Text(NotFound));
    }
  }

  /** `DELETE /` as written: the route has no `:id`, so `req.params.id` is
      always missing and every request is answered 404 with nothing removed. */
  method DeleteRental(db: Db) returns (r: Response)
    requires db.Valid()
    modifies db
    ensures db.Valid()
    ensures r == Response(404, Text(NotFound)) && unchanged(db)
  {
    r := DeleteRentalById(db, Absent);
  }
}
