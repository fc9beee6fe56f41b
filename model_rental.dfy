/** `RentalSchema`: a rental references a customer and a movie, has a
    `dateOut`, an optional `dateReturned` and a non-negative `rentalFee`, and
    carries `createdAt`/`updatedAt` timestamps. */
module RentalModel {
  import opened Common

  /** A stored rental document. */
  datatype Rental = Rental(
    customer: Id,
    movie: Id,
    dateOut: Time,
    dateReturned: Option<Time>,
    rentalFee: real,
    createdAt: Time,
    updatedAt: Time)

  /** What `new Rental({...})` is given: any field may be missing. */
  datatype RentalFields = RentalFields(
    customer: Option<Id>,
    movie: Option<Id>,
    dateOut: Option<Time>,
    dateReturned: Option<Time>,
    rentalFee: Option<real>)

  /** An open rental: the copy has not come back yet. */
  predicate IsOpen(r: Rental) {
    r.dateReturned.None?
  }

  /** The schema defaults, as written: `default: Date.now()` is evaluated once,
      when the schema is defined at `definedAt`, so every rental created without a
      `dateOut` gets that same instant; `rentalFee` defaults to 0. */
  function WithDefaults(f: RentalFields, definedAt: Time): (d: RentalFields)
    // the defaults make `required` on `dateOut`, and on `rentalFee` once a
    // return is recorded, impossible to violate
    ensures Admits(d) <==>
      f.customer.Some? && f.movie.Some? && (f.rentalFee.Some? ==> f.rentalFee.value >= 0.0)
    ensures d.customer == f.customer && d.movie == f.movie && d.dateReturned == f.dateReturned
  {
    f.(dateOut := Some(f.dateOut.GetOr(definedAt)), rentalFee := Some(f.rentalFee.GetOr(0.0)))
  }

  /** The schema's validators: `customer`, `movie` and `dateOut` are required,
      `rentalFee` is required while `dateReturned` is set and is at least 0. */
  predicate Admits(d: RentalFields) {
    && d.customer.Some?
    && d.movie.Some?
    && d.dateOut.Some?
    && (d.dateReturned.Some? ==> d.rentalFee.Some?)
    && (d.rentalFee.Some? ==> d.rentalFee.value >= 0.0)
  }

  function Build(d: RentalFields, now: Time): Rental
    requires Admits(d)
  {
    Rental(d.customer.value, d.movie.value, d.dateOut.value, d.dateReturned,
           d.rentalFee.GetOr(0.0), now, now)
  }

  /** `new Rental(f).save()` at `now`, as written: defaults, then validation.
      Because both `dateOut` and `rentalFee` have defaults, the document is
      rejected only for a missing reference or a negative fee. */
  function Create(f: RentalFields, definedAt: Time, now: Time): (r: Option<Rental>)
    ensures r.Some? <==>
      f.customer.Some? && f.movie.Some? && (f.rentalFee.Some? ==> f.rentalFee.value >= 0.0)
    ensures r.Some? ==>
      && r.value.customer == f.customer.value && r.value.movie == f.movie.value
      && r.value.dateOut == f.dateOut.GetOr(definedAt)
      && r.value.dateReturned == f.dateReturned
      && r.value.rentalFee == f.rentalFee.GetOr(0.0)
      && r.value.createdAt == now && r.value.updatedAt == now
  {
    var d := WithDefaults(f, definedAt);
    if Admits(d) then Some(Build(d, now)) else None
  }

  /** `new Rental(f).save()` at `now` with the evidently intended default
      (`default: Date.now`): a rental created without a `dateOut` leaves at the
      instant it is created. */
  function CreateIntended(f: RentalFields, now: Time): (r: Option<Rental>)
    ensures r.Some? <==>
      f.customer.Some? && f.movie.Some? && (f.rentalFee.Some? ==> f.rentalFee.value >= 0.0)
    ensures r.Some? ==> r.value.dateOut == f.dateOut.GetOr(now) && r.value.createdAt == now
  {
    var d := WithDefaults(f, now);
    if Admits(d) then Some(Build(d, now)) else None
  }

  /** As written, the default `dateOut` does not depend on when a rental is
      created: two rentals created at different instants without a `dateOut`
      both get the instant the schema was defined. */
  lemma DefaultDateOutIsFrozen(f: RentalFields, definedAt: Time, now1: Time, now2: Time)
    requires f.customer.Some? && f.movie.Some? && f.dateOut.None?
    requires f.rentalFee.Some? ==> f.rentalFee.value >= 0.0
    ensures Create(f, definedAt, now1).Some? && Create(f, definedAt, now2).Some?
    ensures Create(f, definedAt, now1).value.dateOut == definedAt
    ensures Create(f, definedAt, now2).value.dateOut == definedAt
    ensures now1 != definedAt ==> Create(f, definedAt, now1).value.dateOut != CreateIntended(f, now1).value.dateOut
  {
  }

  /** The rental that `POST /rentals` opens: the schema accepts it whatever
      instant the schema was defined, it is open, its fee is the default 0. */
  function Open(customer: Id, movie: Id, dateOut: Time, now: Time): (r: Rental)
    ensures forall definedAt ::
      Create(RentalFields(Some(customer), Some(movie), Some(dateOut), None, None), definedAt, now) == Some(r)
    ensures CreateIntended(RentalFields(Some(customer), Some(movie), Some(dateOut), None, None), now) == Some(r)
    ensures IsOpen(r) && FeeAdmitted(r)
  {
    Rental(customer, movie, dateOut, None, 0.0, now, now)
  }

  /** A stored rental satisfies the schema's fee bound. */
  predicate FeeAdmitted(r: Rental) {
    r.rentalFee >= 0.0
  }

  /** The ids of the open rentals of movie `m`. */
  function OpenRentalsOf(rentals: map<Id, Rental>, m: Id): set<Id> {
    set k | k in rentals && rentals[k].movie == m && IsOpen(rentals[k])
  }

  /** `Rental.find({ customer: c })`: every stored rental of customer `c`. */
  function RentalsOf(rentals: map<Id, Rental>, c: Id): (r: map<Id, Rental>)
    ensures forall k :: k in r <==> k in rentals && rentals[k].customer == c
    ensures forall k :: k in r ==> r[k] == rentals[k]
  {
    map k | k in rentals && rentals[k].customer == c :: rentals[k]
  }

  /** Opening a rental under a fresh id adds exactly that id to its movie's open
      rentals and leaves every other movie's open rentals as they were. */
  lemma {:induction false} OpenRentalsAfterInsert(rentals: map<Id, Rental>, id: Id, r: Rental, m: Id)
    requires id !in rentals && IsOpen(r)
    ensures m == r.movie ==> OpenRentalsOf(rentals[id := r], m) == OpenRentalsOf(rentals, m) + {id}
    ensures m == r.movie ==> |OpenRentalsOf(rentals[id := r], m)| == |OpenRentalsOf(rentals, m)| + 1
    ensures m != r.movie ==> OpenRentalsOf(rentals[id := r], m) == OpenRentalsOf(rentals, m)
  {
    if m == r.movie {
      assert id !in OpenRentalsOf(rentals, m);
    }
  }

  /** Overwriting the open rental `id` by a returned one takes exactly that id
      out of the open rentals of the movie it was for. */
  lemma {:induction false} OpenRentalsAfterClose(rentals: map<Id, Rental>, id: Id, r': Rental)
    requires id in rentals && IsOpen(rentals[id]) && !IsOpen(r')
    ensures OpenRentalsOf(rentals[id := r'], rentals[id].movie) == OpenRentalsOf(rentals, rentals[id].movie) - {id}
    ensures |OpenRentalsOf(rentals[id := r'], rentals[id].movie)| == |OpenRentalsOf(rentals, rentals[id].movie)| - 1
  {
    var m := rentals[id].movie;
    assert id in OpenRentalsOf(rentals, m);
    assert OpenRentalsOf(rentals[id := r'], m) == OpenRentalsOf(rentals, m) - {id};
  }
}
