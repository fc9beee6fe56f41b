/** routers/customer.js: customers with a username and an email that no other
    customer uses, and the read of a customer together with its rentals. */
module CustomerRouter {
  import opened Common
  import opened RentalModel
  import opened CustomerModel
  import opened Http
  import opened Store

  const AlreadyExists := "username or email already exists!"
  const NotFoundOnPut := "Not found"

  /** `Customer.find().or([{ username }, { email }])` is not empty: some stored
      customer has the supplied username or the supplied email. An absent value
      matches no customer, since every stored customer has both fields. */
  predicate Taken(customers: map<Id, Customer>, username: Option<string>, email: Option<string>) {
    exists k :: k in customers && (Some(customers[k].username) == username || Some(customers[k].email) == email)
  }

  /** `GET /:id`: the customer with all of its rentals. The id is not validated
      first, so a malformed one makes `findById` throw. */
  method GetCustomer(db: Db, id: RawId) returns (r: Response)
    ensures id.Malformed? ==> r == Fail(CastError)
    ensures (id.Absent? || (id.Oid? && id.id !in db.customers)) ==> r == Response(404, Text(NotFound))
    ensures r.status == 200 <==> id.Oid? && id.id in db.customers
    ensures r.status == 200 ==>
      && r.body.CustomerWithRentals?
      && r.body.customerId == id.id && r.body.customer == db.customers[id.id]
      && (forall k :: k in r.body.rentals <==> k in db.rentals && db.rentals[k].customer == id.id)
      && (forall k :: k in r.body.rentals ==> r.body.rentals[k] == db.rentals[k])
  {
    match FindById(db.customers, id)
    case Uncastable => r := Fail(CastError);
    case NoDoc => r := Response(404, Text(NotFound));
    case Found(k, customer) =>
      r := Response(200, CustomerWithRentals(k, customer, RentalsOf(db.rentals, k)));
  }

  /** `POST /`. `errors` are the messages of the request validators. */
  method PostCustomer(db: Db, errors: seq<string>, username: Option<string>, email: Option<string>,
                      phone: Option<string>, isGold: Option<bool>)
    returns (r: Response)
    requires db.Valid()
    modifies db
    ensures db.Valid()
    ensures db.rentals == old(db.rentals) && db.movies == old(db.movies)
    ensures db.genres == old(db.genres) && db.users == old(db.users)
    ensures errors != [] ==> r == Response(400, Text(errors[0]))
    ensures errors == [] && Taken(old(db.customers), username, email) ==> r == Response(400, Text(AlreadyExists))
    ensures errors == [] && !Taken(old(db.customers), username, email) && CustomerModel.Create(username, email, phone, isGold).None? ==>
      r == Fail(ValidationError)
    ensures r.status == 201 <==>
      errors == [] && !Taken(old(db.customers), username, email) && CustomerModel.Create(username, email, phone, isGold).Some?
    ensures r.status != 201 ==> db.customers == old(db.customers) && db.nextId == old(db.nextId)
    // exactly username, email, phone and isGold are stored
    ensures r.status == 201 ==>
      var id := old(db.nextId);
      var c := Customer(username.value, phone, email.value, isGold.Some? && isGold.value);
      && id !in old(db.customers)
      && db.customers == old(db.customers)[id := c]
      && r.body == CustomerDoc(id, c)
  {
    if errors != [] {
      return Response(400, Text(errors[0]));
    }
    if Taken(db.customers, username, email) {
      return Response(400, Text(AlreadyExists));
    }
    var created := CustomerModel.Create(username, email, phone, isGold);
    if created.None? {
      return Fail(ValidationError);
    }
    var id := db.InsertCustomer(created.value);
    r := Response(201, CustomerDoc(id, created.value));
  }

  /** `PUT /:id`. The uniqueness query runs before the id is checked and also
      matches the customer being updated. A field is replaced only by a truthy
      value; otherwise the stored one stays (Mongoose drops the `undefined`
      that `customer.username` and the like evaluate to, because `customer` is
      then the empty query result). */
  method PutCustomer(db: Db, id: RawId, errors: seq<string>, username: Option<string>, email: Option<string>,
                     phone: Option<string>, isGold: Option<bool>)
    returns (r: Response)
    requires db.Valid()
    modifies db
    ensures db.Valid()
    ensures db.rentals == old(db.rentals) && db.movies == old(db.movies)
    ensures db.genres == old(db.genres) && db.users == old(db.users) && db.nextId == old(db.nextId)
    ensures errors != [] ==> r == Response(400, Text(errors[0]))
    ensures errors == [] && Taken(old(db.customers), username, email) ==> r == Response(400, Text(AlreadyExists))
    ensures errors == [] && !Taken(old(db.customers), username, email) && !id.Oid? ==> r == Response(404, Text(NotFound))
    ensures errors == [] && !Taken(old(db.customers), username, email) && id.Oid? && id.id !in old(db.customers) ==>
      r == Response(404, Text(NotFoundOnPut))
    ensures r.status == 201 <==>
      errors == [] && !Taken(old(db.customers), username, email) && id.Oid? && id.id in old(db.customers)
    ensures r.status != 201 ==> db.customers == old(db.customers)
    ensures r.status == 201 ==>
      var was := old(db.customers)[id.id];
      var c := Customer(Or(username, was.username), if Truthy(phone) then phone else was.phone,
                        Or(email, was.email), if isGold.Some? then isGold.value else was.isGold);
      db.customers == old(db.customers)[id.id := c] && r.body == CustomerDoc(id.id, c)
  {
    if errors != [] {
      return Response(400, Text(errors[0]));
    }
    if Taken(db.customers, username, email) {
      return Response(400, Text(AlreadyExists));
    }
    if !ValidateId(id) {
      return Response(404, Text(NotFound));
    }
    if id.id !in db.customers {
      return Response(404, Text(NotFoundOnPut));
    }
    var was := db.customers[id.id];
    var c := Customer(Or(username, was.username), if Truthy(phone) then phone else was.phone,
                      Or(email, was.email), if isGold.Some? then isGold.value else was.isGold);
    db.ReplaceCustomer(id.id, c);
    r := Response(201, CustomerDoc(id.id, c));
  }

  /** `DELETE /:id`: the customer's rentals stay, still referring to it. */
  method DeleteCustomer(db: Db, id: RawId) returns (r: Response)
    requires db.Valid()
    modifies db
    ensures db.Valid()
    ensures db.rentals == old(db.rentals) && db.movies == old(db.movies)
    ensures db.genres == old(db.genres) && db.users == old(db.users) && db.nextId == old(db.nextId)
    ensures !(id.Oid? && id.id in old(db.customers)) ==> r == Response(404, Text(NotFound)) && db.customers == old(db.customers)
    ensures id.Oid? && id.id in old(db.customers) ==>
      r == Response(204, NoBody) && db.customers == old(db.customers) - {id.id}
  {
    if !ValidateId(id) {
      return Response(404, Text(NotFound));
    }
    if id.id !in db.customers {
      return Response(404, Text(NotFound));
    }
    db.customers := db.customers - {id.id};
    r := Response(204, NoBody);
  }
}
