/** The responses the routers send: a status code and a body. Errors thrown
    inside a handler reach middlewares/error.js, which answers 500. */
module Http {
  import opened Common
  import opened RentalModel
  import opened MovieModel
  import opened CustomerModel
  import opened GenreModel

  /** The text `res.sendStatus(404)` sends. */
  const NotFound := "Not Found"
  /** The text `res.sendStatus(403)` sends. */
  const Forbidden := "Forbidden"

  /** What a handler can throw. */
  datatype Fault =
    | CastError        // a malformed id handed to a Mongoose query
    | ReferenceError   // a `const` read before it is initialised
    | ValidationError  // the schema rejected a document on `save`
    | DuplicateKey     // a write broke a unique index (MongoDB error E11000)

  datatype Body =
    | NoBody
    | Text(text: string)
    | Messages(messages: seq<string>)
    | Thrown(fault: Fault)
    | RentalDoc(rentalId: Id, rental: Rental)
    | RentalList(rentals: map<Id, Rental>)
    | MovieDoc(movieId: Id, movie: Movie)
    | CustomerDoc(customerId: Id, customer: Customer)
    | CustomerWithRentals(customerId: Id, customer: Customer, rentals: map<Id, Rental>)
    | GenreDoc(genreId: Id, genre: Genre)
    | UserView(username: string, email: string, isAdmin: bool)

  datatype Response = Response(status: nat, body: Body)

  /** The answer of the error middleware to a thrown fault. */
  function Fail(f: Fault): Response {
    Response(500, Thrown(f))
  }
}
