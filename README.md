# Movie-rental API: a Dafny model of its route handlers and schemas

This is a model of the route handlers and Mongoose schemas of an Express
movie-rental API. The API serves customers, genres, movies, rentals and user
accounts. MongoDB is modelled as one object, `Store.Db`, which holds a map
from id to document for each collection plus a counter for fresh ids. Each
handler is a method on that store. It runs its checks in the order the source
runs them, updates the maps, and returns a `Response(status, body)`.

The centre of the model is the rental ledger (`RentalRouter`). Opening a
rental checks three things in order: the movie exists, the customer exists,
and the movie is in stock. It then stores the rental and takes one copy out
of stock in a single atomic step. When either save fails, that step leaves
the store exactly as it was. The proofs show the following:

- stock never becomes negative;
- a rejected or aborted request changes nothing;
- a successful one adds exactly one open rental and removes exactly one copy;
- for every movie, copies in stock plus copies out on open rentals (`Ledger`) is the same before and after.

Amending a rental as written always records a return but gives no copy back.
The model proves that this costs the movie one copy in its ledger.

The other routers are modelled as map operations:

- uniqueness checks on genre names, customer usernames and emails, and user usernames and emails;
- the order-sensitive 400/403/404/422/500 outcomes;
- defaults, and "keep the old value unless a truthy one is supplied" merges;
- the copy of a genre's id and name that a movie embeds.

A store invariant, `Db.Valid()`, is kept by every handler. It says:

- ids are fresh;
- every movie's counters lie in the schema's ranges;
- no two movies embed the same genre name, when the movies collection carries the unique index it inherits from the embedded genre schema;
- every stored genre passes the genre schema's length rules;
- genre names are unique;
- customer usernames and emails are unique;
- user usernames and emails are unique.

Inputs the handlers depend on but do not compute are parameters:

- the messages of the express-validator chains (`errors`);
- the clock (`now` for `Date.now()`);
- the id of the authenticated user;
- whether a save inside the rental transaction throws (`TxFault`).

Request ids are `RawId` values: absent, malformed, or a well-formed ObjectId.
`validateId` (`mongoose.isValidObjectId`) accepts exactly the last kind. A
Mongoose query on a malformed id throws a CastError, which the error
middleware turns into a 500.

The string trimming the movie schema applies (`trim: true`) is modelled with
the whitespace set of `String.prototype.trim`. The model proves that trimming
is idempotent. The schemas' `minLength`/`maxLength` compare JavaScript
lengths, so lengths are counted in UTF-16 code units (`JsLength`), not in
characters.

The store is built with the indexes of its movies collection (`MovieIndexes`).
As written, `GenreSchema` declares its `name` unique, and the movie schema
embeds it. Mongoose then builds a unique index on `genre.name` in the movies
collection, so a write that gives a second movie an already used genre name
(or a second movie a missing one) fails with a duplicate-key error and a 500.
A store built without that index shows the evidently intended behaviour.

The model follows the code, even where a consistent rental ledger would do otherwise:

- an amended rental rebalances no stock;
- a deleted rental restores no stock;
- the rental DELETE route is mounted at `/`.

The modules are:

- `Common`: ids, time, Option/Result, `findById`, truthiness, trim.
- One module per schema: `RentalModel`, `MovieModel`, `CustomerModel`, `GenreModel`, `UserModel`.
- `Http`: the response type.
- `Store`: the database object.
- One module per router: `RentalRouter`, `MovieRouter`, `CustomerRouter`, `GenreRouter`, `UserRouter`.

## Model

| member | source | states |
|---|---|---|
| Common.FindById | routers/customer.js:15-16 | a malformed id throws a CastError; a missing id or an unknown ObjectId finds nothing; a known ObjectId finds exactly the stored document |
| Common.TrimStart | models/movie.js:7 | the result is a suffix of the input that does not start with a space, and everything dropped is space |
| Common.TrimEnd | models/movie.js:7 | the result is a prefix of the input that does not end with a space, and everything dropped is space |
| Common.Trim | models/movie.js:7 | the result starts and ends with no space and is no longer than the input |
| Common.TrimIsSlice | models/movie.js:7 | the trimmed string is the slice of the input outside of which there is only space, and it is empty exactly when the input is all space |
| Common.JsLength | models/genre.js:7-8 | the length the schemas' `minLength`/`maxLength` compare counts UTF-16 code units: at least the number of characters and at most twice it |
| Common.JsLengthOfBmp | models/genre.js:7-8 | without characters outside the Basic Multilingual Plane, that length is the number of characters |
| Common.TrimOfTrimmed | models/movie.js:7 | a title with no surrounding space is stored unchanged |
| Common.TrimIdempotent | models/movie.js:7 | trimming twice equals trimming once |
| RentalModel.WithDefaults | models/rental.js:15-28 | once the defaults are filled in, the `required` rules on `dateOut` and on the fee of a returned rental can no longer fail: the schema accepts exactly when customer and movie are given and any fee is at least 0; references and `dateReturned` are untouched |
| RentalModel.Create | models/rental.js:4-31 | accepted exactly when customer and movie are given and any fee is at least 0 (defaults fill `dateOut` and a fee, so `dateReturned` never lacks one); the stored fields are the given ones or the defaults, and both timestamps are the creation time |
| RentalModel.CreateIntended | models/rental.js:15-19 | the same acceptance, with `dateOut` defaulting to the creation time |
| RentalModel.DefaultDateOutIsFrozen | models/rental.js:18 | two rentals created at different times without `dateOut` both get the definition instant, which differs from the intended default whenever the two instants differ |
| RentalModel.Open | routers/rental.js:47-51 | the rental POST builds a document that the schema accepts under either default, that is open, and whose fee is 0 |
| RentalModel.RentalsOf | routers/customer.js:17 | exactly the stored rentals whose customer is the given one, with their stored values |
| RentalModel.OpenRentalsAfterInsert | routers/rental.js:47-52 | storing an open rental under a fresh id adds exactly that id to its movie's open rentals and changes no other movie's |
| RentalModel.OpenRentalsAfterClose | routers/rental.js:109-118 | overwriting an open rental by a returned one removes exactly that id from its movie's open rentals |
| MovieModel.Cast | models/movie.js:4-26 | the stored title is `title.trim()`; it is kept when already trimmed; the embedded genre is the given copy; a missing counter is 0 |
| MovieModel.SecondMovieOfAGenreIsRefused | models/movie.js:11-14 | with the index inherited from the embedded genre schema, writing another movie with a stored movie's genre name is refused; without it, it is not |
| MovieModel.DefaultsAreAdmitted | models/movie.js:4-26 | a movie with only default counters has 0 copies and rate 0, and the schema accepts it when its trimmed title is 3 to 255 code units long and its embedded genre name passes the genre schema's length rules |
| CustomerModel.Create | models/customer.js:3-18 | accepted exactly when the username is non-empty and the email has at least 5 UTF-16 code units; stores exactly username, phone and email, with `isGold` defaulting to false |
| GenreModel.Create | models/genre.js:3-13 | accepted exactly when the name is absent or 5 to 255 UTF-16 code units long; both timestamps are the creation time |
| GenreModel.Rename | routers/genre.js:74-75 | only the name and `updatedAt` change, and the schema must accept the new name |
| Store.Db.constructor | startup/db.js:1-11 | an empty database with the given movie indexes satisfies the invariant |
| Store.Db.CommitRental | routers/rental.js:44-57 | the commit stores the rental under a fresh id and decrements its movie's stock by one, keeping the invariant; nothing else changes |
| Store.Db.InsertMovie | routers/movie.js:65-66 | a movie whose counters are in range and which the index accepts is stored under a fresh id, keeping the invariant |
| Store.Db.ReplaceMovie | routers/movie.js:106-121 | a stored movie is overwritten by one the index accepts, keeping the invariant |
| Store.Db.OneMoviePerGenre | models/movie.js:11-14 | under the index inherited from the embedded genre schema, no two stored movies have the same genre name |
| Store.Db.StoredGenreAdmitted | models/genre.js:6-8 | every stored genre's name passes the genre schema's length rules, so a movie embedding a copy of it passes them again on save |
| Store.Db.InsertCustomer | routers/customer.js:57-64 | a customer whose username and email are unused is stored under a fresh id, keeping uniqueness |
| Store.Db.ReplaceCustomer | routers/customer.js:105-116 | one customer is overwritten and uniqueness is kept |
| Store.Db.InsertGenre | routers/genre.js:32-35 | a genre with an unused name is stored under a fresh id |
| Store.Db.ReplaceGenre | routers/genre.js:74-75 | one genre is overwritten and name uniqueness is kept |
| Store.Db.ReplaceUser | routers/user.js:41-44 | one user is overwritten and uniqueness is kept |
| RentalRouter.CheckRefs | routers/rental.js:35-42 | passes exactly when movie and customer exist and the movie's stock is not 0; otherwise, in this order: movie 404 (500 when malformed), customer 404 (500 when malformed), out of stock 400 |
| RentalRouter.ListRentals | routers/rental.js:11-23 | 200 with exactly the stored rentals |
| RentalRouter.PostRental | routers/rental.js:25-67 | validation 422, then the CheckRefs outcome, then 500 when a save throws or the movie's decremented document fails the movie schema, each leaving the store unchanged; a movie document the schema accepts can always be rented while in stock; 201 adds exactly one open rental with the given customer and movie and `dateOut` (or now), and takes one copy of that movie out of stock; stock stays non-negative and every movie's ledger is preserved |
| RentalRouter.TakeOne | routers/rental.js:54-55 | the decremented movie has one copy fewer and is otherwise the same; for a movie in stock with a count in range, `movie.save()` accepts it exactly when the stored movie passes the schema |
| RentalRouter.Transact | routers/rental.js:44-65 | a throwing `rental.save()` or `movie.save()`, or a decremented movie the schema rejects, aborts with 500 and the store unchanged; otherwise 201 with the rental stored under a fresh id, its movie's stock lowered by exactly one, nothing else changed, stock non-negative and every movie's ledger kept |
| RentalRouter.LedgerAfterOpen | routers/rental.js:47-55 | opening a rental while decrementing its movie's stock preserves stock plus open rentals for every movie |
| RentalRouter.GetRental | routers/rental.js:69-77 | 200 with the rental exactly when the id is valid and stored, otherwise 404 |
| RentalRouter.PutRental | routers/rental.js:79-128 | 422, then the CheckRefs outcome, then 500 unless `dateReturned` and a non-zero fee are given, then CastError or 404 for the rental id, each leaving the store unchanged; otherwise the rental is overwritten with the given fields and `dateOut` or now, and the answer is 201 for a fee of at least 0 and a 500 validation error for a negative one, whose write stays stored; no stock is touched, and an open rental's movie loses one copy in its ledger |
| RentalRouter.PutRentalMerged | routers/rental.js:109-124 | the intended amend: the same rejections in the same order; an absent `dateReturned` or fee keeps the stored value; the update runs the schema's validators, so a negative fee is refused with nothing written, every refusal leaves the store unchanged, and stored rentals the schema accepts stay accepted |
| RentalRouter.DeleteRentalById | routers/rental.js:130-136 | on a route with an id: 404 with nothing changed, or 204 removing exactly that rental, with no stock restored |
| RentalRouter.DeleteRental | routers/rental.js:130-136 | as mounted at `/`: always 404, nothing removed |
| MovieRouter.RangeErrors | routers/movie.js:37-44 | no message exactly when each supplied counter is in range; each message appears exactly when its counter is out of range, the stock one first |
| MovieRouter.GetMovie | routers/movie.js:14-20 | 200 with the movie exactly when the id is valid and stored, otherwise 404 |
| MovieRouter.PostMovie | routers/movie.js:22-68 | 422 with the whole error list, then 400 for an unknown genre name, then 500 for a title the schema rejects, then 500 duplicate key when another movie already has that genre name under the unique index, all storing nothing; otherwise 200 stores one movie under a fresh id with a copy of the found genre's id and name and counters defaulting to 0; without the index every valid post of a known genre succeeds |
| MovieRouter.SaveCopy | routers/movie.js:56-66 | with the genre found: a title the schema rejects gives 500 validation error, a genre name the unique index rejects 500 duplicate key, both storing nothing; otherwise 200 stores, under the next id, the trimmed movie embedding the genre's id and name, which the schema accepts |
| MovieRouter.SaveNew | routers/movie.js:65-66 | `movie.save()`: a movie the schema rejects gives 500 validation error, one the unique index rejects 500 duplicate key, both storing nothing; otherwise 200 with the movie under the next id |
| MovieRouter.Overwrite | routers/movie.js:106-121 | an unknown id gives 404; a genre name another movie already has gives 500 duplicate key under the unique index, storing nothing; otherwise 200 and the whole movie is replaced by the cast fields |
| MovieRouter.PutMovie | routers/movie.js:70-124 | 400 with the error list, 404 for an invalid or unknown id, 500 duplicate key when another movie already has an empty genre copy under the unique index; otherwise 200 with an empty genre copy whatever the genres are; absent counters become 0 |
| MovieRouter.PutMovieFindOne | routers/movie.js:104-105 | the intended update: an unknown genre name gives 400, an unknown id 404, a clash with another movie's genre name under the unique index 500; otherwise exactly 200, and the movie embeds a copy of the found genre |
| MovieRouter.DeleteMovie | routers/movie.js:126-130 | a malformed id gives 500, an unknown one 404; otherwise exactly that movie is removed and returned; rentals are kept |
| CustomerRouter.GetCustomer | routers/customer.js:13-25 | 500 for a malformed id, 404 for an unknown one; 200 with the customer and exactly its rentals |
| CustomerRouter.PostCustomer | routers/customer.js:26-66 | 400 first message, then 400 when any customer has the username or the email, then 500 when the schema rejects; 201 stores exactly the given fields under a fresh id |
| CustomerRouter.PutCustomer | routers/customer.js:67-120 | 400 first message, then 400 on any username or email match (the target included), then 404 for an invalid or unknown id; 201 replaces each field by a truthy value or keeps it |
| CustomerRouter.DeleteCustomer | routers/customer.js:121-128 | 404 for an invalid or unknown id; otherwise 204 removing exactly that customer, its rentals kept |
| GenreRouter.PostGenre | routers/genre.js:15-39 | 400 first message, then 400 for an existing name, then 500 for a name the schema rejects; 200 stores one genre with that name |
| GenreRouter.GetGenre | routers/genre.js:41-51 | 200 with the genre exactly when the id is valid and stored, otherwise 404 |
| GenreRouter.PutGenre | routers/genre.js:53-78 | 500 for an invalid id, then 200 with the first message, then 400 for a name any genre holds, then 404, then 500 on a rejected name; success changes only the name and `updatedAt`; movies keep their copies |
| GenreRouter.DeleteGenre | routers/genre.js:80-87 | 404 for an invalid or unknown id; otherwise that genre is removed and returned; movies keep their copies |
| UserRouter.Merge | routers/user.js:41-43 | each of username, email and isAdmin is replaced only when supplied (truthy) and otherwise kept; the password is kept |
| UserRouter.PutUser | routers/user.js:7-47 | 400 first message, then 400 on any username or email match, then 403 for an unknown account, then 500 when a merged length is outside 5..255; 201 stores the merge and answers only username, email and isAdmin |
| UserRouter.DeleteUser | routers/user.js:49-54 | 404 for an unknown account; otherwise 204 removing exactly that user |

## Left out

- The list endpoints `GET /` of movies, customers and genres: each returns a whole collection and has no decision logic. The rental list is modelled without its sort by `dateOut`.
- `populate`, `select` and `sort`: presentation of GET results only.
- The express-validator chains (trim, escape, lowercase, isEmail, isMobilePhone, isMongoId, isDate, isDecimal): their outcome is the `errors` input. The movie counter ranges are computed because the store invariant depends on them. Values are taken after sanitising.
- Authentication (`authenticateToken`, JWT, bcrypt, routers/auth.js): the authenticated user id is a parameter. The 401/403 answers of the middleware are not modelled.
- app.js, startup/, utils/logger.js and the debug output: wiring, I/O and logging.
- Concurrency, and the un-awaited `commitTransaction`: each handler runs alone. The rental transaction is one atomic step that commits or leaves the store unchanged.
- `validateId` is the predicate "is an ObjectId". routers/customer.js and routers/movie.js import it from `../utils/validator`, which is not part of this model; the same predicate is assumed.
- The MongoDB connection of startup/db.js is replaced by an empty store (`Store.Db.constructor`).
- ObjectId generation is a counter, and the `_id` of embedded documents is not modelled.
- The timestamps of a movie's embedded genre copy are not modelled.
- RentalRouter.PutRental: `rentalFee` is a number. The truthiness of a fee sent as the string `"0"` is not modelled.
- CustomerRouter.PutCustomer: a Mongoose `$set` of `undefined` is taken to keep the stored field. A query on an absent username or email is taken to match nothing (`CustomerRouter.Taken`, `UserRouter.Taken`).
- UserRouter.PutUser: the escaping of the username after its length check is not modelled. The save checks the lengths of the stored values as they are.
- MovieRouter.PostMovie: the title is checked by the schema after trimming. The validator's lowercase and escape are not modelled.
- The unique indexes of the genres and users collections are modelled by their routers' look-ups before each write, which keep those collections unique; a duplicate-key error can only come from a concurrent writer there. The movies collection's inherited index is modelled as the store's `MovieIndexes`.
- Lengths count UTF-16 code units. Characters are Unicode scalar values, so a lone surrogate as one character is not modelled.
- Giving a copy back to stock when an amend moves a rental to another movie, computing a fee from the daily rate, and restocking on delete are not modelled; the code does none of them.

## Findings

| source | as written | input that shows it | evidently intended | confidence | as-written member | corrected member |
|---|---|---|---|---|---|---|
| routers/rental.js:130-135 | the DELETE route is `/`, so `req.params.id` is always undefined | `DELETE /rentals` (and `DELETE /rentals/<id>` matches no route) | route `/:id`, removing the given rental | not executed | RentalRouter.DeleteRental | RentalRouter.DeleteRentalById |
| models/movie.js:11-14 | the movie schema embeds `GenreSchema`, whose `name` is `unique: true` (models/genre.js:9), so the movies collection gets a unique index on `genre.name` | POST /api/movies twice with genre "comedy": the second insert fails with E11000 and answers 500 | any number of movies per genre (`excludeIndexes: true` on the embedded schema) | not executed | Store.Db.OneMoviePerGenre | MovieRouter.PostMovie |
| routers/movie.js:104-114 | `Genre.find` returns a list, so `!genre` never rejects and `genre._id`, `genre.name` are undefined | PUT with a genre name no genre has: 200, and the movie's genre copy is empty | `findOne`, 400 for an unknown genre, copy of the found genre | not executed | MovieRouter.PutMovie | MovieRouter.PutMovieFindOne |
| routers/rental.js:109-124 | `findByIdAndUpdate` writes without running the schema's validators; the following `rental.save()` does run them | PUT with valid ids, a `dateReturned` and `rentalFee: -5`: the rental is stored with fee -5, then the save fails `min: 0` and the request answers 500 | validate before writing (`runValidators`), so a refused amend stores nothing | not executed | RentalRouter.PutRental | RentalRouter.PutRentalMerged |
| routers/rental.js:109-121 | `$set` reads `rental.dateReturned` and `rental.rentalFee` inside the declaration of `rental` | PUT with valid movie and customer but no `dateReturned`: ReferenceError, 500 | keep the stored value of an absent field | not executed | RentalRouter.PutRental | RentalRouter.PutRentalMerged |
| models/rental.js:15-19 | `default: Date.now()` is evaluated once, when the schema is defined | two rentals created at different times without `dateOut` get the same `dateOut` | `default: Date.now`, the creation time | not executed | RentalModel.DefaultDateOutIsFrozen | RentalModel.CreateIntended |
