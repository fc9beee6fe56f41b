/** The MongoDB database the routers share, as one object holding a map from id
    to document for each collection. */
module Store {
  import opened Common
  import opened RentalModel
  import opened MovieModel
  import opened CustomerModel
  import opened GenreModel
  import opened UserModel

  /** Every key of `m` lies below `bound`. */
  ghost predicate KeysBelow<V>(m: map<Id, V>, bound: Id) {
    forall k :: k in m ==> k < bound
  }

  class Db {
    var movies: map<Id, Movie>
    var customers: map<Id, Customer>
    var rentals: map<Id, Rental>
    var genres: map<Id, Genre>
    var users: map<Id, User>
    /** Every id handed out so far lies below `nextId` (ObjectId generation). */
    var nextId: Id
    /** The indexes the movies collection was built with. */
    const indexes: MovieIndexes

    /** The invariant the handlers keep: ids are fresh, every movie's stock
        and rate lie in the schema's ranges (so stock is never negative), and
        the uniqueness the schemas and routers enforce holds. */
    ghost predicate Valid()
      reads this
    {
      && KeysBelow(movies, nextId) && KeysBelow(customers, nextId) && KeysBelow(rentals, nextId)
      && KeysBelow(genres, nextId) && KeysBelow(users, nextId)
      && (forall m :: m in movies ==> InRanges(movies[m]))
      && (indexes == GenreNameIndexed ==> GenreNamesUnique(movies))
      && (forall g :: g in genres ==> GenreModel.Admits(genres[g]))
      && GenreModel.NamesUnique(genres)
      && CustomerModel.Unique(customers)
      && UserModel.Unique(users)
    }

    /** An empty database whose movies collection carries `indexes`. */
    constructor (indexes: MovieIndexes)
      ensures Valid() && this.indexes == indexes
      ensures movies == map[] && customers == map[] && rentals == map[]
      ensures genres == map[] && users == map[]
    {
      movies, customers, rentals, genres, users := map[], map[], map[], map[], map[];
      nextId := 0;
      this.indexes := indexes;
    }

    /** The commit of the rental-creation transaction: the new rental is stored
        under a fresh id and its movie loses one copy, in one step. */
    method CommitRental(rental: Rental) returns (id: Id)
      requires Valid() && rental.movie in movies && movies[rental.movie].numberInStock > 0
      modifies this
      ensures Valid()
      ensures id == old(nextId) && id !in old(rentals) && nextId == id + 1
      ensures rentals == old(rentals)[id := rental]
      ensures movies == old(movies)[rental.movie := old(movies)[rental.movie].(numberInStock := old(movies)[rental.movie].numberInStock - 1)]
      ensures customers == old(customers) && genres == old(genres) && users == old(users)
    {
      id := nextId;
      var movie := movies[rental.movie];
      rentals := rentals[id := rental];
      movies := movies[rental.movie := movie.(numberInStock := movie.numberInStock - 1)];
      nextId := nextId + 1;
    }

    /** `movie.save()` of a new movie that the index accepts: stored under a
        fresh id. */
    method InsertMovie(movie: Movie) returns (id: Id)
      requires Valid() && InRanges(movie) && !IndexRejects(indexes, movies, None, movie.genre.name)
      modifies this
      ensures Valid()
      ensures id == old(nextId) && id !in old(movies) && nextId == id + 1
      ensures movies == old(movies)[id := movie]
      ensures rentals == old(rentals) && customers == old(customers) && genres == old(genres) && users == old(users)
    {
      id := nextId;
      movies := movies[id := movie];
      nextId := nextId + 1;
    }

    /** `findByIdAndUpdate` of the stored movie `id` by `movie`, which the
        index accepts. */
    method ReplaceMovie(id: Id, movie: Movie)
      requires Valid() && id in movies && InRanges(movie)
      requires !IndexRejects(indexes, movies, Some(id), movie.genre.name)
      modifies this`movies
      ensures Valid()
      ensures movies == old(movies)[id := movie]
    {
      movies := movies[id := movie];
    }

    /** As the movies collection is indexed when the schema is used as
        written, no two stored movies have the same genre. */
    lemma OneMoviePerGenre(a: Id, b: Id)
      requires Valid() && indexes == GenreNameIndexed
      requires a in movies && b in movies && a != b
      ensures movies[a].genre.name != movies[b].genre.name
    {
    }

    /** Every stored genre passed the genre schema's validators, so a copy of
        it passes them again when a movie embedding it is saved. */
    lemma StoredGenreAdmitted(g: Id)
      requires Valid() && g in genres
      ensures GenreModel.NameAdmitted(genres[g].name)
    {
    }

    /** `customer.save()` of a new customer whose username and email no stored
        customer has. */
    method InsertCustomer(c: Customer) returns (id: Id)
      requires Valid()
      requires forall k :: k in customers ==> customers[k].username != c.username && customers[k].email != c.email
      modifies this
      ensures Valid()
      ensures id == old(nextId) && id !in old(customers) && nextId == id + 1
      ensures customers == old(customers)[id := c]
      ensures rentals == old(rentals) && movies == old(movies) && genres == old(genres) && users == old(users)
    {
      id := nextId;
      customers := customers[id := c];
      nextId := nextId + 1;
    }

    /** Overwrite customer `id` with `c`, whose username and email no other
        customer has. */
    method ReplaceCustomer(id: Id, c: Customer)
      requires Valid() && id in customers
      requires forall k :: k in customers && k != id ==>
        customers[k].username != c.username && customers[k].email != c.email
      modifies this`customers
      ensures Valid()
      ensures customers == old(customers)[id := c]
    {
      customers := customers[id := c];
    }

    /** `genre.save()` of a new genre whose name no stored genre has. */
    method InsertGenre(g: Genre) returns (id: Id)
      requires Valid()
      requires GenreModel.Admits(g)
      requires forall k :: k in genres ==> genres[k].name != g.name
      modifies this
      ensures Valid()
      ensures id == old(nextId) && id !in old(genres) && nextId == id + 1
      ensures genres == old(genres)[id := g]
      ensures rentals == old(rentals) && movies == old(movies) && customers == old(customers) && users == old(users)
    {
      id := nextId;
      genres := genres[id := g];
      nextId := nextId + 1;
    }

    /** Overwrite genre `id` with `g`, whose name no other genre has. */
    method ReplaceGenre(id: Id, g: Genre)
      requires Valid() && id in genres
      requires GenreModel.Admits(g)
      requires forall k :: k in genres && k != id ==> genres[k].name != g.name
      modifies this`genres
      ensures Valid()
      ensures genres == old(genres)[id := g]
    {
      genres := genres[id := g];
    }

    /** Overwrite user `id` with `u`, whose username and email no other user
        has. */
    method ReplaceUser(id: Id, u: User)
      requires Valid() && id in users
      requires forall k :: k in users && k != id ==> users[k].username != u.username && users[k].email != u.email
      modifies this`users
      ensures Valid()
      ensures users == old(users)[id := u]
    {
      users := users[id := u];
    }
  }
}
