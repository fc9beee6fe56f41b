/** routers/genre.js: genres with a unique name. Movies keep their own copy of
    a genre's name, so renaming or removing a genre leaves every movie as it
    was. */
module GenreRouter {
  import opened Common
  import opened GenreModel
  import opened Http
  import opened Store

  const NotFoundText := "Not found"
  const NameExists := "name already exists"
  const NameExistsOnPut := "name already exists!"

  /** `Genre.findOne({ name })` finds a genre. */
  predicate NameTaken(genres: map<Id, Genre>, name: string) {
    exists k :: k in genres && genres[k].name == Some(name)
  }

  /** `POST /`. `errors` are the messages of the request validators; the
      validator asks for one character but the schema for five, so a short
      name passes the first and is rejected by `save`. */
  method PostGenre(db: Db, errors: seq<string>, name: string, now: Time) returns (r: Response)
    requires db.Valid()
    modifies db
    ensures db.Valid()
    ensures db.rentals == old(db.rentals) && db.movies == old(db.movies)
    ensures db.customers == old(db.customers) && db.users == old(db.users)
    ensures errors != [] ==> r == Response(400, Text(errors[0]))
    ensures errors == [] && NameTaken(old(db.genres), name) ==> r == Response(400, Text(NameExists))
    ensures errors == [] && !NameTaken(old(db.genres), name) && !(MinName <= JsLength(name) <= MaxName) ==>
      r == Fail(ValidationError)
    ensures r.status == 200 <==>
      errors == [] && !NameTaken(old(db.genres), name) && MinName <= JsLength(name) <= MaxName
    ensures r.status != 200 ==> db.genres == old(db.genres) && db.nextId == old(db.nextId)
    ensures r.status == 200 ==>
      var id := old(db.nextId);
      && id !in old(db.genres)
      && db.genres == old(db.genres)[id := Genre(Some(name), now, now)]
      && r.body == GenreDoc(id, Genre(Some(name), now, now))
  {
    if errors != [] {
      return Response(400, Text(errors[0]));
    }
    if NameTaken(db.genres, name) {
      return Response(400, Text(NameExists));
    }
    var created := GenreModel.Create(Some(name), now);
    if created.None? {
      return Fail(ValidationError);
    }
    var id := db.InsertGenre(created.value);
    r := Response(200, GenreDoc(id, created.value));
  }

  /** `GET /:id`. */
  method GetGenre(db: Db, id: RawId) returns (r: Response)
    ensures r.status == 200 <==> id.Oid? && id.id in db.genres
    ensures r.status == 200 ==> r.body == GenreDoc(id.id, db.genres[id.id])
    ensures r.status != 200 ==> r == Response(404, Text(NotFoundText))
  {
    if !ValidateId(id) {
      return Response(404, Text(NotFoundText));
    }
    if id.id !in db.genres {
      return Response(404, Text(NotFoundText));
    }
    r := Response(200, GenreDoc(id.id, db.genres[id.id]));
  }

  /** `PUT /:id`. The id is checked before the body; body errors are sent with
      status 200; the name check also matches the genre being renamed. */
  method PutGenre(db: Db, id: RawId, errors: seq<string>, name: string, now: Time) returns (r: Response)
    requires db.Valid()
    modifies db
    ensures db.Valid()
    ensures db.rentals == old(db.rentals) && db.movies == old(db.movies)
    ensures db.customers == old(db.customers) && db.users == old(db.users) && db.nextId == old(db.nextId)
    ensures !id.Oid? ==> r == Response(500, Text(NotFound))
    ensures id.Oid? && errors != [] ==> r == Response(200, Text(errors[0]))
    ensures id.Oid? && errors == [] && NameTaken(old(db.genres), name) ==> r == Response(400, Text(NameExistsOnPut))
    ensures id.Oid? && errors == [] && !NameTaken(old(db.genres), name) && id.id !in old(db.genres) ==>
      r == Response(404, Text(NotFound))
    ensures id.Oid? && errors == [] && !NameTaken(old(db.genres), name) && id.id in old(db.genres)
            && !(MinName <= JsLength(name) <= MaxName) ==>
      r == Fail(ValidationError)
    ensures r.body.GenreDoc? <==>
      id.Oid? && errors == [] && !NameTaken(old(db.genres), name) && id.id in old(db.genres)
      && MinName <= JsLength(name) <= MaxName
    ensures !r.body.GenreDoc? ==> db.genres == old(db.genres)
    ensures r.body.GenreDoc? ==>
      var g := old(db.genres)[id.id].(name := Some(name), updatedAt := now);
      && r == Response(200, GenreDoc(id.id, g))
      && db.genres == old(db.genres)[id.id := g]
  {
    if !ValidateId(id) {
      return Response(500, Text(NotFound));
    }
    if errors != [] {
      return Response(200, Text(errors[0]));
    }
    if NameTaken(db.genres, name) {
      return Response(400, Text(NameExistsOnPut));
    }
    if id.id !in db.genres {
      return Response(404, Text(NotFound));
    }
    var renamed := Rename(db.genres[id.id], Some(name), now);
    if renamed.None? {
      return Fail(ValidationError);
    }
    db.ReplaceGenre(id.id, renamed.value);
    r := Response(200, GenreDoc(id.id, renamed.value));
  }

  /** `DELETE /:id`: answers with the removed genre. */
  method DeleteGenre(db: Db, id: RawId) returns (r: Response)
    requires db.Valid()
    modifies db
    ensures db.Valid()
    ensures db.rentals == old(db.rentals) && db.movies == old(db.movies)
    ensures db.customers == old(db.customers) && db.users == old(db.users) && db.nextId == old(db.nextId)
    ensures !(id.Oid? && id.id in old(db.genres)) ==> r == Response(404, Text(NotFoundText)) && db.genres == old(db.genres)
    ensures id.Oid? && id.id in old(db.genres) ==>
      r == Response(200, GenreDoc(id.id, old(db.genres)[id.id])) && db.genres == old(db.genres) - {id.id}
  {
    if !ValidateId(id) {
      return Response(404, Text(NotFoundText));
    }
    if id.id !in db.genres {
      return Response(404, Text(NotFoundText));
    }
    var removed := db.genres[id.id];
    db.genres := db.genres - {id.id};
    r := Response(200, GenreDoc(id.id, removed));
  }
}
