/** `GenreSchema`: an optional, unique name of 5 to 255 characters, and
    `createdAt`/`updatedAt` timestamps. */
module GenreModel {
  import opened Common

  const MinName := 5
  const MaxName := 255

  /** A stored genre document; `name` is not required by the schema. */
  datatype Genre = Genre(name: Option<string>, createdAt: Time, updatedAt: Time)

  /** The length validators on `name`, which apply only when a name is present.
      They also run wherever `GenreSchema` is embedded. */
  predicate NameAdmitted(name: Option<string>) {
    name.Some? ==> MinName <= JsLength(name.value) <= MaxName
  }

  /** The schema's validators. */
  predicate Admits(g: Genre) {
    NameAdmitted(g.name)
  }

  /** `new Genre({ name }).save()` at `now`: accepted when the name is absent or
      of 5 to 255 characters; both timestamps are `now`. */
  function Create(name: Option<string>, now: Time): (r: Option<Genre>)
    ensures r.Some? <==> (name.Some? ==> MinName <= JsLength(name.value) <= MaxName)
    ensures r.Some? ==> r.value.name == name && r.value.createdAt == now && r.value.updatedAt == now
  {
    var g := Genre(name, now, now);
    if Admits(g) then Some(g) else None
  }

  /** `genre.name = name; genre.save()` at `now`: only the name and `updatedAt`
      change, and the schema must accept the new name. */
  function Rename(g: Genre, name: Option<string>, now: Time): (r: Option<Genre>)
    ensures r.Some? <==> (name.Some? ==> MinName <= JsLength(name.value) <= MaxName)
    ensures r.Some? ==> r.value.name == name && r.value.createdAt == g.createdAt && r.value.updatedAt == now
  {
    var g' := g.(name := name, updatedAt := now);
    if Admits(g') then Some(g') else None
  }

  /** The `unique` index on `name`: no two genres share a name (MongoDB treats
      a missing name as one value too). */
  ghost predicate NamesUnique(genres: map<Id, Genre>) {
    forall a, b :: a in genres && b in genres && genres[a].name == genres[b].name ==> a == b
  }
}
