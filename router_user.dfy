/** routers/user.js: the signed-in user edits or removes their own account.
    `authUser` is the `_id` that `authenticateToken` read from the request's
    token. */
module UserRouter {
  import opened Common
  import opened UserModel
  import opened Http
  import opened Store

  const AlreadyExists := "Username or Email already exists."

  /** `User.find().or([{ username }, { email }])` is not empty. An absent value
      matches no user. */
  predicate Taken(users: map<Id, User>, username: Option<string>, email: Option<string>) {
    exists k :: k in users && (Some(users[k].username) == username || Some(users[k].email) == email)
  }

  /** The account after the update: a truthy username or email replaces the
      stored one, and a supplied `isAdmin` (a non-empty string after `trim`,
      hence truthy) replaces the flag. The password is kept. */
  function Merge(u: User, username: Option<string>, email: Option<string>, isAdmin: Option<bool>): (u': User)
    ensures u'.password == u.password
    ensures Truthy(username) ==> u'.username == username.value
    ensures !Truthy(username) ==> u'.username == u.username
    ensures Truthy(email) ==> u'.email == email.value
    ensures !Truthy(email) ==> u'.email == u.email
    ensures u'.isAdmin == isAdmin.GetOr(u.isAdmin)
  {
    User(Or(username, u.username), Or(email, u.email), u.password, isAdmin.GetOr(u.isAdmin))
  }

  /** `PUT /users`. The uniqueness query runs before the account is looked up
      and also matches the account itself; `save` then checks the lengths. */
  method PutUser(db: Db, authUser: Id, errors: seq<string>, username: Option<string>, email: Option<string>,
                 isAdmin: Option<bool>)
    returns (r: Response)
    requires db.Valid()
    modifies db
    ensures db.Valid()
    ensures db.rentals == old(db.rentals) && db.movies == old(db.movies) && db.customers == old(db.customers)
    ensures db.genres == old(db.genres) && db.nextId == old(db.nextId)
    ensures errors != [] ==> r == Response(400, Text(errors[0]))
    ensures errors == [] && Taken(old(db.users), username, email) ==> r == Response(400, Text(AlreadyExists))
    ensures errors == [] && !Taken(old(db.users), username, email) && authUser !in old(db.users) ==>
      r == Response(403, Text(Forbidden))
    ensures errors == [] && !Taken(old(db.users), username, email) && authUser in old(db.users) ==>
      var u := Merge(old(db.users)[authUser], username, email, isAdmin);
      if LengthOk(u.username) && LengthOk(u.email) then
        && r == Response(201, UserView(u.username, u.email, u.isAdmin))
        && db.users == old(db.users)[authUser := u]
      else r == Fail(ValidationError)
    ensures r.status != 201 ==> db.users == old(db.users)
  {
    if errors != [] {
      return Response(400, Text(errors[0]));
    }
    if Taken(db.users, username, email) {
      return Response(400, Text(AlreadyExists));
    }
    if authUser !in db.users {
      return Response(403, Text(Forbidden));
    }
    var u := Merge(db.users[authUser], username, email, isAdmin);
    if !(LengthOk(u.username) && LengthOk(u.email)) {
      return Fail(ValidationError);
    }
    db.ReplaceUser(authUser, u);
    r := Response(201, UserView(u.username, u.email, u.isAdmin));
  }

  /** `DELETE /users`: removes the signed-in account. */
  method DeleteUser(db: Db, authUser: Id) returns (r: Response)
    requires db.Valid()
    modifies db
    ensures db.Valid()
    ensures db.rentals == old(db.rentals) && db.movies == old(db.movies) && db.customers == old(db.customers)
    ensures db.genres == old(db.genres) && db.nextId == old(db.nextId)
    ensures authUser !in old(db.users) ==> r == Response(404, Text(NotFound)) && db.users == old(db.users)
    ensures authUser in old(db.users) ==> r == Response(204, NoBody) && db.users == old(db.users) - {authUser}
  {
    if authUser !in db.users {
      return Response(404, Text(NotFound));
    }
    db.users := db.users - {authUser};
    r := Response(204, NoBody);
  }
}
