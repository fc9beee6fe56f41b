/** `UserSchema` (models/user.js), the part `PUT /users` and `DELETE /users` use:
    unique username and email of 5 to 255 characters, a password hash and an
    `isAdmin` flag. */
module UserModel {
  import opened Common

  const MinLength := 5
  const MaxLength := 255

  /** A stored user document. */
  datatype User = User(username: string, email: string, password: string, isAdmin: bool)

  /** The length validators on `username` and on `email`. */
  predicate LengthOk(s: string) {
    MinLength <= JsLength(s) <= MaxLength
  }

  /** The `unique` indexes: no two users share a username, and no two share an
      email. */
  ghost predicate Unique(users: map<Id, User>) {
    && (forall a, b :: a in users && b in users && users[a].username == users[b].username ==> a == b)
    && (forall a, b :: a in users && b in users && users[a].email == users[b].email ==> a == b)
  }
}
