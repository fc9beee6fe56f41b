/** `CustomerSchema`: a required username, an optional phone, a required email of
    at least 5 characters and an `isGold` flag that defaults to false. */
module CustomerModel {
  import opened Common

  const MinEmail := 5

  /** A stored customer document. */
  datatype Customer = Customer(
    username: string,
    phone: Option<string>,
    email: string,
    isGold: bool)

  /** Mongoose's `required` on a string rejects a missing value and the empty
      string. */
  predicate RequiredString(s: Option<string>) {
    s.Some? && s.value != ""
  }

  /** `new Customer({ username, email, phone, isGold }).save()`: the document is
      accepted exactly when the username is given and not empty and the email is
      given with at least 5 characters; `isGold` defaults to false. */
  function Create(username: Option<string>, email: Option<string>, phone: Option<string>, isGold: Option<bool>)
    : (r: Option<Customer>)
    ensures r.Some? <==> RequiredString(username) && email.Some? && JsLength(email.value) >= MinEmail
    ensures r.Some? ==>
      && r.value.username == username.value && r.value.email == email.value
      && r.value.phone == phone
      && r.value.isGold == (isGold.Some? && isGold.value)
  {
    if RequiredString(username) && RequiredString(email) && JsLength(email.value) >= MinEmail then
      Some(Customer(username.value, phone, email.value, isGold.GetOr(false)))
    else
      None
  }

  /** No two customers share a username, and no two share an email. */
  ghost predicate Unique(customers: map<Id, Customer>) {
    && (forall a, b :: a in customers && b in customers && customers[a].username == customers[b].username ==> a == b)
    && (forall a, b :: a in customers && b in customers && customers[a].email == customers[b].email ==> a == b)
  }
}
