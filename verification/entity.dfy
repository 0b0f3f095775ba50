/** The User record (internal/auth/model/user.go) and its JSON rendering. */
module Entity {

  /** One row of the users table. `gorm.Model` contributes the id, which the
      store assigns, and the soft-delete marker: `deleted` stands for a non-null
      DeletedAt. Name, Email and Password are NOT NULL columns; a Dafny string
      is never null, and nothing here makes it non-empty. */
  datatype User = User(id: nat, name: string, email: string, password: string, deleted: bool)

  /** The zero value `model.User{}`. */
  const Zero: User := User(0, "", "", "", false)

  /** What the JSON encoder writes for a User: the `json:"-"` tag on Password
      leaves that field out, so the type has no place for it. */
  datatype UserView = UserView(id: nat, name: string, email: string, deleted: bool)

  function View(u: User): UserView {
    UserView(u.id, u.name, u.email, u.deleted)
  }

  /** The rendering of a JSON array of users, element by element. */
  function Views(us: seq<User>): (vs: seq<UserView>)
    ensures |vs| == |us|
    ensures forall k :: 0 <= k < |us| ==> vs[k] == View(us[k])
  {
    if us == [] then [] else [View(us[0])] + Views(us[1..])
  }

  /** Two users render alike exactly when they agree on every field but the
      password: a response carries no trace of it. */
  lemma ViewOmitsPassword(u: User, w: User)
    ensures View(u) == View(w) <==> u.(password := w.password) == w
  {
  }
}
