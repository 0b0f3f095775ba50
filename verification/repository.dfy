/** The user repository (internal/user/repositories/user_repository.go) over an
    in-memory users table that stands for the GORM store. The table keeps every
    row ever inserted, keyed by id; soft-deleted rows stay in it. The store
    behaviour the repository relies on is written out here:
    - `First` and `Find` see only rows that are not soft-deleted;
    - `First` with no matching row fails with the not-found sentinel;
    - `Delete` on a `gorm.Model` row sets DeletedAt instead of removing it;
    - the unique index on email counts every row, soft-deleted ones included.
    Any other failure of the database is an input of each call (`fault`). */
module Repository {
  import opened Errors
  import opened Entity

  /** Go's `(*User, error)` result of FindByID and FindByEmail: the pointer is
      never nil, and on an error it points at a zero record. */
  datatype Lookup = Lookup(user: User, err: Option<Error>)

  /** Go's `([]User, error)` result of FindAll. */
  datatype Listing = Listing(users: seq<User>, err: Option<Error>)

  /** Row `id` exists and is not soft-deleted: the rows `First` and `Find` see. */
  predicate IsLive(rows: map<nat, User>, id: nat) {
    id in rows && !rows[id].deleted
  }

  predicate LiveWithEmail(rows: map<nat, User>, id: nat, email: string) {
    IsLive(rows, id) && rows[id].email == email
  }

  /** Some live row holds `email`. */
  ghost predicate LiveHolder(rows: map<nat, User>, email: string) {
    exists id: nat :: LiveWithEmail(rows, id, email)
  }

  /** Some row, live or soft-deleted, holds `email`: what the unique index sees. */
  predicate EmailHeld(rows: map<nat, User>, email: string) {
    exists id :: id in rows && rows[id].email == email
  }

  /** Some row other than `id` holds `email`. */
  predicate EmailHeldByOther(rows: map<nat, User>, email: string, id: nat) {
    exists j :: j in rows && j != id && rows[j].email == email
  }

  /** At most one row, live or soft-deleted, holds a given email. */
  ghost predicate EmailsUnique(rows: map<nat, User>) {
    forall i, j :: i in rows && j in rows && rows[i].email == rows[j].email ==> i == j
  }

  /** The invariant of the table: ids start at 1 and stay below the next id to
      assign, every row is stored under its own id, and emails are unique. */
  ghost predicate TableInvariant(rows: map<nat, User>, nextId: nat) {
    && 1 <= nextId
    && (forall id :: id in rows ==> 1 <= id < nextId && rows[id].id == id)
    && EmailsUnique(rows)
  }

  /** The live rows with an id below `n`, by ascending id. */
  function LiveBelow(rows: map<nat, User>, n: nat): seq<User>
  {
    if n == 0 then []
    else LiveBelow(rows, n - 1) + (if IsLive(rows, n - 1) then [rows[n - 1]] else [])
  }

  /** LiveBelow lists every live row below `n`, nothing else, and each once,
      in ascending order of id. */
  lemma {:induction false} LiveBelowExactly(rows: map<nat, User>, n: nat)
    requires forall id :: id in rows ==> rows[id].id == id
    ensures forall id: nat :: id < n && IsLive(rows, id) ==> rows[id] in LiveBelow(rows, n)
    ensures forall k :: 0 <= k < |LiveBelow(rows, n)| ==>
              var u := LiveBelow(rows, n)[k]; u.id < n && IsLive(rows, u.id) && rows[u.id] == u
    ensures forall i, j :: 0 <= i < j < |LiveBelow(rows, n)| ==>
              LiveBelow(rows, n)[i].id < LiveBelow(rows, n)[j].id
  {
    if n > 0 {
      LiveBelowExactly(rows, n - 1);
    }
  }

  /** The live row with the smallest id below `n` that holds `email`:
      `Where("email = ?", email).First` orders by primary key. */
  function FirstWithEmail(rows: map<nat, User>, email: string, n: nat): (r: Option<nat>)
    ensures r.Some? ==> r.value < n && LiveWithEmail(rows, r.value, email)
    ensures r.Some? ==> forall j: nat :: j < r.value ==> !LiveWithEmail(rows, j, email)
    ensures r.None? ==> forall j: nat :: j < n ==> !LiveWithEmail(rows, j, email)
  {
    if n == 0 then None
    else match FirstWithEmail(rows, email, n - 1)
      case Some(id) => Some(id)
      case None => if LiveWithEmail(rows, n - 1, email) then Some(n - 1) else None
  }

  /** `First(&user, id)`. */
  function FindId(rows: map<nat, User>, id: nat, fault: Option<string>): Lookup {
    if fault.Some? then Lookup(Zero, Some(StorageFailure(fault.value)))
    else if IsLive(rows, id) then Lookup(rows[id], None)
    else Lookup(Zero, Some(RecordNotFound))
  }

  /** `Where("email = ?", email).First(&user)` on a table whose ids are below `nextId`. */
  function FindEmail(rows: map<nat, User>, nextId: nat, email: string, fault: Option<string>): Lookup {
    if fault.Some? then Lookup(Zero, Some(StorageFailure(fault.value)))
    else match FirstWithEmail(rows, email, nextId)
      case Some(id) => Lookup(rows[id], None)
      case None => Lookup(Zero, Some(RecordNotFound))
  }

  /** `Find(&users)` on a table whose ids are below `nextId`. */
  function FindLive(rows: map<nat, User>, nextId: nat, fault: Option<string>): Listing {
    if fault.Some? then Listing([], Some(StorageFailure(fault.value)))
    else Listing(LiveBelow(rows, nextId), None)
  }

  /** The error `Create` reports for a new row holding `email`, if any. */
  function InsertOutcome(rows: map<nat, User>, email: string, fault: Option<string>): Option<Error> {
    if fault.Some? then Some(StorageFailure(fault.value))
    else if EmailHeld(rows, email) then Some(UniqueViolation)
    else None
  }

  /** The table after `Delete(&User{}, id)`: the soft-delete scope makes it
      touch only a live row, and it only sets that row's DeletedAt. */
  function SoftDeleted(rows: map<nat, User>, id: nat): map<nat, User> {
    if IsLive(rows, id) then rows[id := rows[id].(deleted := true)] else rows
  }

  /** FindByEmail finds the live row holding `email` exactly when there is one,
      and otherwise fails with the not-found sentinel and a zero record. */
  lemma FindEmailMeaning(rows: map<nat, User>, nextId: nat, email: string, fault: Option<string>)
    requires TableInvariant(rows, nextId)
    ensures var r := FindEmail(rows, nextId, email, fault);
      && (r.err.None? <==> fault.None? && LiveHolder(rows, email))
      && (r.err.None? ==> LiveWithEmail(rows, r.user.id, email) && rows[r.user.id] == r.user)
      && (r.err.Some? ==> r.user == Zero)
      && (fault.None? && !LiveHolder(rows, email) ==> r.err == Some(RecordNotFound))
  {
    if fault.None? && LiveHolder(rows, email) {
      var id: nat :| LiveWithEmail(rows, id, email);
      assert id < nextId;
    }
  }

  /** FindAll returns exactly the live rows, each once, by ascending id. */
  lemma FindLiveMeaning(rows: map<nat, User>, nextId: nat)
    requires TableInvariant(rows, nextId)
    ensures var us := FindLive(rows, nextId, None).users;
      && (forall id: nat :: IsLive(rows, id) ==> rows[id] in us)
      && (forall k :: 0 <= k < |us| ==> IsLive(rows, us[k].id) && rows[us[k].id] == us[k])
      && (forall i, j :: 0 <= i < j < |us| ==> us[i].id < us[j].id)
  {
    LiveBelowExactly(rows, nextId);
  }

  /** A row inserted under a fresh id keeps the invariant and is at once visible
      to FindByID, FindByEmail and FindAll. */
  lemma {:induction false} InsertedRowIsFound(rows: map<nat, User>, nextId: nat, name: string, email: string, password: string)
    requires TableInvariant(rows, nextId)
    requires !EmailHeld(rows, email)
    ensures var u := User(nextId, name, email, password, false);
      var rows' := rows[nextId := u];
      && TableInvariant(rows', nextId + 1)
      && FindId(rows', nextId, None) == Lookup(u, None)
      && FindEmail(rows', nextId + 1, email, None) == Lookup(u, None)
      && u in FindLive(rows', nextId + 1, None).users
  {
    var u := User(nextId, name, email, password, false);
    var rows' := rows[nextId := u];
    assert TableInvariant(rows', nextId + 1) by {
      assert forall j :: j in rows ==> rows[j].email != email;
    }
    FindEmailMeaning(rows', nextId + 1, email, None);
    FindLiveMeaning(rows', nextId + 1);
  }

  /** After a soft delete the row is invisible to FindByID, FindByEmail and
      FindAll, yet it is still in the table under the same id and still holds
      its email, so the unique index still refuses that email. */
  lemma {:induction false} SoftDeleteHides(rows: map<nat, User>, nextId: nat, id: nat)
    requires TableInvariant(rows, nextId)
    requires IsLive(rows, id)
    ensures var rows' := SoftDeleted(rows, id);
      && TableInvariant(rows', nextId)
      && id in rows' && rows'[id] == rows[id].(deleted := true)
      && FindId(rows', id, None) == Lookup(Zero, Some(RecordNotFound))
      && FindEmail(rows', nextId, rows[id].email, None) == Lookup(Zero, Some(RecordNotFound))
      && (forall u :: u in FindLive(rows', nextId, None).users ==> u.id != id)
      && EmailHeld(rows', rows[id].email)
  {
    var rows' := SoftDeleted(rows, id);
    var email := rows[id].email;
    assert TableInvariant(rows', nextId) by {
      assert forall j :: j in rows' ==> j in rows && rows'[j].email == rows[j].email;
    }
    assert !LiveHolder(rows', email) by {
      assert forall j :: j in rows' && j != id ==> rows'[j].email != email;
    }
    FindEmailMeaning(rows', nextId, email, None);
    FindLiveMeaning(rows', nextId);
  }

  /** Writing back a row under its own id, with an email no other row holds,
      keeps the invariant and changes no other row. */
  lemma SaveKeepsInvariant(rows: map<nat, User>, nextId: nat, u: User)
    requires TableInvariant(rows, nextId)
    requires u.id in rows && !EmailHeldByOther(rows, u.email, u.id)
    ensures TableInvariant(rows[u.id := u], nextId)
    ensures forall j :: j in rows && j != u.id ==> rows[u.id := u][j] == rows[j]
  {
    assert forall j :: j in rows && j != u.id ==> rows[j].email != u.email;
  }

  /** The repository: the users table and the next id the store will assign. */
  class UserRepository {
    var rows: map<nat, User>
    var nextId: nat

    ghost predicate Valid()
      reads this
    {
      TableInvariant(rows, nextId)
    }

    /** A repository over the table the store already holds: migration keeps
        existing rows, so the table need not be empty and ids may have gaps. */
    constructor (rows0: map<nat, User>, nextId0: nat)
      requires TableInvariant(rows0, nextId0)
      ensures Valid() && rows == rows0 && nextId == nextId0
    {
      rows := rows0;
      nextId := nextId0;
    }

    /** `Create(user)` for a new record holding name, email and password:
        one new live row under a fresh id, or an error and no change. On an
        error the caller's record keeps the zero id. */
    method Create(name: string, email: string, password: string, fault: Option<string>)
      returns (stored: User, err: Option<Error>)
      requires Valid()
      modifies this
      ensures Valid()
      ensures err == InsertOutcome(old(rows), email, fault)
      ensures err.Some? ==> stored == User(0, name, email, password, false)
                            && rows == old(rows) && nextId == old(nextId)
      ensures err.None? ==> && stored == User(old(nextId), name, email, password, false)
                            && stored.id !in old(rows)
                            && rows == old(rows)[stored.id := stored]
                            && nextId == old(nextId) + 1
    {
      stored := User(0, name, email, password, false);
      if fault.Some? {
        return stored, Some(StorageFailure(fault.value));
      }
      if EmailHeld(rows, email) {
        return stored, Some(UniqueViolation);
      }
      InsertedRowIsFound(rows, nextId, name, email, password);
      stored := stored.(id := nextId);
      rows := rows[nextId := stored];
      nextId := nextId + 1;
      err := None;
    }

    /** `FindAll()`: every live row, each once, by ascending id. */
    method FindAll(fault: Option<string>) returns (users: seq<User>, err: Option<Error>)
      requires Valid()
      ensures Listing(users, err) == FindLive(rows, nextId, fault)
      ensures err.None? <==> fault.None?
      ensures forall id: nat :: err.None? && IsLive(rows, id) ==> rows[id] in users
      ensures forall k :: 0 <= k < |users| ==> IsLive(rows, users[k].id) && rows[users[k].id] == users[k]
    {
      if fault.Some? {
        return [], Some(StorageFailure(fault.value));
      }
      FindLiveMeaning(rows, nextId);
      users := LiveBelow(rows, nextId);
      err := None;
    }

    /** `FindByID(id)`: the live row with that id, or the not-found sentinel
        and a pointer to a zero record. */
    method FindByID(id: nat, fault: Option<string>) returns (user: User, err: Option<Error>)
      ensures Lookup(user, err) == FindId(rows, id, fault)
      ensures err.None? <==> fault.None? && IsLive(rows, id)
      ensures err.None? ==> user == rows[id]
      ensures fault.None? && !IsLive(rows, id) ==> user == Zero && err == Some(RecordNotFound)
    {
      if fault.Some? {
        return Zero, Some(StorageFailure(fault.value));
      }
      if IsLive(rows, id) {
        user, err := rows[id], None;
      } else {
        user, err := Zero, Some(RecordNotFound);
      }
    }

    /** `FindByEmail(email)`: the live row holding that email, or the
        not-found sentinel and a pointer to a zero record. */
    method FindByEmail(email: string, fault: Option<string>) returns (user: User, err: Option<Error>)
      requires Valid()
      ensures Lookup(user, err) == FindEmail(rows, nextId, email, fault)
      ensures err.None? <==> fault.None? && LiveHolder(rows, email)
      ensures err.None? ==> LiveWithEmail(rows, user.id, email) && rows[user.id] == user
      ensures fault.None? && !LiveHolder(rows, email) ==> user == Zero && err == Some(RecordNotFound)
    {
      FindEmailMeaning(rows, nextId, email, fault);
      if fault.Some? {
        return Zero, Some(StorageFailure(fault.value));
      }
      var first := FirstWithEmail(rows, email, nextId);
      if first.Some? {
        user, err := rows[first.value], None;
      } else {
        user, err := Zero, Some(RecordNotFound);
      }
    }

    /** `Update(user)`, GORM's `Save`: overwrites every field of the row keyed
        by the record's id; no other row changes. A record whose email another
        row holds is refused by the unique index. A record whose id has no row
        leaves the table as it is. */
    method Update(user: User, fault: Option<string>) returns (err: Option<Error>)
      requires Valid()
      modifies this
      ensures Valid()
      ensures nextId == old(nextId)
      ensures fault.Some? ==> err == Some(StorageFailure(fault.value)) && rows == old(rows)
      ensures fault.None? && user.id in old(rows) && EmailHeldByOther(old(rows), user.email, user.id) ==>
                err == Some(UniqueViolation) && rows == old(rows)
      ensures fault.None? && user.id in old(rows) && !EmailHeldByOther(old(rows), user.email, user.id) ==>
                err.None? && rows == old(rows)[user.id := user]
      ensures fault.None? && user.id !in old(rows) ==> err.None? && rows == old(rows)
    {
      if fault.Some? {
        return Some(StorageFailure(fault.value));
      }
      if user.id !in rows {
        return None;
      }
      if EmailHeldByOther(rows, user.email, user.id) {
        return Some(UniqueViolation);
      }
      SaveKeepsInvariant(rows, nextId, user);
      rows := rows[user.id := user];
      err := None;
    }

    /** `Delete(id)`: soft-deletes the live row with that id. It reports no
        error for an id without a live row: the rows affected are not looked at. */
    method Delete(id: nat, fault: Option<string>) returns (err: Option<Error>)
      requires Valid()
      modifies this
      ensures Valid()
      ensures nextId == old(nextId)
      ensures fault.Some? ==> err == Some(StorageFailure(fault.value)) && rows == old(rows)
      ensures fault.None? ==> err.None? && rows == SoftDeleted(old(rows), id)
    {
      if fault.Some? {
        return Some(StorageFailure(fault.value));
      }
      if IsLive(rows, id) {
        SoftDeleteHides(rows, nextId, id);
        rows := rows[id := rows[id].(deleted := true)];
      }
      err := None;
    }
  }
}
