/** The user service (internal/auth/service/user_service.go): the business
    rules on top of the repository. */
module Service {
  import opened Errors
  import opened Entity
  import opened Repository

  /** What bcrypt.GenerateFromPassword gives back: a digest, or an error. */
  datatype Hashed = Digest(text: string) | Refused(detail: string)

  /** The error CreateUser returns, None on success, from the table it starts
      on: the email probe, then the hash, then the insert. */
  function CreateOutcome(rows: map<nat, User>, nextId: nat, email: string, hashed: Hashed,
                         probeFault: Option<string>, insertFault: Option<string>): Option<Error>
  {
    var probe := FindEmail(rows, nextId, email, probeFault);
    if probe.err.None? then Some(EmailExists)
    else if probe.err != Some(RecordNotFound) then probe.err
    else if hashed.Refused? then Some(HashFailure(hashed.detail))
    else InsertOutcome(rows, email, insertFault)
  }

  /** The error UpdateUser returns, None on success. */
  function UpdateOutcome(rows: map<nat, User>, id: nat, lookupFault: Option<string>,
                         saveFault: Option<string>): Option<Error>
  {
    var found := FindId(rows, id, lookupFault);
    if found.err.Some? then found.err
    else if saveFault.Some? then Some(StorageFailure(saveFault.value))
    else None
  }

  /** A live holder of the email makes CreateUser fail with ErrEmailExists,
      unless the probe itself fails; a probe failure other than not-found is
      passed on unchanged. */
  lemma CreateRejectsTakenEmail(rows: map<nat, User>, nextId: nat, email: string, hashed: Hashed,
                                probeFault: Option<string>, insertFault: Option<string>)
    requires TableInvariant(rows, nextId)
    ensures probeFault.Some? ==>
              CreateOutcome(rows, nextId, email, hashed, probeFault, insertFault) == Some(StorageFailure(probeFault.value))
    ensures probeFault.None? ==>
              (CreateOutcome(rows, nextId, email, hashed, probeFault, insertFault) == Some(EmailExists)
               <==> LiveHolder(rows, email))
  {
    FindEmailMeaning(rows, nextId, email, probeFault);
  }

  /** CreateUser succeeds exactly when the probe and the insert meet no
      storage failure, the hash is computed, and no row at all, live or
      soft-deleted, holds the email. */
  lemma CreateSucceedsExactly(rows: map<nat, User>, nextId: nat, email: string, hashed: Hashed,
                              probeFault: Option<string>, insertFault: Option<string>)
    requires TableInvariant(rows, nextId)
    ensures CreateOutcome(rows, nextId, email, hashed, probeFault, insertFault).None?
            <==> probeFault.None? && hashed.Digest? && insertFault.None? && !EmailHeld(rows, email)
  {
    FindEmailMeaning(rows, nextId, email, probeFault);
    if LiveHolder(rows, email) {
      var id: nat :| LiveWithEmail(rows, id, email);
      assert EmailHeld(rows, email) by { assert id in rows && rows[id].email == email; }
    }
  }

  /** The email of a soft-deleted user passes the probe but is refused by the
      unique index at the insert: the error is the store's, not ErrEmailExists. */
  lemma CreateWithDeletedUsersEmail(rows: map<nat, User>, nextId: nat, id: nat, hashed: Hashed)
    requires TableInvariant(rows, nextId)
    requires id in rows && rows[id].deleted
    requires hashed.Digest?
    ensures CreateOutcome(rows, nextId, rows[id].email, hashed, None, None) == Some(UniqueViolation)
  {
    var email := rows[id].email;
    FindEmailMeaning(rows, nextId, email, None);
    assert !LiveHolder(rows, email) by {
      assert forall j :: j in rows && j != id ==> rows[j].email != email;
    }
  }

  /** UpdateUser fails with the lookup's error when there is no live row with
      the id, and otherwise succeeds unless the save meets a storage failure. */
  lemma UpdateFailsOnlyOnLookupOrSave(rows: map<nat, User>, id: nat, lookupFault: Option<string>,
                                      saveFault: Option<string>)
    ensures lookupFault.None? && !IsLive(rows, id) ==>
              UpdateOutcome(rows, id, lookupFault, saveFault) == Some(RecordNotFound)
    ensures UpdateOutcome(rows, id, lookupFault, saveFault).None?
            <==> lookupFault.None? && IsLive(rows, id) && saveFault.None?
  {
  }

  /** The service; the password hasher stands for bcrypt at its default cost,
      salted by the per-call `salt`. */
  class UserService {
    const repo: UserRepository
    const hash: (string, nat) -> Hashed

    constructor (repo: UserRepository, hash: (string, nat) -> Hashed)
      ensures this.repo == repo && this.hash == hash
    {
      this.repo := repo;
      this.hash := hash;
    }

    /** CreateUser: probe the email, hash the password, insert. On success the
        new row holds the digest, never the plaintext argument; on any error
        no user is returned and nothing is inserted. */
    method CreateUser(name: string, email: string, password: string, salt: nat,
                      probeFault: Option<string>, insertFault: Option<string>)
      returns (user: Option<User>, err: Option<Error>)
      requires repo.Valid()
      modifies repo
      ensures repo.Valid()
      ensures err == CreateOutcome(old(repo.rows), old(repo.nextId), email, hash(password, salt),
                                   probeFault, insertFault)
      ensures err.Some? ==> user.None? && repo.rows == old(repo.rows) && repo.nextId == old(repo.nextId)
      ensures err.None? ==>
                && hash(password, salt).Digest?
                && user == Some(User(old(repo.nextId), name, email, hash(password, salt).text, false))
                && old(repo.nextId) !in old(repo.rows)
                && repo.rows == old(repo.rows)[old(repo.nextId) := user.value]
                && repo.nextId == old(repo.nextId) + 1
    {
      var _, probeErr := repo.FindByEmail(email, probeFault);
      if probeErr.None? {
        return None, Some(EmailExists);
      }
      if probeErr != Some(RecordNotFound) {
        return None, probeErr;
      }
      var hashed := hash(password, salt);
      if hashed.Refused? {
        return None, Some(HashFailure(hashed.detail));
      }
      var stored, createErr := repo.Create(name, email, hashed.text, insertFault);
      if createErr.Some? {
        return None, createErr;
      }
      user, err := Some(stored), None;
    }

    /** GetAllUsers: what the repository's FindAll returns. */
    method GetAllUsers(fault: Option<string>) returns (users: seq<User>, err: Option<Error>)
      requires repo.Valid()
      ensures Listing(users, err) == FindLive(repo.rows, repo.nextId, fault)
    {
      users, err := repo.FindAll(fault);
    }

    /** GetUserByID: what the repository's FindByID returns. */
    method GetUserByID(id: nat, fault: Option<string>) returns (user: User, err: Option<Error>)
      ensures Lookup(user, err) == FindId(repo.rows, id, fault)
    {
      user, err := repo.FindByID(id, fault);
    }

    /** UpdateUser: look the row up, change its name and write it back. Id,
        email, password and the soft-delete marker stay as they were. */
    method UpdateUser(id: nat, name: string, lookupFault: Option<string>, saveFault: Option<string>)
      returns (user: Option<User>, err: Option<Error>)
      requires repo.Valid()
      modifies repo
      ensures repo.Valid()
      ensures repo.nextId == old(repo.nextId)
      ensures err == UpdateOutcome(old(repo.rows), id, lookupFault, saveFault)
      ensures err.Some? ==> user.None? && repo.rows == old(repo.rows)
      ensures err.None? ==>
                && IsLive(old(repo.rows), id)
                && user == Some(old(repo.rows)[id].(name := name))
                && repo.rows == old(repo.rows)[id := user.value]
    {
      var found, findErr := repo.FindByID(id, lookupFault);
      if findErr.Some? {
        return None, findErr;
      }
      found := found.(name := name);
      assert !EmailHeldByOther(repo.rows, found.email, found.id) by {
        assert forall j :: j in repo.rows && j != id ==> repo.rows[j].email != found.email;
      }
      var saveErr := repo.Update(found, saveFault);
      if saveErr.Some? {
        return None, saveErr;
      }
      user, err := Some(found), None;
    }

    /** DeleteUser: what the repository's Delete returns and does. */
    method DeleteUser(id: nat, fault: Option<string>) returns (err: Option<Error>)
      requires repo.Valid()
      modifies repo
      ensures repo.Valid()
      ensures repo.nextId == old(repo.nextId)
      ensures fault.Some? ==> err == Some(StorageFailure(fault.value)) && repo.rows == old(repo.rows)
      ensures fault.None? ==> err.None? && repo.rows == SoftDeleted(old(repo.rows), id)
    {
      err := repo.Delete(id, fault);
    }
  }
}
