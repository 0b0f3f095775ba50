/** The HTTP handler (internal/auth/handler/user_handler.go), without the gin
    plumbing: the path-id parser, the request-body rules, the choice of status
    code, and the order of the checks in each of the five handler methods. */
module Handler {
  import opened Errors
  import opened Entity
  import opened Repository
  import opened Service

  // ---------------------------------------------------------------------
  // The path id: strconv.ParseUint(s, 10, 32)
  // ---------------------------------------------------------------------

  const MaxUint32: nat := 4294967295

  datatype ParseResult = Parsed(value: nat) | SyntaxError | RangeError

  predicate IsDigit(c: char) {
    '0' <= c <= '9'
  }

  function DigitValue(c: char): nat
    requires IsDigit(c)
  {
    c as int - '0' as int
  }

  predicate AllDigits(s: string) {
    forall i :: 0 <= i < |s| ==> IsDigit(s[i])
  }

  function Pow10(k: nat): (p: nat)
    ensures p >= 1
  {
    if k == 0 then 1 else 10 * Pow10(k - 1)
  }

  /** The positional value of a digit string: digit i weighs 10^(|s|-1-i). */
  function DecimalValue(s: string): nat
    requires AllDigits(s)
  {
    if s == [] then 0 else DigitValue(s[0]) * Pow10(|s| - 1) + DecimalValue(s[1..])
  }

  /** strconv's scan for base 10 and a 32-bit size, left to right: a byte that
      is not a decimal digit is a syntax error (signs and '_' included), and a
      value that leaves 32 bits is a range error as soon as it does. */
  function Scan(s: string, acc: nat): ParseResult
  {
    if s == [] then Parsed(acc)
    else if !IsDigit(s[0]) then SyntaxError
    else
      var n := acc * 10 + DigitValue(s[0]);
      if n > MaxUint32 then RangeError else Scan(s[1..], n)
  }

  /** `strconv.ParseUint(s, 10, 32)`; the empty string is a syntax error. */
  function ParseUint32(s: string): ParseResult
  {
    if s == [] then SyntaxError else Scan(s, 0)
  }

  /** (a * 10 + d) * p regrouped: the arithmetic of one scanned digit. */
  lemma Regroup(a: nat, d: nat, p: nat, r: nat)
    ensures a * (10 * p) + (d * p + r) == (a * 10 + d) * p + r
  {
  }

  lemma AtLeastFactor(n: nat, p: nat)
    requires p >= 1
    ensures n * p >= n
  {
  }

  lemma AllDigitsTail(s: string)
    requires s != [] && IsDigit(s[0])
    ensures AllDigits(s) <==> AllDigits(s[1..])
  {
    assert forall i :: 0 <= i < |s[1..]| ==> s[1..][i] == s[i + 1];
  }

  /** Scanning `s` after the digits worth `acc` succeeds exactly when `s` is all
      digits and the whole number fits in 32 bits, and then yields that number. */
  lemma {:induction false} ScanMeaning(s: string, acc: nat)
    requires acc <= MaxUint32
    ensures Scan(s, acc).Parsed? <==> AllDigits(s) && acc * Pow10(|s|) + DecimalValue(s) <= MaxUint32
    ensures Scan(s, acc).Parsed? ==> AllDigits(s) && Scan(s, acc).value == acc * Pow10(|s|) + DecimalValue(s)
  {
    if s != [] && IsDigit(s[0]) {
      var d, rest := DigitValue(s[0]), s[1..];
      var n := acc * 10 + d;
      var p := Pow10(|rest|);
      AllDigitsTail(s);
      assert Scan(s, acc) == if n > MaxUint32 then RangeError else Scan(rest, n);
      if AllDigits(s) {
        var r := DecimalValue(rest);
        assert acc * Pow10(|s|) + DecimalValue(s) == n * p + r by {
          assert Pow10(|s|) == 10 * p;
          assert DecimalValue(s) == d * p + r;
          Regroup(acc, d, p, r);
        }
        AtLeastFactor(n, p);
      }
      if n <= MaxUint32 {
        ScanMeaning(rest, n);
      }
    }
  }

  /** A path id is accepted exactly when it is a non-empty string of decimal
      digits whose value is at most 4294967295; it then parses to that value.
      A sign, a space, an underscore or the empty string are refused. */
  lemma ParseUint32Exactly(s: string)
    ensures ParseUint32(s).Parsed? <==> |s| > 0 && AllDigits(s) && DecimalValue(s) <= MaxUint32
    ensures ParseUint32(s).Parsed? ==> AllDigits(s) && ParseUint32(s).value == DecimalValue(s)
  {
    if s != [] {
      ScanMeaning(s, 0);
    }
  }

  function DigitChar(d: nat): (c: char)
    requires d < 10
    ensures IsDigit(c) && DigitValue(c) == d
  {
    ('0' as int + d) as char
  }

  /** The shortest decimal numeral of `n`, as a client writes an id in a path. */
  function Decimal(n: nat): string
  {
    if n < 10 then [DigitChar(n)] else Decimal(n / 10) + [DigitChar(n % 10)]
  }

  /** Scanning a concatenation scans the first part, then goes on from the
      value it reached; an error in the first part ends the scan. */
  lemma {:induction false} ScanAppend(s: string, t: string, acc: nat)
    ensures Scan(s + t, acc) == if Scan(s, acc).Parsed? then Scan(t, Scan(s, acc).value) else Scan(s, acc)
  {
    if s != [] {
      assert (s + t)[0] == s[0] && (s + t)[1..] == s[1..] + t;
      if IsDigit(s[0]) {
        ScanAppend(s[1..], t, acc * 10 + DigitValue(s[0]));
      }
    } else {
      assert s + t == t;
    }
  }

  lemma {:induction false} ScanDecimal(n: nat)
    requires n <= MaxUint32
    ensures Scan(Decimal(n), 0) == Parsed(n)
  {
    if n >= 10 {
      ScanDecimal(n / 10);
      ScanAppend(Decimal(n / 10), [DigitChar(n % 10)], 0);
    }
  }

  /** Every id the parser can produce, written in decimal, parses back to itself. */
  lemma DecimalRoundTrip(n: nat)
    requires n <= MaxUint32
    ensures ParseUint32(Decimal(n)) == Parsed(n)
  {
    ScanDecimal(n);
  }

  // ---------------------------------------------------------------------
  // Request bodies: ShouldBindJSON with the binding tags
  // ---------------------------------------------------------------------

  /** A request body after JSON decoding: Malformed when it does not decode
      into the input struct; a field that is absent decodes as "". */
  datatype Body<T> = Malformed | Decoded(input: T)

  datatype CreateUserInput = CreateUserInput(name: string, email: string, password: string)

  datatype UpdateUserInput = UpdateUserInput(name: string)

  /** `binding:"required,min=8"`: min counts characters. */
  const MinPasswordLength: nat := 8

  /** The binding tags of CreateUserInput: name required; email required and an
      address by the validator's rule `isEmail`; password required and at least
      eight characters long. */
  predicate CreateInputValid(input: CreateUserInput, isEmail: string -> bool) {
    && input.name != ""
    && input.email != "" && isEmail(input.email)
    && input.password != "" && |input.password| >= MinPasswordLength
  }

  /** The binding tag of UpdateUserInput: name required. */
  predicate UpdateInputValid(input: UpdateUserInput) {
    input.name != ""
  }

  // ---------------------------------------------------------------------
  // Responses and status codes
  // ---------------------------------------------------------------------

  /** The JSON written with the status: a user, an array of users,
      `{"error": ...}`, the binder's own error text, or `{"message": ...}`. */
  datatype Payload =
    | OneUser(user: UserView)
    | ManyUsers(users: seq<UserView>)
    | ErrorText(error: string)
    | BindError
    | MessageText(message: string)

  datatype Response = Response(status: nat, payload: Payload)

  const BadRequest: nat := 400

  /** POST /users: 409 for ErrEmailExists, 500 for any other error, 201 on success. */
  function CreateStatus(err: Option<Error>): (code: nat)
    ensures code == 201 <==> err.None?
    ensures code == 409 <==> err == Some(EmailExists)
    ensures code == 500 <==> err.Some? && err != Some(EmailExists)
  {
    if err.None? then 201 else if err.value == EmailExists then 409 else 500
  }

  /** GET /users: 500 for any error, 200 on success. */
  function ListStatus(err: Option<Error>): (code: nat)
    ensures code == 200 <==> err.None?
    ensures code == 500 <==> err.Some?
  {
    if err.None? then 200 else 500
  }

  /** GET, PUT and DELETE /users/:id: 404 for any service error, whatever it
      is, and 200 on success. */
  function ByIdStatus(err: Option<Error>): (code: nat)
    ensures code == 200 <==> err.None?
    ensures code == 404 <==> err.Some?
  {
    if err.None? then 200 else 404
  }

  /** With a body that binds, POST /users answers 201 exactly when no row at
      all holds the email and nothing else fails; 409 exactly when a live user
      holds it (the probe having worked); and 500 for the email of a
      soft-deleted user, which passes the probe and is refused by the index. */
  lemma CreateStatusMeaning(rows: map<nat, User>, nextId: nat, email: string, hashed: Hashed,
                            probeFault: Option<string>, insertFault: Option<string>)
    requires TableInvariant(rows, nextId)
    ensures var code := CreateStatus(CreateOutcome(rows, nextId, email, hashed, probeFault, insertFault));
      && (code == 201 <==> probeFault.None? && hashed.Digest? && insertFault.None? && !EmailHeld(rows, email))
      && (probeFault.None? ==> (code == 409 <==> LiveHolder(rows, email)))
      && (probeFault.Some? ==> code == 500)
      && (forall id :: id in rows && rows[id].deleted && rows[id].email == email && hashed.Digest? ==>
            CreateStatus(CreateOutcome(rows, nextId, email, hashed, None, None)) == 500)
  {
    CreateRejectsTakenEmail(rows, nextId, email, hashed, probeFault, insertFault);
    CreateSucceedsExactly(rows, nextId, email, hashed, probeFault, insertFault);
    forall id | id in rows && rows[id].deleted && rows[id].email == email && hashed.Digest?
      ensures CreateStatus(CreateOutcome(rows, nextId, email, hashed, None, None)) == 500
    {
      CreateWithDeletedUsersEmail(rows, nextId, id, hashed);
    }
  }

  // ---------------------------------------------------------------------
  // The handler methods
  // ---------------------------------------------------------------------

  /** The handler; `isEmail` is the validator's email rule. Each method takes
      the request (path id, decoded body) and the storage failures and salt
      the calls underneath meet, and returns the response it writes. The ghost
      result `called` tells whether the service was invoked. */
  class UserHandler {
    const service: UserService
    const isEmail: string -> bool

    constructor (service: UserService, isEmail: string -> bool)
      ensures this.service == service && this.isEmail == isEmail
    {
      this.service := service;
      this.isEmail := isEmail;
    }

    /** POST /users. */
    method CreateUser(body: Body<CreateUserInput>, salt: nat, probeFault: Option<string>,
                      insertFault: Option<string>)
      returns (resp: Response, ghost called: bool)
      requires service.repo.Valid()
      modifies service.repo
      ensures service.repo.Valid()
      ensures called <==> body.Decoded? && CreateInputValid(body.input, isEmail)
      ensures !called ==> && resp == Response(BadRequest, BindError)
                          && service.repo.rows == old(service.repo.rows)
                          && service.repo.nextId == old(service.repo.nextId)
      ensures called ==>
                var input := body.input;
                var hashed := service.hash(input.password, salt);
                var err := CreateOutcome(old(service.repo.rows), old(service.repo.nextId), input.email,
                                         hashed, probeFault, insertFault);
                && resp.status == CreateStatus(err)
                && (err == Some(EmailExists) ==> resp.payload == ErrorText("Email already in use"))
                && (err.Some? && err != Some(EmailExists) ==> resp.payload == ErrorText("Failed to create user"))
                && (err.Some? ==> && service.repo.rows == old(service.repo.rows)
                                  && service.repo.nextId == old(service.repo.nextId))
                && (err.None? ==>
                      var u := User(old(service.repo.nextId), input.name, input.email, hashed.text, false);
                      && hashed.Digest?
                      && resp.payload == OneUser(View(u))
                      && service.repo.rows == old(service.repo.rows)[u.id := u]
                      && service.repo.nextId == old(service.repo.nextId) + 1)
    {
      if body.Malformed? || !CreateInputValid(body.input, isEmail) {
        return Response(BadRequest, BindError), false;
      }
      called := true;
      var input := body.input;
      var user, err := service.CreateUser(input.name, input.email, input.password, salt, probeFault, insertFault);
      if err.Some? {
        if err.value == EmailExists {
          return Response(409, ErrorText("Email already in use")), called;
        }
        return Response(500, ErrorText("Failed to create user")), called;
      }
      resp := Response(201, OneUser(View(user.value)));
    }

    /** GET /users. */
    method GetAllUsers(fault: Option<string>) returns (resp: Response)
      requires service.repo.Valid()
      ensures var listed := FindLive(service.repo.rows, service.repo.nextId, fault);
        && resp.status == ListStatus(listed.err)
        && (listed.err.Some? ==> resp.payload == ErrorText("Failed to retrieve users"))
        && (listed.err.None? ==> resp.payload == ManyUsers(Views(listed.users)))
    {
      var users, err := service.GetAllUsers(fault);
      if err.Some? {
        return Response(500, ErrorText("Failed to retrieve users"));
      }
      resp := Response(200, ManyUsers(Views(users)));
    }

    /** GET /users/:id. */
    method GetUserByID(idParam: string, fault: Option<string>) returns (resp: Response, ghost called: bool)
      ensures called <==> ParseUint32(idParam).Parsed?
      ensures !ParseUint32(idParam).Parsed? ==> resp == Response(BadRequest, ErrorText("Invalid user ID"))
      ensures ParseUint32(idParam).Parsed? ==>
                var found := FindId(service.repo.rows, ParseUint32(idParam).value, fault);
                && resp.status == ByIdStatus(found.err)
                && (found.err.Some? ==> resp.payload == ErrorText("User not found"))
                && (found.err.None? ==> resp.payload == OneUser(View(found.user)))
    {
      var parsed := ParseUint32(idParam);
      if !parsed.Parsed? {
        return Response(BadRequest, ErrorText("Invalid user ID")), false;
      }
      called := true;
      var user, err := service.GetUserByID(parsed.value, fault);
      if err.Some? {
        return Response(404, ErrorText("User not found")), called;
      }
      resp := Response(200, OneUser(View(user)));
    }

    /** PUT /users/:id: the id is checked before the body. */
    method UpdateUser(idParam: string, body: Body<UpdateUserInput>, lookupFault: Option<string>,
                      saveFault: Option<string>)
      returns (resp: Response, ghost called: bool)
      requires service.repo.Valid()
      modifies service.repo
      ensures service.repo.Valid()
      ensures service.repo.nextId == old(service.repo.nextId)
      ensures called <==> ParseUint32(idParam).Parsed? && body.Decoded? && UpdateInputValid(body.input)
      ensures !ParseUint32(idParam).Parsed? ==> resp == Response(BadRequest, ErrorText("Invalid user ID"))
      ensures ParseUint32(idParam).Parsed? && !called ==> resp == Response(BadRequest, BindError)
      ensures !called ==> service.repo.rows == old(service.repo.rows)
      ensures called ==>
                var id := ParseUint32(idParam).value;
                var err := UpdateOutcome(old(service.repo.rows), id, lookupFault, saveFault);
                && resp.status == ByIdStatus(err)
                && (err.Some? ==> && resp.payload == ErrorText("User not found or failed to update")
                                  && service.repo.rows == old(service.repo.rows))
                && (err.None? ==>
                      var u := old(service.repo.rows)[id].(name := body.input.name);
                      && resp.payload == OneUser(View(u))
                      && service.repo.rows == old(service.repo.rows)[id := u])
    {
      var parsed := ParseUint32(idParam);
      if !parsed.Parsed? {
        return Response(BadRequest, ErrorText("Invalid user ID")), false;
      }
      if body.Malformed? || !UpdateInputValid(body.input) {
        return Response(BadRequest, BindError), false;
      }
      called := true;
      var user, err := service.UpdateUser(parsed.value, body.input.name, lookupFault, saveFault);
      if err.Some? {
        return Response(404, ErrorText("User not found or failed to update")), called;
      }
      resp := Response(200, OneUser(View(user.value)));
    }

    /** DELETE /users/:id. An id with no live row is answered like a deleted
        one: the store reports no error for it. */
    method DeleteUser(idParam: string, fault: Option<string>) returns (resp: Response, ghost called: bool)
      requires service.repo.Valid()
      modifies service.repo
      ensures service.repo.Valid()
      ensures service.repo.nextId == old(service.repo.nextId)
      ensures called <==> ParseUint32(idParam).Parsed?
      ensures !called ==> && resp == Response(BadRequest, ErrorText("Invalid user ID"))
                          && service.repo.rows == old(service.repo.rows)
      ensures called && fault.Some? ==>
                && resp == Response(404, ErrorText("User not found or failed to delete"))
                && service.repo.rows == old(service.repo.rows)
      ensures called && fault.None? ==>
                && resp == Response(200, MessageText("User deleted successfully"))
                && service.repo.rows == SoftDeleted(old(service.repo.rows), ParseUint32(idParam).value)
    {
      var parsed := ParseUint32(idParam);
      if !parsed.Parsed? {
        return Response(BadRequest, ErrorText("Invalid user ID")), false;
      }
      called := true;
      var err := service.DeleteUser(parsed.value, fault);
      if err.Some? {
        return Response(404, ErrorText("User not found or failed to delete")), called;
      }
      resp := Response(200, MessageText("User deleted successfully"));
    }
  }
}
