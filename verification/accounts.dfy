/**
 * The account routes: register inserts one user (role "admin" only for the bootstrap
 * address) and login checks a password against the stored hash. Hashing, hash comparison
 * and token signing are library calls, given as the parameters `hash`, `matches` and `sign`.
 */
module Accounts {
  import opened Wrappers
  import opened Http

  const AdminEmail := "admin@shop.com"
  const MissingFields := "Please enter all fields"
  const Duplicate := "User already exists"
  const BadCredentials := "Invalid credentials"

  /** A row of the `users` table. */
  datatype UserRow = UserRow(
    id: int,
    name: string,
    email: string,
    mobile: string,
    passwordHash: string,
    role: string)

  /** The user object a reply carries: never the hash; `mobile` only in the register reply. */
  datatype UserView = UserView(id: int, name: string, email: string, mobile: Option<string>, role: string)

  /** What `generateToken` signs: id, email and role, valid for 30 days. */
  datatype Claims = Claims(id: int, email: string, role: string, expiresInDays: int)

  /** The JSON body `{ user, token }`. */
  datatype Session = Session(user: UserView, token: string)

  /** The role register assigns: "admin" for the bootstrap address and "user" for every other. */
  function RoleFor(email: string): (role: string)
    ensures role == "admin" <==> email == AdminEmail
    ensures role == "admin" || role == "user"
  {
    if email == AdminEmail then "admin" else "user"
  }

  /** `generateToken(user)`: the signature over the user's id, email and role only. */
  function GenerateToken(u: UserView, sign: Claims -> string): string
  {
    sign(Claims(u.id, u.email, u.role, 30))
  }

  /** Two users that agree on id, email and role get the same token: name and mobile are not signed. */
  lemma TokenIgnoresProfile(u: UserView, v: UserView, sign: Claims -> string)
    requires u.id == v.id && u.email == v.email && u.role == v.role
    ensures GenerateToken(u, sign) == GenerateToken(v, sign)
  {
  }

  /** `where({ email }).first()`: the first row with this email. */
  function FindByEmail(rows: seq<UserRow>, email: string): (r: Option<UserRow>)
    ensures r.Some? ==> r.value in rows && r.value.email == email
    ensures r.None? <==> forall i :: 0 <= i < |rows| ==> rows[i].email != email
  {
    if rows == [] then None
    else if rows[0].email == email then Some(rows[0])
    else FindByEmail(rows[1..], email)
  }

  /** The unique constraint on `users.email`. */
  ghost predicate EmailsUnique(rows: seq<UserRow>)
  {
    forall i, j :: 0 <= i < j < |rows| ==> rows[i].email != rows[j].email
  }

  /** With unique emails, a lookup finds the one row with that email. */
  lemma {:induction false} FindUnique(rows: seq<UserRow>, i: int)
    requires EmailsUnique(rows) && 0 <= i < |rows|
    ensures FindByEmail(rows, rows[i].email) == Some(rows[i])
  {
    if i > 0 {
      assert rows[0].email != rows[i].email;
      assert EmailsUnique(rows[1..]) by {
        forall a, b | 0 <= a < b < |rows[1..]| ensures rows[1..][a].email != rows[1..][b].email {
          assert rows[1..][a] == rows[a + 1] && rows[1..][b] == rows[b + 1];
        }
      }
      FindUnique(rows[1..], i - 1);
    }
  }

  /**
   * POST /login: 400 when email or password is empty; the same 401 "Invalid credentials"
   * for an unknown email and for a wrong password; otherwise 200 with `{id, name, email,
   * role}` and a token. It only reads the table.
   */
  function Login(rows: seq<UserRow>, email: string, password: string,
                 matches: (string, string) -> bool, sign: Claims -> string): (r: Reply<Session>)
    ensures email == "" || password == "" ==> r == Fail(400, MissingFields)
    ensures email != "" && password != "" && r.Fail? ==> r == Fail(401, BadCredentials)
    ensures r.Ok? <==>
      && email != "" && password != ""
      && FindByEmail(rows, email).Some?
      && matches(password, FindByEmail(rows, email).value.passwordHash)
    ensures r.Ok? ==>
      var u := FindByEmail(rows, email).value;
      && r.status == 200
      && r.body.user == UserView(u.id, u.name, u.email, None, u.role)
      && r.body.token == sign(Claims(u.id, u.email, u.role, 30))
  {
    if email == "" || password == "" then
      Fail(400, MissingFields)
    else
      var found := FindByEmail(rows, email);
      if found.Some? && matches(password, found.value.passwordHash) then
        var u := found.value;
        var view := UserView(u.id, u.name, u.email, None, u.role);
        Ok(200, Session(view, GenerateToken(view, sign)))
      else
        Fail(401, BadCredentials)
  }

  /** The `users` table. */
  class Users {
    var rows: seq<UserRow>
    var nextId: int

    ghost predicate Valid()
      reads this
    {
      EmailsUnique(rows) && forall i :: 0 <= i < |rows| ==> rows[i].id < nextId
    }

    constructor ()
      ensures Valid() && rows == [] && nextId == 1
    {
      rows := [];
      nextId := 1;
    }

    /**
     * POST /register: 400 "Please enter all fields" when a field is empty and 400 "User
     * already exists" for a known email, both without change; otherwise exactly one row is
     * appended, holding `hash(password)` and the role for the email, and the reply is 201
     * with `{id, name, email, mobile, role}` and its token.
     */
    method Register(name: string, email: string, password: string, mobile: string,
                    hash: string -> string, sign: Claims -> string) returns (r: Reply<Session>)
      requires Valid()
      modifies this
      ensures Valid()
      ensures name == "" || email == "" || password == "" || mobile == "" ==>
        r == Fail(400, MissingFields) && rows == old(rows) && nextId == old(nextId)
      ensures name != "" && email != "" && password != "" && mobile != "" && FindByEmail(old(rows), email).Some? ==>
        r == Fail(400, Duplicate) && rows == old(rows) && nextId == old(nextId)
      ensures name != "" && email != "" && password != "" && mobile != "" && FindByEmail(old(rows), email).None? ==>
        var id := old(nextId);
        var view := UserView(id, name, email, Some(mobile), RoleFor(email));
        && rows == old(rows) + [UserRow(id, name, email, mobile, hash(password), RoleFor(email))]
        && r == Ok(201, Session(view, sign(Claims(id, email, RoleFor(email), 30))))
    {
      if name == "" || email == "" || password == "" || mobile == "" {
        return Fail(400, MissingFields);
      }
      if FindByEmail(rows, email).Some? {
        return Fail(400, Duplicate);
      }
      var passwordHash := hash(password);
      var role := RoleFor(email);
      var id := nextId;
      rows := rows + [UserRow(id, name, email, mobile, passwordHash, role)];
      nextId := nextId + 1;
      var user := UserView(id, name, email, Some(mobile), role);
      r := Ok(201, Session(user, GenerateToken(user, sign)));
    }
  }

  /**
   * A user that registration appended can log in with the password it registered with
   * (given that the hash comparison accepts it): the reply carries the role registration
   * assigned, in the user object and in the signed claims.
   */
  lemma {:induction false} RegisterThenLogin(rows: seq<UserRow>, row: UserRow, password: string,
                                             matches: (string, string) -> bool, sign: Claims -> string)
    requires EmailsUnique(rows + [row])
    requires row.email != "" && password != ""
    requires row.role == RoleFor(row.email)
    requires matches(password, row.passwordHash)
    ensures Login(rows + [row], row.email, password, matches, sign) ==
      Ok(200, Session(UserView(row.id, row.name, row.email, None, RoleFor(row.email)),
                      sign(Claims(row.id, row.email, RoleFor(row.email), 30))))
  {
    FindUnique(rows + [row], |rows|);
  }
}
