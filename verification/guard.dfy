/**
 * The authentication middleware: `protect` reads the bearer token from the Authorization
 * header and verifies it; `admin` lets only callers whose role is "admin" through.
 * Token verification (a JWT library call) is the parameter `verify`.
 */
module Guard {
  import opened Wrappers
  import opened Text

  /** The decoded token payload attached to the request as `req.user`. */
  datatype Identity = Identity(id: int, email: string, role: string)

  /** What a middleware decides: run the next handler with this caller, or answer now. */
  datatype Gate =
    | Next(user: Identity)
    | Reject(status: int, message: string)

  const NoToken := "Not authorized, no token"
  const TokenFailed := "Not authorized, token failed"
  const NotAdmin := "Not authorized as an admin"

  /** `header.split(' ')[1]`: the second space-separated field, if there is one. */
  function BearerToken(header: string): (t: Option<string>)
    ensures t.Some? ==> ' ' !in t.value
    ensures t.None? <==> ' ' !in header
  {
    SplitOneField(header);
    var fields := Split(header);
    if |fields| >= 2 then Some(fields[1]) else None
  }

  /**
   * `protect`. A missing header, or one not starting with "Bearer", is refused with
   * "no token"; otherwise the second field is verified, and a missing or empty field or a
   * failed verification is refused with "token failed".
   */
  function Protect(header: Option<string>, verify: string -> Option<Identity>): (g: Gate)
    ensures header.None? || !StartsWith(header.value, "Bearer") ==> g == Reject(401, NoToken)
    ensures g.Next? <==>
      && header.Some? && StartsWith(header.value, "Bearer")
      && BearerToken(header.value).Some? && BearerToken(header.value).value != ""
      && verify(BearerToken(header.value).value).Some?
    ensures g.Next? ==> g.user == verify(BearerToken(header.value).value).value
    ensures header.Some? && StartsWith(header.value, "Bearer") && g.Reject? ==> g == Reject(401, TokenFailed)
  {
    if header.None? || header.value == "" || !StartsWith(header.value, "Bearer") then
      Reject(401, NoToken)
    else
      var token := BearerToken(header.value);
      if token.None? || token.value == "" then
        Reject(401, TokenFailed)
      else
        match verify(token.value)
        case Some(user) => Next(user)
        case None => Reject(401, TokenFailed)
  }

  /** A well-formed header "Bearer <t>" hands exactly t to the verifier. */
  lemma BearerHeader(t: string, verify: string -> Option<Identity>)
    requires t != "" && ' ' !in t
    ensures Protect(Some("Bearer " + t), verify) ==
      (if verify(t).Some? then Next(verify(t).value) else Reject(401, TokenFailed))
  {
    var h := "Bearer " + t;
    SplitWord(t);
    SplitAfterWord("Bearer", t);
    assert h == "Bearer" + " " + t;
    assert Split(h) == ["Bearer", t];
    assert BearerToken(h) == Some(t);
    assert h[..6] == "Bearer";
    assert StartsWith(h, "Bearer");
  }

  /** `admin`: the caller passes exactly when its role is "admin"; otherwise 403. */
  function Admin(user: Identity): (g: Gate)
    ensures g.Next? <==> user.role == "admin"
    ensures g.Next? ==> g.user == user
    ensures g.Reject? ==> g == Reject(403, NotAdmin)
  {
    if user.role == "admin" then Next(user) else Reject(403, NotAdmin)
  }

  /** The chain `protect, admin`: a refusal by `protect` stands, otherwise `admin` decides. */
  function ThenAdmin(g: Gate): (r: Gate)
    ensures r.Next? <==> g.Next? && g.user.role == "admin"
    ensures g.Reject? ==> r == g
  {
    if g.Reject? then g else Admin(g.user)
  }
}
