/**
 * The authentication middlewares: `authenticate` finds the bearer token of
 * the Authorization header, verifies it and attaches the user it names to
 * the request; `authorize` admits only the listed user statuses.
 * Verifying and decoding a JWT is a parameter: it yields the user id the
 * token carries, or nothing when the token does not verify.
 */
module Auth {
  import opened Common
  import opened Store

  /** `authorization?.startsWith('Bearer') ? authorization.split(' ')[1] : undefined`. */
  function BearerToken(header: Option<string>): (token: Option<string>)
    ensures header.None? || !IsPrefix("Bearer", header.value) ==> token.None?
    ensures token.Some? ==> ' ' !in token.value
  {
    if header.Some? && IsPrefix("Bearer", header.value) then
      var parts := Split(header.value, ' ');
      if |parts| > 1 then Some(parts[1]) else None
    else None
  }

  /** A header whose first space ends a "Bearer"-prefixed word yields the word after it. */
  lemma BearerTokenSplit(a: string, b: string)
    requires IsPrefix("Bearer", a) && ' ' !in a && ' ' !in b
    ensures BearerToken(Some(a + [' '] + b)) == Some(b)
  {
    var h := a + [' '] + b;
    assert h[..6] == a[..6];
    SplitAround(a, ' ', b);
    SplitNoSeparator(a, ' ');
    SplitNoSeparator(b, ' ');
  }

  /** "Bearer <token>" yields the token, as section 2.1 of RFC 6750 lays the header out. */
  lemma BearerTokenOf(t: string)
    requires ' ' !in t
    ensures BearerToken(Some("Bearer " + t)) == Some(t)
  {
    assert "Bearer " + t == "Bearer" + [' '] + t;
    BearerTokenSplit("Bearer", t);
  }

  /** Only the prefix is checked: in "Bearer-x y" the token is "y", and "Bearer" alone has none. */
  lemma BearerPrefixOnly()
    ensures BearerToken(Some("Bearer-x y")) == Some("y")
    ensures BearerToken(Some("Bearer")) == None
  {
    var a := "Bearer-x";
    assert a[..6] == "Bearer";
    assert "Bearer-x y" == a + [' '] + "y";
    BearerTokenSplit(a, "y");
    assert "Bearer"[..6] == "Bearer";
    SplitNoSeparator("Bearer", ' ');
  }

  /** An incoming request: its Authorization header and the user attached to it. */
  class Request {
    var authorization: Option<string>
    var user: Option<Principal>

    constructor (authorization: Option<string>)
      ensures this.authorization == authorization && user.None?
    {
      this.authorization := authorization;
      user := None;
    }
  }

  /** `authenticate`: 401 without a token or when it names no user; otherwise the user goes on the request. */
  method Authenticate(req: Request, verify: string -> Option<Id>, users: map<Id, User>) returns (g: Gate)
    modifies req`user
    ensures var token := BearerToken(req.authorization);
      && (!Truthy(token) ==> g == Reject(401, "Token d'accès requis"))
      && (Truthy(token) && (verify(token.value).None? || verify(token.value).value !in users) ==> g == Reject(401, "Token invalide"))
      && (g == Proceed <==> Truthy(token) && verify(token.value).Some? && verify(token.value).value in users)
    ensures g == Proceed ==>
      var id := verify(BearerToken(req.authorization).value).value;
      req.user == Some(Principal(id, users[id].status))
    ensures g != Proceed ==> req.user == old(req.user)
  {
    var token: Option<string> := None;
    if req.authorization.Some? && IsPrefix("Bearer", req.authorization.value) {
      var parts := Split(req.authorization.value, ' ');
      token := if |parts| > 1 then Some(parts[1]) else None;
    }
    if !Truthy(token) {
      return Reject(401, "Token d'accès requis");
    }
    var decoded := verify(token.value);
    if decoded.None? || decoded.value !in users {
      return Reject(401, "Token invalide");
    }
    req.user := Some(Principal(decoded.value, users[decoded.value].status));
    g := Proceed;
  }

  /** `authorize(...roles)`. */
  function Authorize(roles: seq<Role>, user: Option<Principal>): (g: Gate)
    ensures g == Proceed <==> user.Some? && user.value.status in roles
    ensures user.None? ==> g == Reject(401, "Non authentifié")
    ensures user.Some? && user.value.status !in roles ==> g == Reject(403, "Accès non autorisé")
  {
    if user.None? then Reject(401, "Non authentifié")
    else if user.value.status !in roles then Reject(403, "Accès non autorisé")
    else Proceed
  }

  /** Statuses allowed to create books and shared readings. */
  const Creators := [ADMIN, AUTHOR, TRANSLATOR]
}
