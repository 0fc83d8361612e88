/** The authentication middleware: the bearer token is cut out of the
    `Authorization` header and verified; the request goes on with the
    decoded payload, or is refused with 401 (no token) or 400 (bad token). */
module Middleware {
  import opened Base
  import opened Tokens

  const Bearer: string := "Bearer "

  /** What the middleware does with a request. */
  datatype Decision = Deny(status: Status) | Next(user: Claims)

  /** The first position at or after `from` where `pat` occurs in `s`
      (`String.prototype.indexOf`). */
  function IndexOfFrom(s: string, pat: string, from: nat): (r: Option<nat>)
    ensures r.Some? ==> from <= r.value && OccursAt(s, pat, r.value)
    ensures r.Some? ==> forall j :: from <= j < r.value ==> !OccursAt(s, pat, j)
    ensures r.None? ==> forall j :: from <= j ==> !OccursAt(s, pat, j)
    decreases |s| - from
  {
    if from + |pat| > |s| then None
    else if OccursAt(s, pat, from) then Some(from)
    else IndexOfFrom(s, pat, from + 1)
  }

  /** JavaScript's string replace with a string pattern: only the first
      occurrence is replaced. */
  function ReplaceFirst(s: string, pat: string, rep: string): (r: string)
    ensures (forall i :: !OccursAt(s, pat, i)) ==> r == s
    ensures forall i :: OccursAt(s, pat, i) && (forall j :: 0 <= j < i ==> !OccursAt(s, pat, j)) ==>
      r == s[..i] + rep + s[i + |pat|..]
  {
    match IndexOfFrom(s, pat, 0)
    case None => s
    case Some(i) => s[..i] + rep + s[i + |pat|..]
  }

  /** The header must be present and start with `Bearer `; the token is
      the header with that first occurrence of the prefix removed. */
  function ExtractToken(header: Option<string>): (r: Option<string>)
    ensures r.Some? <==> header.Some? && Bearer <= header.value
    ensures r.Some? ==> r.value == header.value[|Bearer|..]
  {
    if header.Some? && Bearer <= header.value then
      assert OccursAt(header.value, Bearer, 0);
      Some(ReplaceFirst(header.value, Bearer, ""))
    else None
  }

  /** The middleware's decision for a request with the given header. */
  function Authenticate(verify: string -> Option<Claims>, header: Option<string>): (r: Decision)
    ensures r.Deny? ==> r.status == Unauthorized || r.status == BadRequest
    ensures r == Deny(Unauthorized) <==> header.None? || !(Bearer <= header.value) || |header.value| == |Bearer|
    ensures r.Next? <==>
      header.Some? && Bearer <= header.value && |header.value| > |Bearer| && verify(header.value[|Bearer|..]).Some?
    ensures r.Next? ==> r.user == verify(header.value[|Bearer|..]).value
  {
    match ExtractToken(header)
    case None => Deny(Unauthorized)
    case Some(token) =>
      if token == "" then Deny(Unauthorized)
      else
        match verify(token)
        case None => Deny(BadRequest)
        case Some(claims) => Next(claims)
  }

  /** The header `"Bearer "` with nothing after it is refused with 401. */
  lemma EmptyBearerRejected(verify: string -> Option<Claims>)
    ensures Authenticate(verify, Some(Bearer)) == Deny(Unauthorized)
  {
  }

  /** The prefix is matched case-sensitively. */
  lemma LowercaseBearerRejected(verify: string -> Option<Claims>, token: string)
    ensures Authenticate(verify, Some("bearer " + token)) == Deny(Unauthorized)
  {
    assert ("bearer " + token)[0] != Bearer[0];
  }

  /** With sound signing, a freshly signed token lets its payload through. */
  lemma SignedTokenAccepted(c: Crypto, x: Claims)
    requires Sound(c)
    ensures Authenticate(c.verify, Some(Bearer + c.sign(x))) == Next(x)
  {
    var h := Bearer + c.sign(x);
    assert h[|Bearer|..] == c.sign(x);
    assert Bearer <= h;
  }
}
