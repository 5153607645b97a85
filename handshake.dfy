/**
 * The Socket.IO connection middleware of server.js: which identity a new
 * connection gets from its handshake. Signature checking of the bearer token
 * is outside the model; it enters as the function `verify`, which yields the
 * token's claims or nothing when the token does not verify.
 *
 * Handshake strings use "" for a field that is absent (JavaScript treats
 * both as false).
 */
module Handshake {
  import opened Wrappers

  /** The id and role attached to a connection for its whole lifetime. */
  datatype Identity = Identity(id: string, role: string)

  datatype Query = Query(teacherId: string, studentId: string, token: string)

  datatype HandshakeData = HandshakeData(authToken: string, query: Query, authorization: string)

  /** The claims of a verified token that the middleware reads; `None` is a claim the token lacks. */
  datatype Claims = Claims(
    userId: Option<string>, adminId: Option<string>, instructorId: Option<string>,
    underscoreId: Option<string>, id: Option<string>,
    role: Option<string>, userRole: Option<string>, kind: Option<string>)

  datatype AuthResult = Accepted(user: Identity) | Refused(reason: string)

  predicate Truthy(v: Option<string>) {
    v.Some? && v.value != ""
  }

  /** `pat` occurs in `s` starting at index `i`. */
  predicate OccursAt(s: string, pat: string, i: int) {
    0 <= i && i + |pat| <= |s| && s[i..i + |pat|] == pat
  }

  /** JavaScript's `s.indexOf(pat, from)`: the first occurrence at or after `from`, or -1. */
  function IndexOf(s: string, pat: string, from: nat): (i: int)
    ensures i == -1 || (from <= i && OccursAt(s, pat, i))
    ensures forall j :: from <= j && (i == -1 || j < i) ==> !OccursAt(s, pat, j)
    decreases |s| - from
  {
    if from + |pat| > |s| then -1
    else if OccursAt(s, pat, from) then from
    else IndexOf(s, pat, from + 1)
  }

  /** JavaScript's `s.replace(pat, "")` with a string pattern: only the first occurrence of `pat` is removed. */
  function RemoveFirst(s: string, pat: string): (r: string)
    ensures (forall j :: !OccursAt(s, pat, j)) ==> r == s
    ensures OccursAt(s, pat, 0) ==> r == s[|pat|..]
    ensures forall i :: OccursAt(s, pat, i) && (forall j :: 0 <= j < i ==> !OccursAt(s, pat, j)) ==>
                        r == s[..i] + s[i + |pat|..]
    ensures r == s || |r| == |s| - |pat|
  {
    var i := IndexOf(s, pat, 0);
    if i < 0 then s else s[..i] + s[i + |pat|..]
  }

  /** `auth.token || query.token || (authorization || '').replace('Bearer ', '')` */
  function BearerToken(hs: HandshakeData): (token: string)
    ensures hs.authToken != "" ==> token == hs.authToken
    ensures hs.authToken == "" && hs.query.token != "" ==> token == hs.query.token
    ensures token == "" ==> hs.authToken == "" && hs.query.token == ""
    ensures hs.authToken == "" && hs.query.token == "" ==> token == RemoveFirst(hs.authorization, "Bearer ")
    ensures hs.authToken == "" && hs.query.token == "" && OccursAt(hs.authorization, "Bearer ", 0) ==>
              token == hs.authorization[|"Bearer "|..]
    ensures hs.authToken == "" && hs.query.token == "" && (forall j :: !OccursAt(hs.authorization, "Bearer ", j)) ==>
              token == hs.authorization
  {
    if hs.authToken != "" then hs.authToken
    else if hs.query.token != "" then hs.query.token
    else RemoveFirst(hs.authorization, "Bearer ")
  }

  /** The first truthy claim, else the last one as it stands (an `a || b || …` chain). */
  function FirstTruthy(vs: seq<Option<string>>): (r: Option<string>)
    requires vs != []
    ensures Truthy(r) <==> exists v :: v in vs && Truthy(v)
    ensures Truthy(r) ==> r in vs
    ensures forall i :: 0 <= i < |vs| && Truthy(vs[i]) && (forall j :: 0 <= j < i ==> !Truthy(vs[j])) ==> r == vs[i]
    ensures !Truthy(r) ==> r == vs[|vs| - 1]
  {
    if |vs| == 1 || Truthy(vs[0]) then vs[0] else FirstTruthy(vs[1..])
  }

  /** `id: userId || adminId || instructorId || _id || id`, then `...decoded` spreads the `id` claim over it. */
  function ClaimedId(c: Claims): (id: string)
    ensures c.id.Some? ==> id == c.id.value
    ensures c.id.None? && Truthy(c.userId) ==> id == c.userId.value
    ensures c.id.None? && !Truthy(c.userId) && Truthy(c.adminId) ==> id == c.adminId.value
    ensures c.id.None? && !Truthy(c.userId) && !Truthy(c.adminId) && Truthy(c.instructorId) ==> id == c.instructorId.value
    ensures c.id.None? && !Truthy(c.userId) && !Truthy(c.adminId) && !Truthy(c.instructorId) && Truthy(c.underscoreId) ==>
              id == c.underscoreId.value
    ensures c.id.None? && !Truthy(c.userId) && !Truthy(c.adminId) && !Truthy(c.instructorId) && !Truthy(c.underscoreId) ==>
              id == c.underscoreId.GetOr("")
    ensures c.id.None? && id != "" ==> Some(id) in [c.userId, c.adminId, c.instructorId, c.underscoreId]
  {
    if c.id.Some? then c.id.value
    else
      var claims := [c.userId, c.adminId, c.instructorId, c.underscoreId];
      assert claims[0] == c.userId && claims[1] == c.adminId && claims[2] == c.instructorId && claims[3] == c.underscoreId;
      FirstTruthy(claims).GetOr("")
  }

  /** `role: role || userRole || type || 'user'`, then `...decoded` spreads the `role` claim over it. */
  function ClaimedRole(c: Claims): (role: string)
    ensures c.role.Some? ==> role == c.role.value
    ensures c.role.None? && Truthy(c.userRole) ==> role == c.userRole.value
    ensures c.role.None? && !Truthy(c.userRole) && Truthy(c.kind) ==> role == c.kind.value
    ensures c.role.None? ==> role != ""
    ensures c.role.None? && role != "user" ==> Some(role) in [c.userRole, c.kind]
  {
    if c.role.Some? then c.role.value
    else if Truthy(c.userRole) then c.userRole.value
    else if Truthy(c.kind) then c.kind.value
    else "user"
  }

  /** The middleware: development ids first (outside production), then the bearer token. */
  function Authenticate(production: bool, hs: HandshakeData, verify: string -> Option<Claims>): (r: AuthResult)
    ensures r.Refused? ==> r.reason in {"Authentication required", "Invalid token"}
    ensures r.Refused? <==> (production || (hs.query.teacherId == "" && hs.query.studentId == ""))
                            && (BearerToken(hs) == "" || verify(BearerToken(hs)).None?)
    ensures r.Refused? ==> (r.reason == "Authentication required" <==> BearerToken(hs) == "")
    ensures !production && hs.query.teacherId != "" ==> r == Accepted(Identity(hs.query.teacherId, "teacher"))
    ensures !production && hs.query.teacherId == "" && hs.query.studentId != "" ==>
              r == Accepted(Identity(hs.query.studentId, "student"))
    ensures (production || (hs.query.teacherId == "" && hs.query.studentId == ""))
            && BearerToken(hs) != "" && verify(BearerToken(hs)).Some? ==>
              var c := verify(BearerToken(hs)).value;
              r == Accepted(Identity(ClaimedId(c), ClaimedRole(c)))
  {
    if !production && hs.query.teacherId != "" then Accepted(Identity(hs.query.teacherId, "teacher"))
    else if !production && hs.query.studentId != "" then Accepted(Identity(hs.query.studentId, "student"))
    else
      var token := BearerToken(hs);
      if token == "" then Refused("Authentication required")
      else match verify(token)
        case None => Refused("Invalid token")
        case Some(c) => Accepted(Identity(ClaimedId(c), ClaimedRole(c)))
  }

  /** Outside production a `teacherId` query parameter wins over everything else in the handshake. */
  lemma DevTeacherIdFirst(hs: HandshakeData, hs': HandshakeData, verify: string -> Option<Claims>)
    requires hs.query.teacherId != "" && hs'.query.teacherId == hs.query.teacherId
    ensures Authenticate(false, hs, verify) == Authenticate(false, hs', verify) == Accepted(Identity(hs.query.teacherId, "teacher"))
  {
  }

  /** In production the development query parameters are never consulted. */
  lemma ProductionIgnoresDevIds(hs: HandshakeData, teacherId: string, studentId: string, verify: string -> Option<Claims>)
    ensures Authenticate(true, hs, verify)
         == Authenticate(true, hs.(query := hs.query.(teacherId := teacherId, studentId := studentId)), verify)
  {
  }

  /** An `Authorization: Bearer <t>` header alone yields `<t>` as the token. */
  lemma BearerHeaderToken(t: string, q: Query)
    requires q.token == ""
    ensures BearerToken(HandshakeData("", q, "Bearer " + t)) == t
  {
    assert OccursAt("Bearer " + t, "Bearer ", 0);
  }

  /** A present `id` claim decides the identity even when `userId` is also present, because the spread comes last. */
  lemma IdClaimOverridesUserId(c: Claims)
    requires c.id.Some? && Truthy(c.userId) && c.id != c.userId
    ensures ClaimedId(c) == c.id.value != c.userId.value
  {
  }

  /** A token with no role claim of any kind gets the role "user". */
  lemma RoleFallsBackToUser(c: Claims)
    requires c.role.None? && !Truthy(c.userRole) && !Truthy(c.kind)
    ensures ClaimedRole(c) == "user"
  {
  }
}
