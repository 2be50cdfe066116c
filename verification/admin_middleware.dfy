/** The admin gate of middleware/adminMiddleware.js: a request reaches the
    handler only with an admin identity; otherwise the gate answers 401 (no
    identity) or 403 (an identity that is not admin) and stops. */
module AdminMiddleware {
  import opened Common
  import opened UserModel

  /** What a middleware does with a request: pass it on (`next()`), or write
      a response and stop. */
  datatype Decision = Next | Respond(code: int, message: string)

  function AdminGate(user: Option<Identity>): (d: Decision)
    ensures d.Next? <==> user.Some? && IsAdmin(user.value)
    ensures user.None? ==> d == Respond(401, "Unauthorized")
    ensures user.Some? && !IsAdmin(user.value) ==> d == Respond(403, "Forbidden")
  {
    if user.None? then Respond(401, "Unauthorized")
    else if user.value.role != Admin then Respond(403, "Forbidden")
    else Next
  }

  /** The identity check comes first: a request without an identity is never
      told it is forbidden, and a 403 always names an identity that exists. */
  lemma MissingIdentityIsNeverForbidden(user: Option<Identity>)
    ensures AdminGate(user).Respond? ==> (AdminGate(user).code == 403 <==> user.Some?)
    ensures AdminGate(user).Respond? ==> AdminGate(user).code in {401, 403}
  {
  }

  /** Only the role decides: two identities with the same role are treated
      alike. */
  lemma GateSeesOnlyTheRole(a: Identity, b: Identity)
    requires a.role == b.role
    ensures AdminGate(Some(a)) == AdminGate(Some(b))
  {
  }
}
