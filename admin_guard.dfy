/** The `requireAdmin` middleware: it either answers 403 or hands the request on. */
module AdminGuard {
  import opened Wrappers
  import opened Permissions
  import opened UserStorage

  const ForbiddenMessage: string := "Toegang geweigerd. Admin vereist."

  /** What the guard does with a request: write a 403 response, or call `next()`. */
  datatype GuardDecision = Forbidden(status: nat, error: string) | CallNext

  function RoleOf(user: Option<FullUser>): Option<Role> {
    if user.Some? then Some(user.value.role) else None
  }

  /** The guard passes exactly the requests of a signed-in ADMIN, which are exactly the
      requests whose role may manage products; every other request gets 403 with the
      fixed message and `next` is not called. */
  function RequireAdmin(user: Option<FullUser>): (d: GuardDecision)
    ensures d.CallNext? <==> user.Some? && user.value.role == ADMIN
    ensures d.CallNext? <==> HasFeature(RoleOf(user), ManageProducts)
    ensures d.Forbidden? ==> d.status == 403 && d.error == ForbiddenMessage
  {
    if user.None? || user.value.role != ADMIN then Forbidden(403, ForbiddenMessage)
    else CallNext
  }
}
