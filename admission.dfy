/** Registration admission and the admin gate: two decision tables over configuration and session. */
module Admission {
  import opened Wrappers
  import opened Schema

  /** The two flags of global-variables.json that govern registration. */
  datatype Config = Config(isPublic: bool, inviteMode: bool)

  /** A middleware outcome: call `next()` or answer with a status. */
  datatype Gate = Next | Reject(status: int, message: string)

  const RegistrationDisabled := "Registration is currently disabled."
  const InviteCodeRequired := "Invite code is required."
  const NotAuthenticated := "Not authenticated"
  const AdminRequired := "Forbidden - Admin access required"

  /** JavaScript falsiness of an optional string field: missing or empty. */
  predicate Falsy(v: Option<string>) {
    v.None? || v.value == ""
  }

  function CheckRegistrationMode(config: Config, inviteCode: Option<string>): (g: Gate)
    // closed: refused whatever code is supplied, and before the code is looked at
    ensures !config.isPublic && !config.inviteMode ==> g == Reject(403, RegistrationDisabled)
    // invite mode without a usable code
    ensures config.inviteMode && Falsy(inviteCode) ==> g == Reject(400, InviteCodeRequired)
    // the only way through
    ensures g.Next? <==> (config.isPublic || config.inviteMode) && (config.inviteMode ==> !Falsy(inviteCode))
    // open without invites ignores the code
    ensures config.isPublic && !config.inviteMode ==> g == Next
    // every refusal is one of the two above
    ensures g.Reject? ==> g.status in {400, 403}
  {
    if !config.isPublic && !config.inviteMode then Reject(403, RegistrationDisabled)
    else if config.inviteMode && Falsy(inviteCode) then Reject(400, InviteCodeRequired)
    else Next
  }

  /** The session user counts as an administrator only when `isAdmin` is truthy. */
  predicate IsAdminSession(session: Option<SessionUser>) {
    session.Some? && session.value.isAdmin == Some(true)
  }

  function RequireAdmin(session: Option<SessionUser>): (g: Gate)
    ensures session.None? ==> g == Reject(401, NotAuthenticated)
    ensures session.Some? && session.value.isAdmin != Some(true) ==> g == Reject(403, AdminRequired)
    ensures g.Next? <==> IsAdminSession(session)
  {
    if session.None? then Reject(401, NotAuthenticated)
    else if session.value.isAdmin != Some(true) then Reject(403, AdminRequired)
    else Next
  }

  /** The record logout leaves behind is still a session user, but never an administrator. */
  lemma LoggedOutIsNotAdmin()
    ensures RequireAdmin(Some(LoggedOut)) == Reject(403, AdminRequired)
  {
  }
}
