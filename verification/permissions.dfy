/** The workspace-admin check consulted before workspace-scoped changes. */
module Permissions {
  import opened Base
  import opened Workspaces

  /** The role the admin check looks for. The membership role enumeration
      defines only owner, editor and viewer; the workspace-creation view
      writes the literal "ADMIN", which is the value used here. It is not the
      owner role. */
  const ADMIN_ROLE: Role := "ADMIN"

  /** is_workspace_admin as written: the lookup of the missing enumeration
      member `Role.ADMIN` raises AttributeError once the user is known to be
      authenticated. */
  function IsWorkspaceAdminAsWritten(user: User, w: WorkspaceId, ms: seq<Membership>): (r: Result<bool>)
    ensures !user.IsAuthenticated() ==> r == Ok(false)
  {
    if !user.IsAuthenticated() then Ok(false)
    else Err(MissingAttribute)
  }

  /** For every authenticated user the check as written raises instead of
      answering, whatever the membership table holds. */
  lemma AsWrittenRaisesForAuthenticated(uid: UserId, w: WorkspaceId, ms: seq<Membership>)
    ensures IsWorkspaceAdminAsWritten(Authenticated(uid), w, ms) == Err(MissingAttribute)
  {
  }

  /** Whether some row of `ms` is exactly (w, u, role); a scan of the table. */
  function HasRole(ms: seq<Membership>, w: WorkspaceId, u: UserId, role: Role): (b: bool)
    ensures b <==> exists i :: 0 <= i < |ms| && ms[i] == Membership(w, u, role)
    decreases |ms|
  {
    if ms == [] then false
    else
      var last := ms[|ms| - 1];
      var prefix := ms[..|ms| - 1];
      assert forall i :: 0 <= i < |prefix| ==> prefix[i] == ms[i];
      last == Membership(w, u, role) || HasRole(prefix, w, u, role)
  }

  /** is_workspace_admin with the tested role made explicit: false for an
      anonymous user, otherwise true exactly when a membership row
      (workspace, user, ADMIN_ROLE) exists. A missing membership is a plain
      false, never an error; nothing is changed. */
  function IsWorkspaceAdmin(user: User, w: WorkspaceId, ms: seq<Membership>): (r: bool)
    ensures !user.IsAuthenticated() ==> !r
    ensures user.IsAuthenticated() ==>
      (r <==> exists i :: 0 <= i < |ms| && ms[i] == Membership(w, user.id, ADMIN_ROLE))
  {
    user.IsAuthenticated() && HasRole(ms, w, user.id, ADMIN_ROLE)
  }

  /** The two agree wherever the version as written answers at all. */
  lemma AsWrittenAgreesWhenItAnswers(user: User, w: WorkspaceId, ms: seq<Membership>)
    requires IsWorkspaceAdminAsWritten(user, w, ms).Ok?
    ensures IsWorkspaceAdminAsWritten(user, w, ms).value == IsWorkspaceAdmin(user, w, ms)
  {
  }

  /** With unique memberships, a user whose membership in the workspace has
      another role (the owner role the workspace save grants, say) is not an
      admin. */
  lemma OtherRoleIsNotAdmin(user: User, w: WorkspaceId, ms: seq<Membership>, k: nat)
    requires MembershipsUnique(ms)
    requires k < |ms| && ms[k].workspace == w && user.IsAuthenticated() && ms[k].user == user.id
    requires ms[k].role != ADMIN_ROLE
    ensures !IsWorkspaceAdmin(user, w, ms)
  {
  }
}
