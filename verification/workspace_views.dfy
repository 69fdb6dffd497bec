/** The workspace-creation endpoint, reduced to its effect on the store: the
    request's user and its two form fields are parameters, the response is
    an outcome. */
module WorkspaceViews {
  import opened Base
  import opened Workspaces

  /** The role literal the view writes for the creator's second membership. */
  const VIEW_ADMIN_LITERAL: Role := "ADMIN"

  /** create_workspace as written: create the workspace (whose save already
      grants the creator an owner membership), then insert a second
      membership for the same (workspace, user). That second insert always
      hits the uniqueness constraint, so the success response is never
      returned; nothing rolls the workspace back. */
  method CreateWorkspace(store: WorkspaceStore, user: User, name: Option<string>, description: Option<string>)
    returns (r: Outcome, ghost id: WorkspaceId)
    requires store.Valid()
    modifies store
    ensures store.Valid()
    ensures r != Pass
    ensures !user.IsAuthenticated() ==> r == Fail(InvalidUser) && unchanged(store)
    ensures user.IsAuthenticated() && (name.None? || description.None?) ==>
      r == Fail(NotNull) && unchanged(store)
    ensures user.IsAuthenticated() && name.Some? && description.Some? ==>
      && r == Fail(Conflict)
      && id !in old(store.workspaces)
      && store.workspaces == old(store.workspaces)[id := Workspace(name.value, description.value, user.id)]
      && store.memberships == old(store.memberships) + [Membership(id, user.id, OWNER)]
      && store.tags == old(store.tags) && store.versions == old(store.versions)
      && store.documents == old(store.documents)
  {
    id := 0;
    if !user.IsAuthenticated() {
      return Fail(InvalidUser), id;
    }
    if name.None? || description.None? {
      return Fail(NotNull), id;
    }
    var created := store.SaveWorkspace(None, Workspace(name.value, description.value, user.id));
    id := created;
    assert store.memberships[|store.memberships| - 1] == Membership(created, user.id, OWNER);
    r := store.CreateMembership(created, user.id, Some(VIEW_ADMIN_LITERAL));
  }

  /** create_workspace without the second insert: the workspace save alone
      grants the creator the owner membership, and the view succeeds with
      exactly one membership row for the new workspace. */
  method CreateWorkspaceCorrected(store: WorkspaceStore, user: User, name: Option<string>, description: Option<string>)
    returns (r: Outcome, ghost id: WorkspaceId)
    requires store.Valid()
    modifies store
    ensures store.Valid()
    ensures r.Pass? <==> user.IsAuthenticated() && name.Some? && description.Some?
    ensures !user.IsAuthenticated() ==> r == Fail(InvalidUser) && unchanged(store)
    ensures user.IsAuthenticated() && (name.None? || description.None?) ==>
      r == Fail(NotNull) && unchanged(store)
    ensures r.Pass? ==>
      && id !in old(store.workspaces)
      && store.workspaces == old(store.workspaces)[id := Workspace(name.value, description.value, user.id)]
      && store.memberships == old(store.memberships) + [Membership(id, user.id, OWNER)]
      && (forall i :: 0 <= i < |store.memberships| && store.memberships[i].workspace == id ==>
            i == |old(store.memberships)|)
  {
    id := 0;
    if !user.IsAuthenticated() {
      return Fail(InvalidUser), id;
    }
    if name.None? || description.None? {
      return Fail(NotNull), id;
    }
    var created := store.SaveWorkspace(None, Workspace(name.value, description.value, user.id));
    id := created;
    r := Pass;
  }
}
