/** AppRolesController: the POST action that creates a role by name. */
module AppRolesController {
  import opened TextChecks
  import opened Roles

  /** How the POST ends: a redirect to the role list, or the exception
      RoleExistsAsync throws for a missing name. The form binder turns an
      empty or white-space-only field into a missing name. */
  datatype CreateResult = RedirectToIndex | NameMissing

  /** Create: look the name up and create the role only when it is absent.
      A blank name ends in the exception and leaves the table as it was;
      otherwise the name is a role afterwards, and no other role was added
      or removed. */
  method Create(store: RoleStore, name: string) returns (result: CreateResult)
    requires store.Valid()
    modifies store
    ensures store.Valid()
    ensures result == NameMissing <==> IsBlank(name)
    ensures IsBlank(name) ==> store.roles == old(store.roles)
    ensures store.roles == WithRole(old(store.roles), name)
  {
    if IsBlank(name) {
      return NameMissing;
    }
    var found := store.RoleExists(name);
    if !found {
      var _ := store.Create(name);
    }
    result := RedirectToIndex;
  }
}
