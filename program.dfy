/** The start-up role seeding of Program. */
module Program {
  import opened TextChecks
  import opened Roles

  /** SeedRoles: for each of the four default roles in turn, create it if it
      does not exist yet. */
  method SeedRoles(store: RoleStore)
    requires store.Valid()
    modifies store
    ensures store.Valid()
    ensures store.roles == WithRoles(old(store.roles), DefaultRoles)
    ensures forall n :: n in DefaultRoles ==> n in store.roles
  {
    var roles := DefaultRoles;
    for i := 0 to |roles|
      invariant store.Valid()
      invariant store.roles == WithRoles(old(store.roles), roles[..i])
    {
      var role := roles[i];
      assert roles[..i + 1][..i] == roles[..i];
      var found := store.RoleExists(role);
      if !found {
        var _ := store.Create(role);
      }
    }
    assert roles[..|roles|] == roles;
    DefaultRolesNotBlank();
    assert forall n :: n in DefaultRoles ==> !IsBlank(n);
  }
}
