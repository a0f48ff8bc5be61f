/** The role table the identity framework keeps (RoleManager), reduced to the
    role names in creation order, and the insert-if-absent step that both the
    start-up seeding and the role controller perform on it. The framework's
    role validator refuses a blank name, so no step ever stores one. */
module Roles {
  import opened TextChecks

  /** The roles seeded at start-up, in the order they are created. */
  const DefaultRoles: seq<string> := ["Lecturer", "Manager", "Co-ordinator", "HR"]

  predicate NoDuplicates(names: seq<string>) {
    forall i, j :: 0 <= i < j < |names| ==> names[i] != names[j]
  }

  predicate NoBlankNames(names: seq<string>) {
    forall i :: 0 <= i < |names| ==> !IsBlank(names[i])
  }

  /** The role table after creating `name` if it does not exist yet; a blank
      name is refused and changes nothing. */
  function WithRole(roles: seq<string>, name: string): (r: seq<string>)
    ensures !IsBlank(name) ==> name in r
    ensures IsBlank(name) ==> r == roles
    ensures forall x :: x in r <==> x in roles || (x == name && !IsBlank(name))
    ensures roles <= r
    ensures name in roles ==> r == roles
    ensures name !in roles && !IsBlank(name) ==> |r| == |roles| + 1
    ensures NoDuplicates(roles) ==> NoDuplicates(r)
    ensures NoBlankNames(roles) ==> NoBlankNames(r)
  {
    if IsBlank(name) || name in roles then roles else roles + [name]
  }

  /** The role table after creating each of `names`, in order, where absent. */
  function WithRoles(roles: seq<string>, names: seq<string>): (r: seq<string>)
    ensures forall x :: x in r <==> x in roles || (x in names && !IsBlank(x))
    ensures roles <= r
    ensures NoDuplicates(roles) ==> NoDuplicates(r)
    ensures NoBlankNames(roles) ==> NoBlankNames(r)
    decreases |names|
  {
    if names == [] then roles
    else WithRole(WithRoles(roles, names[..|names| - 1]), names[|names| - 1])
  }

  /** Creating a role twice is creating it once. */
  lemma WithRoleIdempotent(roles: seq<string>, name: string)
    ensures WithRole(WithRole(roles, name), name) == WithRole(roles, name)
  {
  }

  /** When every name is already a role or blank, creating them changes nothing. */
  lemma {:induction false} WithRolesAllPresent(roles: seq<string>, names: seq<string>)
    requires forall n :: n in names ==> n in roles || IsBlank(n)
    ensures WithRoles(roles, names) == roles
    decreases |names|
  {
    if names != [] {
      var init := names[..|names| - 1];
      assert forall n :: n in init ==> n in names;
      WithRolesAllPresent(roles, init);
      assert names[|names| - 1] in names;
    }
  }

  /** Seeding twice gives the same role table as seeding once. */
  lemma SeedingIdempotent(roles: seq<string>)
    ensures WithRoles(WithRoles(roles, DefaultRoles), DefaultRoles) == WithRoles(roles, DefaultRoles)
  {
    WithRolesAllPresent(WithRoles(roles, DefaultRoles), DefaultRoles);
  }

  /** Names that are all new, distinct and not blank are appended in the order given. */
  lemma {:induction false} WithRolesAllAbsent(roles: seq<string>, names: seq<string>)
    requires NoDuplicates(roles + names)
    requires NoBlankNames(names)
    ensures WithRoles(roles, names) == roles + names
    decreases |names|
  {
    if names != [] {
      var init, last := names[..|names| - 1], names[|names| - 1];
      assert roles + names == (roles + init) + [last];
      assert NoDuplicates(roles + init) by {
        forall i, j | 0 <= i < j < |roles + init|
          ensures (roles + init)[i] != (roles + init)[j]
        {
          assert (roles + init)[i] == (roles + names)[i] && (roles + init)[j] == (roles + names)[j];
        }
      }
      assert NoBlankNames(init) by {
        forall i | 0 <= i < |init| ensures !IsBlank(init[i]) {
          assert init[i] == names[i];
        }
      }
      WithRolesAllAbsent(roles, init);
      assert last !in roles + init by {
        forall i | 0 <= i < |roles + init| ensures (roles + init)[i] != last {
          assert (roles + init)[i] == (roles + names)[i];
          assert last == (roles + names)[|roles + names| - 1];
        }
      }
    }
  }

  /** None of the default roles is blank: each starts with a capital letter. */
  lemma DefaultRolesNotBlank()
    ensures NoBlankNames(DefaultRoles)
  {
    forall i | 0 <= i < |DefaultRoles| ensures !IsBlank(DefaultRoles[i]) {
      assert 'A' <= DefaultRoles[i][0] <= 'Z';
    }
  }

  /** Seeding an empty table creates the four roles in their listed order. */
  lemma SeedingEmptyTable()
    ensures WithRoles([], DefaultRoles) == DefaultRoles
  {
    assert [] + DefaultRoles == DefaultRoles;
    DefaultRolesNotBlank();
    WithRolesAllAbsent([], DefaultRoles);
  }

  /** The role store: role names without duplicates, none of them blank. */
  class RoleStore {
    var roles: seq<string>

    ghost predicate Valid()
      reads this
    {
      NoDuplicates(roles) && NoBlankNames(roles)
    }

    constructor ()
      ensures Valid() && roles == []
    {
      roles := [];
    }

    /** RoleExistsAsync: whether a role of this name exists. */
    method RoleExists(name: string) returns (found: bool)
      ensures found <==> name in roles
    {
      found := name in roles;
    }

    /** CreateAsync: adds the role; the role validator refuses a blank name
        and a name already taken, and then the table stays as it was. */
    method Create(name: string) returns (succeeded: bool)
      requires Valid()
      modifies this
      ensures Valid()
      ensures succeeded <==> !IsBlank(name) && name !in old(roles)
      ensures roles == WithRole(old(roles), name)
    {
      succeeded := !IsBlank(name) && name !in roles;
      if succeeded {
        roles := roles + [name];
      }
    }
  }
}
