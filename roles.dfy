/**
 * The role/scope registry: role rows in insertion order, the two built-in
 * roles seeded at bootstrap, and lookup by name, which takes the first
 * matching row as `.first()` does (tiled/database/core.py:19-43, 137, 163).
 */
module Roles {
  import opened Wrappers

  datatype Role = Role(name: string, description: string, scopes: seq<string>)

  const USER_SCOPES: seq<string> := ["read:metadata", "read:data", "apikeys"]

  const ADMIN_SCOPES: seq<string> :=
    ["read:metadata", "read:data", "admin:apikeys", "read:principals", "metrics"]

  const USER_ROLE: Role := Role("user", "Default Role for users.", USER_SCOPES)

  const ADMIN_ROLE: Role := Role("admin", "Default Role for services.", ADMIN_SCOPES)

  /** The rows create_default_roles adds, in the order it adds them. */
  const DEFAULT_ROLES: seq<Role> := [USER_ROLE, ADMIN_ROLE]

  /** No two role rows share a name. */
  predicate UniqueNames(roles: seq<Role>) {
    forall i, j :: 0 <= i < j < |roles| ==> roles[i].name != roles[j].name
  }

  /** The first role row called `name`, if there is one. */
  function FindRole(roles: seq<Role>, name: string): (r: Option<Role>)
    ensures r.None? <==> forall i :: 0 <= i < |roles| ==> roles[i].name != name
    ensures r.Some? ==> exists i :: 0 <= i < |roles| && roles[i] == r.value
                                    && r.value.name == name
                                    && forall j :: 0 <= j < i ==> roles[j].name != name
    decreases |roles|
  {
    if roles == [] then None
    else if roles[0].name == name then Some(roles[0])
    else
      var r := FindRole(roles[1..], name);
      assert r.Some? ==> exists i :: 0 <= i < |roles| && roles[i] == r.value
                                    && forall j :: 0 <= j < i ==> roles[j].name != name by {
        if r.Some? {
          var k :| 0 <= k < |roles| - 1 && roles[1..][k] == r.value
                   && forall j :: 0 <= j < k ==> roles[1..][j].name != name;
          assert roles[k + 1] == r.value;
        }
      }
      r
  }

  /**
   * Rows added after the ones already present do not change a lookup that the
   * present rows answer, and answer it when the present rows do not.
   */
  lemma {:induction false} FindRoleAppend(roles: seq<Role>, added: seq<Role>, name: string)
    ensures FindRole(roles, name).Some? ==> FindRole(roles + added, name) == FindRole(roles, name)
    ensures FindRole(roles, name).None? ==> FindRole(roles + added, name) == FindRole(added, name)
    decreases |roles|
  {
    if roles == [] {
      assert roles + added == added;
    } else {
      assert (roles + added)[0] == roles[0];
      assert (roles + added)[1..] == roles[1..] + added;
      FindRoleAppend(roles[1..], added, name);
    }
  }

  /**
   * After seeding a registry that has neither built-in name, both lookups
   * return the seeded rows, with the fixed scope lists.
   */
  lemma {:induction false} SeededRolesFound(roles: seq<Role>)
    requires FindRole(roles, "user").None? && FindRole(roles, "admin").None?
    ensures FindRole(roles + DEFAULT_ROLES, "user") == Some(USER_ROLE)
    ensures FindRole(roles + DEFAULT_ROLES, "admin") == Some(ADMIN_ROLE)
    ensures FindRole(roles + DEFAULT_ROLES, "admin").value.scopes ==
              ["read:metadata", "read:data", "admin:apikeys", "read:principals", "metrics"]
    ensures FindRole(roles + DEFAULT_ROLES, "user").value.scopes ==
              ["read:metadata", "read:data", "apikeys"]
  {
    FindRoleAppend(roles, DEFAULT_ROLES, "user");
    FindRoleAppend(roles, DEFAULT_ROLES, "admin");
  }

  /**
   * Seeding keeps role names unique exactly when neither built-in name is
   * already taken; otherwise the seeded rows would repeat a name.
   */
  lemma {:induction false} SeedingKeepsNamesUnique(roles: seq<Role>)
    requires UniqueNames(roles)
    ensures UniqueNames(roles + DEFAULT_ROLES) <==>
              FindRole(roles, "user").None? && FindRole(roles, "admin").None?
  {
    var all := roles + DEFAULT_ROLES;
    var n := |roles|;
    assert all[n] == USER_ROLE && all[n + 1] == ADMIN_ROLE;
    if FindRole(roles, "user").None? && FindRole(roles, "admin").None? {
      forall i, j | 0 <= i < j < |all| ensures all[i].name != all[j].name {
        if j < n {
          assert all[i] == roles[i] && all[j] == roles[j];
        } else if i < n {
          assert all[i] == roles[i];
        }
      }
    } else if FindRole(roles, "user").Some? {
      var k :| 0 <= k < n && roles[k] == FindRole(roles, "user").value && roles[k].name == "user";
      assert all[k] == roles[k];
    } else {
      var k :| 0 <= k < n && roles[k] == FindRole(roles, "admin").value && roles[k].name == "admin";
      assert all[k] == roles[k];
    }
  }
}
