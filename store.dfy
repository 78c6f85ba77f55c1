/**
 * The store that the database glue reads and writes, with the operations of
 * tiled/database/core.py that change it: seeding the built-in roles,
 * initializing a fresh store, creating a user and elevating an identity to
 * admin, and purging expired rows. The SQL session is replaced by fields
 * that the methods reassign; each successful `db.commit()` is counted.
 */
module Store {
  import opened Wrappers
  import opened Roles
  import opened Reaper
  import SchemaVersion

  /** The store-generated primary key of a principal. */
  type PrincipalId = nat

  /** The name of a table of expirable records (the ORM class passed as `cls`). */
  type TableName = string

  datatype PrincipalType = User | Service

  /** A principal row with its role list, appended to as `principal.roles` is. */
  datatype Principal = Principal(kind: PrincipalType, roles: seq<Role>)

  /** The (provider, id) pair that identifies an identity row. */
  datatype IdentityKey = IdentityKey(provider: string, externalId: string)

  /**
   * The result of create_user: the new principal bound to the identity, or
   * the second commit refused because the pair was already bound, which
   * leaves the principal committed in the first transaction without one.
   */
  datatype CreateOutcome = Created(id: PrincipalId) | IdentityConflict(orphan: PrincipalId)

  class Database {
    /** The heads of the Alembic version table. */
    var heads: seq<SchemaVersion.Revision>
    /** The role table, in insertion order. */
    var roles: seq<Role>
    var principals: map<PrincipalId, Principal>
    /** The identity table: (provider, id) is unique and refers to a principal. */
    var identities: map<IdentityKey, PrincipalId>
    /** The next key the store generates; every key in use is below it. */
    var nextId: PrincipalId
    /** The tables of expirable records, by name. */
    var tables: map<TableName, seq<Expirable>>
    /** How many `db.commit()` calls have succeeded (the Alembic stamp is not one). */
    ghost var commits: nat

    /**
     * Role names are unique, keys are fresh below nextId, and every identity
     * refers to an existing principal.
     */
    ghost predicate Valid()
      reads this
    {
      UniqueNames(roles) &&
      (forall id :: id in principals ==> id < nextId) &&
      (forall k :: k in identities ==> identities[k] in principals)
    }

    /** A store with no version stamp, no rows, and the given empty tables. */
    constructor (tableNames: set<TableName>)
      ensures Valid()
      ensures heads == [] && roles == [] && principals == map[] && identities == map[]
      ensures tables == map t | t in tableNames :: []
      ensures commits == 0
    {
      heads := [];
      roles := [];
      principals := map[];
      identities := map[];
      nextId := 0;
      tables := map t | t in tableNames :: [];
      commits := 0;
    }

    /**
     * check_database: read-only (no modifies clause), and its verdict is the
     * classification of the stored heads.
     */
    method CheckDatabase(required: SchemaVersion.Revision, recognized: set<SchemaVersion.Revision>)
      returns (r: SchemaVersion.Outcome)
      ensures r == SchemaVersion.CheckDatabase(heads, required, recognized)
      ensures r == SchemaVersion.Pass <==> heads == [required] && required in recognized
    {
      r := SchemaVersion.CheckDatabase(heads, required, recognized);
    }

    /**
     * create_default_roles: two rows, `user` then `admin`, in one
     * transaction. The store's uniqueness on role names refuses that commit
     * when either name is already taken, and then neither row is added.
     */
    method CreateDefaultRoles() returns (seeded: bool)
      requires Valid()
      modifies this`roles, this`commits
      ensures Valid()
      ensures seeded <==> FindRole(old(roles), "user").None? && FindRole(old(roles), "admin").None?
      ensures roles == if seeded then old(roles) + DEFAULT_ROLES else old(roles)
      ensures commits == old(commits) + (if seeded then 1 else 0)
    {
      SeedingKeepsNamesUnique(roles);
      var staged := roles + [USER_ROLE];
      staged := staged + [ADMIN_ROLE];
      assert staged == roles + DEFAULT_ROLES;
      seeded := UniqueNames(staged);
      if seeded {
        roles := staged;
        commits := commits + 1;
      }
    }

    /**
     * initialize_database: seed the built-in roles, then stamp the version
     * table at `head` (Alembic's "head" revision). A refused seeding commit
     * raises before the stamp, so the version table is then untouched.
     * Table creation is DDL outside the model.
     */
    method InitializeDatabase(head: SchemaVersion.Revision) returns (ok: bool)
      requires Valid()
      modifies this`roles, this`heads, this`commits
      ensures Valid()
      ensures ok <==> FindRole(old(roles), "user").None? && FindRole(old(roles), "admin").None?
      ensures roles == if ok then old(roles) + DEFAULT_ROLES else old(roles)
      ensures heads == if ok then [head] else old(heads)
      ensures commits == old(commits) + (if ok then 1 else 0)
    {
      ok := CreateDefaultRoles();
      if ok {
        heads := [head];
      }
    }

    /**
     * purge_expired: delete every row of `cls` expired at `now`, commit only
     * if something was deleted, and hand back `cls`.
     */
    method PurgeExpired(cls: TableName, now: Timestamp) returns (r: TableName)
      requires cls in tables
      modifies this`tables, this`commits
      ensures r == cls
      ensures tables == old(tables)[cls := Survivors(old(tables)[cls], now)]
      ensures commits == old(commits) + (if HasExpired(old(tables)[cls], now) then 1 else 0)
    {
      var survivors, deleted := Sweep(tables[cls], now);
      tables := tables[cls := survivors];
      if deleted {
        commits := commits + 1;
      }
      r := cls;
    }

    /**
     * create_user: a new principal of type user holding the `user` role is
     * committed first; its generated id is read back and the identity row
     * binding (provider, id) to it is committed second.
     */
    method CreateUser(provider: string, externalId: string) returns (r: CreateOutcome)
      requires Valid()
      requires FindRole(roles, "user").Some?
      modifies this`principals, this`identities, this`nextId, this`commits
      ensures Valid()
      ensures r.Created? <==> IdentityKey(provider, externalId) !in old(identities)
      ensures var id := if r.Created? then r.id else r.orphan;
              && id !in old(principals)
              && principals == old(principals)[id := Principal(User, [FindRole(roles, "user").value])]
              && identities == (if r.Created? then old(identities)[IdentityKey(provider, externalId) := id]
                                else old(identities))
      ensures commits == old(commits) + (if r.Created? then 2 else 1)
    {
      var userRole := FindRole(roles, "user").value;
      var principal := Principal(User, [userRole]);
      // First transaction: the store assigns the key.
      var id := nextId;
      nextId := nextId + 1;
      principals := principals[id := principal];
      commits := commits + 1;
      // Second transaction: the identity row refers to the key read back.
      var key := IdentityKey(provider, externalId);
      if key in identities {
        r := IdentityConflict(id);
      } else {
        identities := identities[key := id];
        commits := commits + 1;
        r := Created(id);
      }
    }

    /**
     * make_admin_by_identity: resolve (provider, id), provisioning a user
     * when it is unbound, then append the `admin` role to the principal's
     * role list (without checking whether it already holds it) and commit.
     */
    method MakeAdminByIdentity(provider: string, externalId: string) returns (id: PrincipalId)
      requires Valid()
      requires FindRole(roles, "user").Some? && FindRole(roles, "admin").Some?
      modifies this`principals, this`identities, this`nextId, this`commits
      ensures Valid()
      ensures IdentityKey(provider, externalId) in identities
      ensures identities[IdentityKey(provider, externalId)] == id
      ensures IdentityKey(provider, externalId) in old(identities) ==>
                && id == old(identities)[IdentityKey(provider, externalId)]
                && identities == old(identities)
                && principals == old(principals)[id := old(principals)[id].(
                                   roles := old(principals)[id].roles + [FindRole(roles, "admin").value])]
                && commits == old(commits) + 1
      ensures IdentityKey(provider, externalId) !in old(identities) ==>
                && id !in old(principals)
                && identities == old(identities)[IdentityKey(provider, externalId) := id]
                && principals == old(principals)[id := Principal(User, [FindRole(roles, "user").value,
                                                                        FindRole(roles, "admin").value])]
                && commits == old(commits) + 3
    {
      var key := IdentityKey(provider, externalId);
      if key !in identities {
        var created := CreateUser(provider, externalId);
        id := created.id;
      } else {
        id := identities[key];
      }
      var adminRole := FindRole(roles, "admin").value;
      var principal := principals[id];
      principals := principals[id := principal.(roles := principal.roles + [adminRole])];
      assert key !in old(identities) ==> principal.roles + [adminRole] == [FindRole(roles, "user").value, adminRole];
      commits := commits + 1;
    }
  }

  /**
   * A fresh store, once initialized at the required revision, passes the
   * schema check, and its `admin` role has the fixed scope list.
   */
  method InitializeThenCheck(db: Database, required: SchemaVersion.Revision, recognized: set<SchemaVersion.Revision>)
    returns (initialized: bool, verdict: SchemaVersion.Outcome)
    requires db.Valid() && db.heads == [] && db.roles == []
    requires required in recognized
    modifies db`roles, db`heads, db`commits
    ensures initialized
    ensures old(SchemaVersion.CheckDatabase(db.heads, required, recognized)) ==
              SchemaVersion.Fail(SchemaVersion.UninitializedDatabase)
    ensures verdict == SchemaVersion.Pass
    ensures FindRole(db.roles, "admin") == Some(ADMIN_ROLE)
    ensures FindRole(db.roles, "admin").value.scopes ==
              ["read:metadata", "read:data", "admin:apikeys", "read:principals", "metrics"]
  {
    initialized := db.InitializeDatabase(required);
    verdict := db.CheckDatabase(required, recognized);
    SeededRolesFound([]);
    assert db.roles == [] + DEFAULT_ROLES;
  }

  /**
   * create_user followed by make_admin_by_identity on the same pair elevates
   * the principal just created: same id, roles `user` then `admin`, and no
   * second principal.
   */
  method CreateThenElevate(db: Database, provider: string, externalId: string)
    returns (created: CreateOutcome, elevated: PrincipalId)
    requires db.Valid()
    requires FindRole(db.roles, "user").Some? && FindRole(db.roles, "admin").Some?
    requires IdentityKey(provider, externalId) !in db.identities
    modifies db`principals, db`identities, db`nextId, db`commits
    ensures db.Valid()
    ensures created.Created? && elevated == created.id
    ensures elevated !in old(db.principals)
    ensures db.principals == old(db.principals)[elevated := Principal(User,
              [FindRole(db.roles, "user").value, FindRole(db.roles, "admin").value])]
    ensures db.identities == old(db.identities)[IdentityKey(provider, externalId) := elevated]
  {
    created := db.CreateUser(provider, externalId);
    elevated := db.MakeAdminByIdentity(provider, externalId);
    assert [FindRole(db.roles, "user").value] + [FindRole(db.roles, "admin").value] ==
           [FindRole(db.roles, "user").value, FindRole(db.roles, "admin").value];
  }

  /**
   * Elevating the same unbound pair twice provisions one principal only, but
   * the role list is appended to on each call, so `admin` appears twice.
   */
  method ElevateTwice(db: Database, provider: string, externalId: string)
    returns (first: PrincipalId, second: PrincipalId)
    requires db.Valid()
    requires FindRole(db.roles, "user").Some? && FindRole(db.roles, "admin").Some?
    requires IdentityKey(provider, externalId) !in db.identities
    modifies db`principals, db`identities, db`nextId, db`commits
    ensures db.Valid()
    ensures first == second && first !in old(db.principals)
    ensures db.principals.Keys == old(db.principals).Keys + {first}
    ensures db.principals[first].roles ==
              [FindRole(db.roles, "user").value, FindRole(db.roles, "admin").value,
               FindRole(db.roles, "admin").value]
  {
    first := db.MakeAdminByIdentity(provider, externalId);
    second := db.MakeAdminByIdentity(provider, externalId);
  }

  /** A second purge with the same cutoff deletes nothing and commits nothing. */
  method PurgeTwice(db: Database, cls: TableName, now: Timestamp)
    requires cls in db.tables
    modifies db`tables, db`commits
    ensures cls in db.tables && !HasExpired(db.tables[cls], now)
    ensures db.tables == old(db.tables)[cls := Survivors(old(db.tables)[cls], now)]
    ensures db.commits == old(db.commits) + (if HasExpired(old(db.tables)[cls], now) then 1 else 0)
  {
    var _ := db.PurgeExpired(cls, now);
    SurvivorsIdempotent(old(db.tables)[cls], now);
    var _ := db.PurgeExpired(cls, now);
  }
}
