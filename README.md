# Tiled database core, modelled in Dafny

This project models the decision and update logic of Tiled's database glue
(`tiled/database/core.py`). That logic sits on top of SQLAlchemy and Alembic in
the original. It has four parts:

- **Schema version oracle.** `get_current_revision` classifies the heads of Alembic's
  version table against the set of recognized revisions. `check_database`
  turns the result into a verdict: uninitialized, upgrade needed, unrecognized or OK.
- **Bootstrapper and role registry.** `create_default_roles` seeds the `user` and
  `admin` roles with their fixed scope lists. `initialize_database` seeds them and stamps
  the version table at the head revision.
- **Identity provisioner.** `create_user` commits a new principal, reads back its
  generated id, and then commits the identity row bound to it.
  `make_admin_by_identity` resolves an identity, provisioning a user when the identity
  is unbound, and appends the `admin` role.
- **Expiry reaper.** `purge_expired` deletes every row whose expiration time is set
  and strictly before one cutoff `now`. It commits only if something was deleted,
  and returns the table it was given.

The modules are:

- `SchemaVersion`: pure functions over the heads sequence. The required revision and
  the recognized set are parameters. The shipped constants are `REQUIRED_REVISION` and
  `ALL_REVISIONS`.
- `Roles`: role rows, the built-in roles, and a lookup by name that returns the first
  matching row, as `.first()` does.
- `Reaper`: the expiry predicate, the surviving and purged rows as functions, and
  `Sweep`, the deletion loop, proved against them.
- `Store`: a class `Database`. Its fields stand for the version table, the role table,
  principals, identities, the store's key generator and the expirable tables. A ghost
  counter records successful commits. Every method names the fields it may change,
  so "nothing else changes" is enforced by its frame. `CheckDatabase` has no
  `modifies` clause, so it cannot change anything. Client methods at the end of the
  module state the multi-call scenarios.

Two behaviours of the code are worth knowing, and the model follows the code:

- Elevation might be expected to be idempotent, but it is not.
  `make_admin_by_identity` appends `admin` to the role list with no membership
  check (tiled/database/core.py:164). `Store.ElevateTwice` proves that two elevations
  of one identity leave the role list as `user, admin, admin`.
- A missing `user` or `admin` role raises no error of its own in the code, because
  `.first()` just yields None (tiled/database/core.py:137, 163). The model takes the
  presence of these roles as a precondition.

The model assumes two uniqueness constraints of the store: role names, and
(provider, id) on the identity table. The ORM module that declares them is not part
of this model. Where the code would break one of these constraints, the store refuses
the commit. Seeding over an existing `user` or `admin` row adds nothing and the stamp
does not happen. Binding a pair that is already bound leaves the principal from the
first commit without an identity.

## Model

| member | source | states |
|---|---|---|
| `SchemaVersion.CurrentRevision` | tiled/database/core.py:76-96 | Returns None exactly when there are no heads. Returns the head exactly when there is one head and it is recognized. In every other case (two or more heads, or one unrecognized head) it fails with UnrecognizedDatabase, carrying the heads. |
| `SchemaVersion.CheckDatabase` | tiled/database/core.py:99-110 | Passes exactly when the heads are the required revision alone. No heads gives UninitializedDatabase. A recognized head different from the required one gives DatabaseUpgradeNeeded, carrying both revisions. Otherwise the result is UnrecognizedDatabase. |
| `SchemaVersion.SeveralHeadsUnrecognized` | tiled/database/core.py:81-89 | Two or more heads are refused as unrecognized, whatever their values, both by the revision read and by the check. |
| `SchemaVersion.StampedAtRequiredPasses` | tiled/database/core.py:90-110 | A store stamped at the required revision yields that revision and passes the check. |
| `SchemaVersion.ShippedConstantsNeverAskForUpgrade` | tiled/database/core.py:14-16 | With the shipped constants, the required revision is recognized and no store can get DatabaseUpgradeNeeded. |
| `Roles.FindRole` | tiled/database/core.py:137 | Returns None exactly when no row has the name. Otherwise it returns a row with that name that sits before every other row with that name. |
| `Roles.FindRoleAppend` | tiled/database/core.py:163 | Appending rows never changes a lookup the existing rows already answer. When the existing rows do not answer it, the appended rows do. |
| `Roles.SeedingKeepsNamesUnique` | tiled/database/core.py:24-44 | On a registry with unique names, adding the two built-in rows keeps names unique exactly when neither `user` nor `admin` is already present. |
| `Roles.SeededRolesFound` | tiled/database/core.py:24-43 | After seeding a registry that holds neither built-in name, `user` and `admin` resolve to the seeded rows. Their scopes are exactly the literal lists, in order. |
| `Reaper.Expired` | tiled/database/core.py:126 | A row is expired when its expiration time is set and strictly before `now`. A null expiration never matches. |
| `Reaper.ExpiredMeaning` | tiled/database/core.py:126 | A null expiration is never expired at any cutoff. A set expiration is expired exactly when it is before `now`, and a row expired at one cutoff stays expired at every later one. |
| `Reaper.Sweep` | tiled/database/core.py:121-131 | The loop keeps exactly the surviving rows. `deleted` is true exactly when some row is expired at `now`. |
| `Reaper.SurvivorsMembership` | tiled/database/core.py:123-129 | A row survives exactly when it was in the table and is not expired: its expiration is null, or at or after `now`. A row is purged exactly when it is expired. |
| `Reaper.SurvivorsAndPurgedPartition` | tiled/database/core.py:123-129 | The surviving and purged rows together are, as a multiset, exactly the original table. No row is lost, duplicated or altered. |
| `Reaper.SurvivorsUnchangedIffClean` | tiled/database/core.py:122-131 | The table is left unchanged exactly when no row is expired, so on a clean table the sweep is a no-op. It never grows. |
| `Reaper.SurvivorsIdempotent` | tiled/database/core.py:121-129 | After a sweep no expired row remains, and a second sweep with the same cutoff changes nothing. |
| `Store.Database.constructor` | tiled/database/core.py:53 | The store as it stands after `create_all` on an empty database: no version stamp and no rows, and each given expirable table present and empty. |
| `Store.Database.CheckDatabase` | tiled/database/core.py:99-110 | Read-only (no modifies clause). Its verdict is the classification of the stored heads, and it passes exactly when the store holds the required recognized revision. |
| `Store.Database.CreateDefaultRoles` | tiled/database/core.py:19-44 | Role names stay unique. When neither `user` nor `admin` exists, it appends exactly the `user` row and then the `admin` row, with their literal scopes, in one commit. Otherwise the commit is refused and the role table is unchanged. |
| `Store.Database.InitializeDatabase` | tiled/database/core.py:47-61 | When the roles can be seeded, it seeds the two built-in roles and sets the version table to the single given head. When seeding is refused, it changes neither the roles nor the version table. |
| `Store.Database.PurgeExpired` | tiled/database/core.py:113-132 | Returns the table it was given. That table becomes its surviving rows, and no other table changes. One commit happens exactly when some row was expired. |
| `Store.Database.CreateUser` | tiled/database/core.py:135-149 | Adds one principal of type user whose roles are exactly [user role], under an id not used before. If the (provider, id) pair was unbound, it binds the pair to that id and commits twice. Otherwise the identity insert is refused and the principal stays, committed once. Existing rows are unchanged. |
| `Store.Database.MakeAdminByIdentity` | tiled/database/core.py:152-166 | For a bound pair, no principal or identity is created and the bound principal's roles gain `admin` at the end. For an unbound pair, a new user is provisioned with roles [user, admin] and the pair is bound to it. Afterwards the pair resolves to the returned id. |
| `Store.InitializeThenCheck` | tiled/database/core.py:47-110 | A fresh store fails the check as uninitialized. After initialization at the required revision, it passes, and `admin` has scopes read:metadata, read:data, admin:apikeys, read:principals, metrics. |
| `Store.CreateThenElevate` | tiled/database/core.py:135-166 | Creating a user and then elevating the same pair returns the same principal id. That principal is the only new one, and its roles are [user, admin]. |
| `Store.ElevateTwice` | tiled/database/core.py:152-166 | Two elevations of one unbound pair create a single principal, and its role list ends as [user, admin, admin]. The append is not idempotent. |
| `Store.PurgeTwice` | tiled/database/core.py:113-132 | After one purge no expired row is left. A second purge with the same cutoff changes no table and commits nothing. |

## Left out

- Alembic internals are not modelled: the migration context, reading the current heads, `command.stamp`, and the temporary alembic.ini. The heads are the field `heads`, and stamping "head" sets it to the single head value passed in.
- `Base.metadata.create_all` is DDL and is not modelled. The constructor takes the set of table names that exist.
- The SQLAlchemy engine, sessions and queries are replaced by fields that the methods reassign. A commit is a ghost counter, and rollback on an exception is not modelled.
- `datetime.utcnow()`, the wall clock, becomes the parameter `now`, a single value for the whole call. Timestamps are integers.
- Error message strings are left out. Each error carries its kind and the revisions its message names.
- The store generates principal ids as UUIDs. The model uses a counter (`nextId`) that yields an id not used before; the values themselves are not modelled.
- `.first()` has no ORDER BY, so on a real store which of several same-named roles comes back is up to the database. The model returns the first row in insertion order.
- The ORM module that declares the tables and their constraints is not part of this model. The uniqueness of role names and of (provider, id) is assumed. It appears as `UniqueNames` in `Valid()` with the refused seeding commit, and as the identity map with the refused second commit in `CreateUser`.
- A missing `user` or `admin` role is not an error path, because the code defines none. `CreateUser` and `MakeAdminByIdentity` require these roles to exist.
- Concurrency and transaction isolation belong to the database and are not modelled.
- Principals of type service are declared but never created, because no operation here creates one.
