/**
 * The schema version oracle: classifies the migration heads read from the
 * store's version table against the revision this software requires and the
 * set of revisions it recognizes (tiled/database/core.py, get_current_revision
 * and check_database).
 */
module SchemaVersion {
  import opened Wrappers

  /** An Alembic revision identifier, an opaque string. */
  type Revision = string

  /** The revision of the schema this version of the software requires. */
  const REQUIRED_REVISION: Revision := "481830dd6c11"

  /** Every revision this version of the software can interpret. */
  const ALL_REVISIONS: set<Revision> := {"481830dd6c11"}

  /** The three exception classes, with the values their messages name. */
  datatype SchemaError =
    | UnrecognizedDatabase(heads: seq<Revision>)
    | UninitializedDatabase
    | DatabaseUpgradeNeeded(found: Revision, required: Revision)

  /** What get_current_revision returns or raises. */
  datatype Result<+T> = Ok(value: T) | Err(error: SchemaError)

  /** What check_database returns (None) or raises. */
  datatype Outcome = Pass | Fail(error: SchemaError)

  /**
   * The single recognized head, None when there is no head at all, and
   * UnrecognizedDatabase for several heads or for one head outside
   * `recognized`.
   */
  function CurrentRevision(heads: seq<Revision>, recognized: set<Revision>): (r: Result<Option<Revision>>)
    ensures r == Ok(None) <==> heads == []
    ensures r.Ok? && r.value.Some? <==> |heads| == 1 && heads[0] in recognized
    ensures r.Ok? && r.value.Some? ==> heads == [r.value.value]
    ensures r.Err? <==> |heads| >= 2 || (|heads| == 1 && heads[0] !in recognized)
    ensures r.Err? ==> r.error == UnrecognizedDatabase(heads)
  {
    if heads == [] then
      Ok(None)
    else if |heads| != 1 then
      Err(UnrecognizedDatabase(heads))
    else if heads[0] !in recognized then
      Err(UnrecognizedDatabase(heads))
    else
      Ok(Some(heads[0]))
  }

  /**
   * Passes exactly when the store holds the one head `required` (and it is
   * recognized); otherwise says why the store cannot be used.
   */
  function CheckDatabase(heads: seq<Revision>, required: Revision, recognized: set<Revision>): (r: Outcome)
    ensures r == Pass <==> heads == [required] && required in recognized
    ensures r == Fail(UninitializedDatabase) <==> heads == []
    ensures r.Fail? && r.error.UnrecognizedDatabase? <==>
              |heads| >= 2 || (|heads| == 1 && heads[0] !in recognized)
    ensures r.Fail? && r.error.UnrecognizedDatabase? ==> r.error.heads == heads
    ensures r.Fail? && r.error.DatabaseUpgradeNeeded? <==>
              |heads| == 1 && heads[0] in recognized && heads[0] != required
    ensures r.Fail? && r.error.DatabaseUpgradeNeeded? ==> r.error == DatabaseUpgradeNeeded(heads[0], required)
  {
    match CurrentRevision(heads, recognized)
    case Err(e) => Fail(e)
    case Ok(None) => Fail(UninitializedDatabase)
    case Ok(Some(revision)) =>
      if revision != required then Fail(DatabaseUpgradeNeeded(revision, required)) else Pass
  }

  /**
   * Two heads or more are refused whatever their values, even when each of
   * them is recognized.
   */
  lemma SeveralHeadsUnrecognized(heads: seq<Revision>, required: Revision, recognized: set<Revision>)
    requires |heads| >= 2
    ensures CurrentRevision(heads, recognized) == Err(UnrecognizedDatabase(heads))
    ensures CheckDatabase(heads, required, recognized) == Fail(UnrecognizedDatabase(heads))
  {
  }

  /** A store stamped at the required revision passes the check. */
  lemma StampedAtRequiredPasses(required: Revision, recognized: set<Revision>)
    requires required in recognized
    ensures CurrentRevision([required], recognized) == Ok(Some(required))
    ensures CheckDatabase([required], required, recognized) == Pass
  {
  }

  /**
   * With the constants this version ships, the recognized set holds only the
   * required revision, so no store can be asked to upgrade: every single
   * head is either the required one or unrecognized.
   */
  lemma ShippedConstantsNeverAskForUpgrade(heads: seq<Revision>)
    ensures REQUIRED_REVISION in ALL_REVISIONS
    ensures !CheckDatabase(heads, REQUIRED_REVISION, ALL_REVISIONS).Fail?
            || !CheckDatabase(heads, REQUIRED_REVISION, ALL_REVISIONS).error.DatabaseUpgradeNeeded?
  {
  }
}
