/**
 * The expiry reaper: which rows of a table of expirable records purge_expired
 * deletes, for one cutoff `now` taken once per call
 * (tiled/database/core.py:113-132).
 */
module Reaper {
  import opened Wrappers

  /** A point in time, as a count of clock ticks; the clock itself is not modelled. */
  type Timestamp = int

  /** A row of any record kind that carries an optional expiration time. */
  datatype Expirable = Expirable(rowId: nat, expirationTime: Option<Timestamp>)

  /**
   * A row is expired when its expiration time is set and strictly before
   * `now`; a null expiration never compares less than anything.
   */
  predicate Expired(r: Expirable, now: Timestamp) {
    r.expirationTime.Some? && r.expirationTime.value < now
  }

  /**
   * A null expiration never matches, whatever the cutoff, and a row that is
   * expired at one cutoff stays expired at every later one.
   */
  lemma ExpiredMeaning(r: Expirable, now: Timestamp)
    ensures r.expirationTime.None? ==> !Expired(r, now)
    ensures r.expirationTime.Some? ==> (Expired(r, now) <==> r.expirationTime.value < now)
    ensures Expired(r, now) ==> forall later :: later >= now ==> Expired(r, later)
  {
  }

  predicate HasExpired(rows: seq<Expirable>, now: Timestamp) {
    exists i :: 0 <= i < |rows| && Expired(rows[i], now)
  }

  /** The rows that are left, in their original order. */
  function Survivors(rows: seq<Expirable>, now: Timestamp): seq<Expirable>
    decreases |rows|
  {
    if rows == [] then []
    else
      var last := rows[|rows| - 1];
      Survivors(rows[..|rows| - 1], now) + (if Expired(last, now) then [] else [last])
  }

  /** The rows that are deleted, in their original order. */
  function Purged(rows: seq<Expirable>, now: Timestamp): seq<Expirable>
    decreases |rows|
  {
    if rows == [] then []
    else
      var last := rows[|rows| - 1];
      Purged(rows[..|rows| - 1], now) + (if Expired(last, now) then [last] else [])
  }

  /**
   * The loop of purge_expired over one table: every expired row is deleted,
   * and `deleted` records whether any was, which decides the commit.
   */
  method Sweep(rows: seq<Expirable>, now: Timestamp) returns (survivors: seq<Expirable>, deleted: bool)
    ensures survivors == Survivors(rows, now)
    ensures deleted <==> HasExpired(rows, now)
  {
    survivors := [];
    deleted := false;
    var i := 0;
    while i < |rows|
      invariant 0 <= i <= |rows|
      invariant survivors == Survivors(rows[..i], now)
      invariant deleted <==> HasExpired(rows[..i], now)
    {
      assert rows[..i + 1][..i] == rows[..i];
      if Expired(rows[i], now) {
        deleted := true;
      } else {
        survivors := survivors + [rows[i]];
      }
      assert HasExpired(rows[..i + 1], now) <==> HasExpired(rows[..i], now) || Expired(rows[i], now) by {
        if HasExpired(rows[..i], now) {
          var k :| 0 <= k < i && Expired(rows[..i][k], now);
          assert rows[..i + 1][k] == rows[..i][k];
        }
        if HasExpired(rows[..i + 1], now) {
          var k :| 0 <= k < i + 1 && Expired(rows[..i + 1][k], now);
          if k < i { assert rows[..i][k] == rows[..i + 1][k]; }
        }
        assert rows[..i + 1][i] == rows[i];
      }
      i := i + 1;
    }
    assert rows[..i] == rows;
  }

  /**
   * A row is kept exactly when it was in the table and is not expired; it is
   * deleted exactly when it was in the table and is expired.
   */
  lemma {:induction false} SurvivorsMembership(rows: seq<Expirable>, now: Timestamp, x: Expirable)
    ensures x in Survivors(rows, now) <==> x in rows && !Expired(x, now)
    ensures x in Purged(rows, now) <==> x in rows && Expired(x, now)
    decreases |rows|
  {
    if rows != [] {
      var init := rows[..|rows| - 1];
      assert rows == init + [rows[|rows| - 1]];
      SurvivorsMembership(init, now, x);
    }
  }

  /**
   * The table is split between the rows kept and the rows deleted, with no
   * row lost, duplicated or altered.
   */
  lemma {:induction false} SurvivorsAndPurgedPartition(rows: seq<Expirable>, now: Timestamp)
    ensures multiset(Survivors(rows, now)) + multiset(Purged(rows, now)) == multiset(rows)
    decreases |rows|
  {
    if rows != [] {
      var init := rows[..|rows| - 1];
      assert rows == init + [rows[|rows| - 1]];
      SurvivorsAndPurgedPartition(init, now);
    }
  }

  /** Rows are deleted exactly when some row is expired; otherwise the table is untouched. */
  lemma {:induction false} SurvivorsUnchangedIffClean(rows: seq<Expirable>, now: Timestamp)
    ensures Survivors(rows, now) == rows <==> !HasExpired(rows, now)
    ensures |Survivors(rows, now)| <= |rows|
    decreases |rows|
  {
    if rows != [] {
      var n := |rows| - 1;
      var init := rows[..n];
      SurvivorsUnchangedIffClean(init, now);
      assert HasExpired(rows, now) <==> HasExpired(init, now) || Expired(rows[n], now) by {
        if HasExpired(init, now) {
          var k :| 0 <= k < n && Expired(init[k], now);
          assert rows[k] == init[k];
        }
        if HasExpired(rows, now) {
          var k :| 0 <= k < n + 1 && Expired(rows[k], now);
          if k < n { assert init[k] == rows[k]; }
        }
      }
      if Survivors(rows, now) == rows && !Expired(rows[n], now) {
        assert Survivors(init, now) + [rows[n]] == init + [rows[n]];
        assert Survivors(init, now) == (Survivors(init, now) + [rows[n]])[..n];
      }
      if !HasExpired(rows, now) {
        assert rows == init + [rows[n]];
      }
    }
  }

  /** Sweeping a swept table with the same cutoff deletes nothing more. */
  lemma {:induction false} SurvivorsIdempotent(rows: seq<Expirable>, now: Timestamp)
    ensures !HasExpired(Survivors(rows, now), now)
    ensures Survivors(Survivors(rows, now), now) == Survivors(rows, now)
  {
    var s := Survivors(rows, now);
    if HasExpired(s, now) {
      var k :| 0 <= k < |s| && Expired(s[k], now);
      SurvivorsMembership(rows, now, s[k]);
    }
    SurvivorsUnchangedIffClean(s, now);
  }
}
