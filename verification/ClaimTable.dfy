/** The `claims` table and its migration to canonical keys. */
module ClaimTable {
  import opened ClaimKeys

  /** `claims`: consumption_key to claimed_at. */
  type Table = map<string, real>

  /** Every stored claim is also stored under its canonical key. */
  predicate Closed(rows: Table) {
    forall key | key in rows :: CanonicalKey(key) in rows
  }

  /** `_NEEDS_MIGRATION_SQL` */
  predicate NeedsMigration(rows: Table) {
    exists key | key in rows :: PendingWhere(key, rows.Keys)
  }

  /** The rows `_MIGRATE_SQL` selects, and the groups it forms of them. */
  function PendingRows(rows: Table): set<string> {
    set key | key in rows && PendingWhere(key, rows.Keys)
  }

  function PendingGroups(rows: Table): set<string> {
    set key | key in PendingRows(rows) :: CanonicalSql(key)
  }

  function GroupTimes(rows: Table, canonical: string): set<real> {
    set key | key in PendingRows(rows) && CanonicalSql(key) == canonical :: rows[key]
  }

  /** SQL's `min` of a group. */
  function Earliest(times: set<real>): (m: real)
    requires times != {}
    ensures m in times && forall t | t in times :: m <= t
  {
    EarliestExists(times);
    var m :| m in times && forall t | t in times :: m <= t;
    m
  }

  lemma Pick<T>(s: set<T>) returns (x: T)
    requires s != {}
    ensures x in s
  {
    x :| x in s;
  }

  lemma {:induction false} EarliestExists(times: set<real>)
    requires times != {}
    ensures exists m :: m in times && forall t | t in times :: m <= t
  {
    var x := Pick(times);
    if times == {x} {
    } else {
      var rest := times - {x};
      EarliestExists(rest);
      var m :| m in rest && forall t | t in rest :: m <= t;
      var least := if m <= x then m else x;
      assert forall t | t in times :: t in rest || t == x;
      assert least in times && forall t | t in times :: least <= t;
    }
  }

  lemma GroupHasTime(rows: Table, canonical: string)
    requires canonical in PendingGroups(rows)
    ensures GroupTimes(rows, canonical) != {}
  {
    var key :| key in PendingRows(rows) && CanonicalSql(key) == canonical;
    assert rows[key] in GroupTimes(rows, canonical);
  }

  function GroupTime(rows: Table, canonical: string): real
    requires canonical in PendingGroups(rows)
  {
    GroupHasTime(rows, canonical);
    Earliest(GroupTimes(rows, canonical))
  }

  /** `_MIGRATE_SQL`: INSERT OR IGNORE one row per group, with the group's earliest time. */
  function Migrate(rows: Table): Table {
    (map canonical | canonical in PendingGroups(rows) :: GroupTime(rows, canonical)) + rows
  }

  // ------------------------------------------------------------------ what the migration means

  /** The classes of claims a table holds: the simple set the store has to agree with. */
  function Classes(rows: Table): set<string> {
    set key | key in rows :: CanonicalKey(key)
  }

  lemma PendingMeans(rows: Table, key: string)
    requires key in rows
    ensures key in PendingRows(rows) <==> CanonicalKey(key) !in rows
    ensures key in PendingRows(rows) ==> CanonicalSql(key) == CanonicalKey(key)
  {
    PendingWhereExact(key, rows.Keys);
    CanonicalForms(key);
  }

  /** "Nothing to migrate" holds exactly when the table is closed. */
  lemma NeedsMigrationExact(rows: Table)
    ensures NeedsMigration(rows) <==> !Closed(rows)
  {
    forall key | key in rows
      ensures PendingWhere(key, rows.Keys) <==> CanonicalKey(key) !in rows
    {
      PendingMeans(rows, key);
    }
  }

  /** A key is added exactly when some stored row has it as canonical key and it is not stored. */
  lemma GroupsAreMissingClasses(rows: Table)
    ensures PendingGroups(rows) == Classes(rows) - rows.Keys
  {
    forall c ensures c in PendingGroups(rows) <==> c in Classes(rows) - rows.Keys {
      if c in PendingGroups(rows) {
        var key :| key in PendingRows(rows) && CanonicalSql(key) == c;
        PendingMeans(rows, key);
      }
      if c in Classes(rows) - rows.Keys {
        var key :| key in rows && CanonicalKey(key) == c;
        PendingMeans(rows, key);
      }
    }
  }

  /** The migrated table is the least closed table above the old one; old rows keep their times. */
  lemma MigrateIsLeastClosure(rows: Table)
    ensures Closed(Migrate(rows))
    ensures rows.Keys <= Migrate(rows).Keys
    ensures forall key | key in rows :: Migrate(rows)[key] == rows[key]
    ensures forall other: Table | Closed(other) && rows.Keys <= other.Keys :: Migrate(rows).Keys <= other.Keys
    ensures Classes(Migrate(rows)) == Classes(rows)
  {
    hide CanonicalKey, Migrate;
    MigrateAddsClasses(rows);
    var after := Migrate(rows);
    forall key | key in after ensures CanonicalKey(key) in Classes(rows) {
      if key in Classes(rows) {
        var k :| k in rows && CanonicalKey(k) == key;
        CanonicalIdempotent(k);
      }
    }
  }

  lemma MigrateAddsClasses(rows: Table)
    ensures Migrate(rows).Keys == Classes(rows) + rows.Keys
    ensures forall key | key in rows :: Migrate(rows)[key] == rows[key]
  {
    hide CanonicalKey, Classes, PendingGroups;
    GroupsAreMissingClasses(rows);
  }

  /** A new row carries the earliest time of its class. */
  lemma MigrateTakesEarliest(rows: Table, canonical: string)
    requires canonical in Migrate(rows) && canonical !in rows
    ensures exists key | key in rows :: CanonicalKey(key) == canonical && Migrate(rows)[canonical] == rows[key]
    ensures forall key | key in rows && CanonicalKey(key) == canonical :: Migrate(rows)[canonical] <= rows[key]
  {
    GroupsAreMissingClasses(rows);
    GroupHasTime(rows, canonical);
    var times := GroupTimes(rows, canonical);
    forall key | key in rows
      ensures CanonicalKey(key) == canonical <==> key in PendingRows(rows) && CanonicalSql(key) == canonical
    {
      PendingMeans(rows, key);
    }
    forall key | key in rows && CanonicalKey(key) == canonical ensures Earliest(times) <= rows[key] {
      assert rows[key] in times;
    }
  }

  /** A closed table is left alone; in particular migrating twice is migrating once. */
  lemma MigrateIdempotent(rows: Table)
    ensures Closed(rows) ==> Migrate(rows) == rows
    ensures Migrate(Migrate(rows)) == Migrate(rows)
  {
    MigrateOfClosed(rows);
    MigrateIsLeastClosure(rows);
    MigrateOfClosed(Migrate(rows));
  }

  lemma MigrateOfClosed(rows: Table)
    ensures Closed(rows) ==> Migrate(rows) == rows
  {
    GroupsAreMissingClasses(rows);
    if Closed(rows) {
      assert PendingGroups(rows) == {};
    }
  }

  /** In a closed table a class is held exactly when its canonical key is stored; looking up one key suffices. */
  lemma ClosedLookup(rows: Table, key: string)
    requires Closed(rows)
    ensures CanonicalKey(key) in rows <==> CanonicalKey(key) in Classes(rows)
  {
    CanonicalIdempotent(key);
  }
}
