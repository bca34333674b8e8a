/** `ClaimStore`: one handle on the shared `claims` table. */
module ClaimStores {
  import opened Text
  import opened ClaimKeys
  import opened ClaimTable

  /** Which SQL statements of one migration attempt raise sqlite3.Error. */
  datatype MigrateFaults = MigrateFaults(onSelect: bool, onBegin: bool, onInsert: bool, onCommit: bool)

  /** Which SQL statements of one claim raise. */
  datatype ClaimFaults = ClaimFaults(onBegin: bool, onScan: bool, onLookup: bool,
                                      onInsert: bool, onRecord: bool, onCommit: bool)

  const NO_FAULTS := ClaimFaults(false, false, false, false, false, false)

  datatype Outcome = Won | Spent | Raised

  // ------------------------------------------------------------------ the atomic steps

  /** A migration attempt: the table and the pending flag after it. */
  function MigrateStep(rows: Table, f: MigrateFaults): (Table, bool) {
    if f.onSelect then (rows, true)
    else if !NeedsMigration(rows) then (rows, false)
    else if f.onBegin || f.onInsert || f.onCommit then (rows, true)
    else (Migrate(rows), false)
  }

  predicate HeldUnderOldSpelling(rows: Table, canonical: string) {
    exists key | key in rows :: OldSpellingWhere(key, canonical)
  }

  /** The second key a claim is recorded under: the key as sent, when it is another one. */
  function Other(canonical: string, asSent: Option<string>): Option<string> {
    if asSent.Some? && asSent.value != canonical then asSent else None
  }

  /** What a claim looks up. */
  predicate Held(rows: Table, pending: bool, canonical: string, other: Option<string>) {
    || canonical in rows
    || (pending && HeldUnderOldSpelling(rows, canonical))
    || (other.Some? && other.value in rows)
  }

  function Record(rows: Table, canonical: string, other: Option<string>, now: real): Table {
    var claimed := rows[canonical := now];
    if other.Some? && other.value !in claimed then claimed[other.value := now] else claimed
  }

  /** The claiming transaction: the table and the outcome after it. */
  function ClaimStep(rows: Table, pending: bool, canonical: string, other: Option<string>, now: real, f: ClaimFaults)
    : (Table, Outcome)
  {
    if (pending || other.Some?) && f.onBegin then (rows, Raised)
    else if pending && f.onScan then (rows, Raised)
    else if pending && HeldUnderOldSpelling(rows, canonical) then (rows, Spent)
    else if other.Some? && f.onLookup then (rows, Raised)
    else if other.Some? && other.value in rows then (rows, Spent)
    else if f.onInsert then (rows, Raised)
    else if canonical in rows then (rows, Spent)
    else if (other.Some? && f.onRecord) || f.onCommit then (rows, Raised)
    else (Record(rows, canonical, other, now), Won)
  }

  /** A claim call with nobody else writing: retry a pending migration, then claim. The table, the pending flag and the
      outcome after it. */
  function ClaimCall(rows: Table, pending: bool, canonical: string, asSent: Option<string>, now: real,
                     mf: MigrateFaults, f: ClaimFaults): (Table, bool, Outcome)
  {
    var (migrated, stillPending) := if pending then MigrateStep(rows, mf) else (rows, false);
    var (after, r) := ClaimStep(migrated, stillPending, canonical, Other(canonical, asSent), now, f);
    (after, stillPending, r)
  }

  // ------------------------------------------------------------------ the class

  /** The database file, shared by every handle on it. */
  class ClaimsDb {
    var rows: Table

    constructor ()
      ensures rows == map[]
    {
      rows := map[];
    }
  }

  class ClaimStore {
    const db: ClaimsDb
    var migrationPending: bool

    /** Opening never fails for a migration that could not run; it stays pending. */
    constructor (db: ClaimsDb, f: MigrateFaults)
      modifies db
      ensures this.db == db
      ensures (db.rows, migrationPending) == MigrateStep(old(db.rows), f)
    {
      this.db := db;
      migrationPending := true;
      new;
      MigrateLocked(f);
    }

    method MigrateLocked(f: MigrateFaults)
      modifies this`migrationPending, db`rows
      ensures (db.rows, migrationPending) == MigrateStep(old(db.rows), f)
    {
      migrationPending := true;
      if f.onSelect {
        return;
      }
      var needed := NeedsMigration(db.rows);
      if !needed {
        migrationPending := false;
        return;
      }
      if f.onBegin {
        return;
      }
      var saved := db.rows;
      if f.onInsert {
        return;
      }
      db.rows := Migrate(db.rows);
      if f.onCommit {
        db.rows := saved;
        return;
      }
      migrationPending := false;
    }

    /** `_claim_spellings`: retry a pending migration, then claim in one transaction. A raised error, and a refusal,
        leave the table as the migration attempt left it. */
    method ClaimSpellings(canonical: string, asSent: Option<string>, now: real, mf: MigrateFaults, f: ClaimFaults)
      returns (r: Outcome)
      modifies this`migrationPending, db`rows
      ensures (db.rows, migrationPending, r)
           == ClaimCall(old(db.rows), old(migrationPending), canonical, asSent, now, mf, f)
    {
      if migrationPending {
        MigrateLocked(mf);
      }
      var pending := migrationPending;
      var other := if asSent.Some? && asSent.value != canonical then asSent else None;
      var saved := db.rows;
      if pending || other.Some? {
        if f.onBegin {
          return Raised;
        }
        if pending {
          if f.onScan {
            return Raised;
          }
          if HeldUnderOldSpelling(db.rows, canonical) {
            return Spent;
          }
        }
        if other.Some? {
          if f.onLookup {
            return Raised;
          }
          if other.value in db.rows {
            return Spent;
          }
        }
      }
      if f.onInsert {
        return Raised;
      }
      if canonical in db.rows {
        return Spent;
      }
      db.rows := db.rows[canonical := now];
      if other.Some? {
        if f.onRecord {
          db.rows := saved;
          return Raised;
        }
        if other.value !in db.rows {
          db.rows := db.rows[other.value := now];
        }
      }
      if f.onCommit {
        db.rows := saved;
        return Raised;
      }
      return Won;
    }

    method Claim(key: string, now: real, mf: MigrateFaults, f: ClaimFaults) returns (r: Outcome)
      modifies this`migrationPending, db`rows
      ensures (db.rows, migrationPending, r)
           == ClaimCall(old(db.rows), old(migrationPending), CanonicalKey(key), None, now, mf, f)
    {
      r := ClaimSpellings(CanonicalKey(key), None, now, mf, f);
    }

    /** `is_claimed`; None when the database raised. */
    method IsClaimed(key: string, lookupRaises: bool, scanRaises: bool) returns (r: Option<bool>)
      ensures r == if lookupRaises || (scanRaises && migrationPending && CanonicalKey(key) !in db.rows) then None
                   else Some(Held(db.rows, migrationPending, CanonicalKey(key), None))
    {
      var canonical := CanonicalKey(key);
      if lookupRaises {
        return None;
      }
      var found := canonical in db.rows;
      if !found && migrationPending {
        if scanRaises {
          return None;
        }
        return Some(HeldUnderOldSpelling(db.rows, canonical));
      }
      return Some(found);
    }
  }

  // ------------------------------------------------------------------ what a store means

  /** What a store has to keep: it may trust single-key lookups only on a closed table. */
  predicate Sound(rows: Table, pending: bool) {
    pending || Closed(rows)
  }

  /** A claim the library makes: a canonical key with no false alias, and a spelling of that key. */
  predicate Claimable(canonical: string, other: Option<string>) {
    && CanonicalKey(canonical) == canonical
    && !HasFalseAlias(canonical)
    && (other.Some? ==> CanonicalKey(other.value) == canonical)
  }

  /** The closed-table lookup, the full scan and the check of the key as sent all answer one question: is this class of
      claims held? */
  lemma HeldMeansClassHeld(rows: Table, pending: bool, canonical: string, other: Option<string>)
    requires Sound(rows, pending) && Claimable(canonical, other)
    ensures Held(rows, pending, canonical, other) <==> canonical in Classes(rows)
  {
    OldSpellingExactIff(canonical);
    if canonical in Classes(rows) {
      var key :| key in rows && CanonicalKey(key) == canonical;
      if key != canonical {
        CanonicalForms(key);
        CanonicalIsWellShaped(key);
        OldSpellingExact(key, canonical);
      }
    }
  }

  /** A claim is won only if its class was not held, and refused only if it was; without database errors it is won
      exactly then. Only a won claim changes the table, and it adds exactly its class. */
  lemma ClaimStepMeaning(rows: Table, pending: bool, canonical: string, other: Option<string>, now: real,
                         f: ClaimFaults)
    requires Sound(rows, pending) && Claimable(canonical, other)
    ensures var (after, r) := ClaimStep(rows, pending, canonical, other, now, f);
      && (r == Won ==> canonical !in Classes(rows))
      && (r == Spent ==> canonical in Classes(rows))
      && (f == NO_FAULTS ==> r != Raised)
      && (r != Won ==> after == rows)
      && (r == Won ==> Classes(after) == Classes(rows) + {canonical})
      && rows.Keys <= after.Keys
      && (forall key | key in rows :: after[key] == rows[key])
      && (r == Won ==> after.Keys == rows.Keys + {canonical} + (if other.Some? then {other.value} else {}))
      && (r == Won ==> after[canonical] == now && (other.Some? ==> after[other.value] == now))
      && Sound(after, pending)
      && (Closed(rows) ==> Closed(after))
  {
    hide ClaimStep, Claimable, Held, Record, Closed, Classes, CanonicalKey;
    HeldMeansClassHeld(rows, pending, canonical, other);
    ClaimStepOutcome(rows, pending, canonical, other, now, f);
    if ClaimStep(rows, pending, canonical, other, now, f).1 == Won {
      NotHeldMeansAbsent(rows, pending, canonical, other);
      RecordMeaning(rows, canonical, other, now);
    }
  }

  lemma NotHeldMeansAbsent(rows: Table, pending: bool, canonical: string, other: Option<string>)
    requires !Held(rows, pending, canonical, other)
    ensures canonical !in rows && (other.Some? ==> other.value !in rows)
  {
  }

  lemma ClaimStepOutcome(rows: Table, pending: bool, canonical: string, other: Option<string>, now: real,
                         f: ClaimFaults)
    ensures var (after, r) := ClaimStep(rows, pending, canonical, other, now, f);
      && (r == Won ==> !Held(rows, pending, canonical, other) && after == Record(rows, canonical, other, now))
      && (r == Spent ==> Held(rows, pending, canonical, other))
      && (r != Won ==> after == rows)
      && (f == NO_FAULTS ==> r != Raised)
  {
    hide HeldUnderOldSpelling, Record;
  }

  lemma RecordMeaning(rows: Table, canonical: string, other: Option<string>, now: real)
    requires Claimable(canonical, other)
    ensures var after := Record(rows, canonical, other, now);
      && Classes(after) == Classes(rows) + {canonical}
      && after.Keys == rows.Keys + {canonical} + (if other.Some? then {other.value} else {})
      && (forall key | key in rows && key != canonical :: after[key] == rows[key])
      && after[canonical] == now && (other.Some? && other.value !in rows ==> after[other.value] == now)
      && (Closed(rows) ==> Closed(after))
  {
    hide CanonicalKey, HasFalseAlias;
    var after := Record(rows, canonical, other, now);
    forall c ensures c in Classes(after) <==> c in Classes(rows) + {canonical} {
      if c in Classes(rows) {
        var key :| key in rows && CanonicalKey(key) == c;
        assert key in after;
      }
      if c == canonical {
        assert canonical in after;
      }
    }
  }

  /** A migration attempt, failed or not, keeps the classes and leaves a store sound. */
  lemma MigrateStepMeaning(rows: Table, f: MigrateFaults)
    ensures var (after, pending) := MigrateStep(rows, f);
      && Sound(after, pending)
      && Classes(after) == Classes(rows)
      && rows.Keys <= after.Keys
      && (forall key | key in rows :: after[key] == rows[key])
      && after == (if pending then rows else Migrate(rows))
      && (Closed(rows) ==> after == rows)
      && (pending <==> f.onSelect || (!Closed(rows) && (f.onBegin || f.onInsert || f.onCommit)))
  {
    NeedsMigrationExact(rows);
    MigrateIsLeastClosure(rows);
    MigrateOfClosed(rows);
  }

  /** A pending store scanning the old table and a migrated store looking one key up agree on every claim. */
  lemma ScanAgreesWithMigrated(rows: Table, canonical: string, other: Option<string>)
    requires Claimable(canonical, other)
    ensures Held(rows, true, canonical, other) <==> Held(Migrate(rows), false, canonical, other)
  {
    HeldMeansClassHeld(rows, true, canonical, other);
    MigrateIsLeastClosure(rows);
    HeldMeansClassHeld(Migrate(rows), false, canonical, other);
  }

  /** A store that trusts single-key lookups answers every claim correctly exactly when the table is closed. */
  lemma TrustingStoreExact(rows: Table)
    ensures Closed(rows) <==>
      forall key :: Held(rows, false, CanonicalKey(key), None) <==> CanonicalKey(key) in Classes(rows)
  {
    if Closed(rows) {
      forall key ensures Held(rows, false, CanonicalKey(key), None) <==> CanonicalKey(key) in Classes(rows) {
        ClosedLookup(rows, key);
      }
    } else {
      var key :| key in rows && CanonicalKey(key) !in rows;
      assert CanonicalKey(key) in Classes(rows);
      assert !Held(rows, false, CanonicalKey(key), None);
    }
  }

  /** `claim` and `is_claimed` take any key. On a pending store they read a key of no recognised shape off a row that
      spells another one: with `nano:live x` stored, `nano:live X` counts as claimed, though nothing claimed it. */
  lemma PendingStoreMisreadsUnrecognisedKey()
    ensures var rows: Table := map["nano:live x" := 1.0];
      && Held(rows, true, CanonicalKey("nano:live X"), None)
      && CanonicalKey("nano:live X") !in Classes(rows)
      && !Held(Migrate(rows), false, CanonicalKey("nano:live X"), None)
  {
    var rows: Table := map["nano:live x" := 1.0];
    var stored, asked := "nano:live x", "nano:live X";
    assert stored in rows;
    assert !WellShaped(stored) && !WellShaped(asked);
    CanonicalForms(stored);
    CanonicalForms(asked);
    assert Substr(stored, 1, 10) == PREFIX;
    assert Upper("x") == "X";
    assert Substr(stored, 11, 64) == "x";
    assert CanonicalSql(stored) == asked;
    MigrateIsLeastClosure(rows);
    assert stored != asked by {
      assert stored[10] != asked[10];
    }
  }

  /** So a pending store answers for a key on every table exactly when that key has no false alias. */
  lemma PendingStoreExact(canonical: string)
    requires CanonicalKey(canonical) == canonical
    ensures !HasFalseAlias(canonical) <==>
      forall rows: Table :: Held(rows, true, canonical, None) <==> canonical in Classes(rows)
  {
    if HasFalseAlias(canonical) {
      var key := FalseAlias(canonical);
      AliasIsAnother(key, canonical);
      var rows: Table := map[key := 0.0];
      assert key in rows;
      assert Held(rows, true, canonical, None);
    } else {
      forall rows: Table ensures Held(rows, true, canonical, None) <==> canonical in Classes(rows) {
        HeldMeansClassHeld(rows, true, canonical, None);
      }
    }
  }

  /** Which database errors a claim of an unheld class meets, exactly: the start of an explicit transaction, which a
      pending store or a second spelling needs; the scan of a pending store; the look-up and the record of a second
      spelling; the insert; and the commit. */
  lemma FaultsExact(rows: Table, pending: bool, canonical: string, other: Option<string>, now: real, f: ClaimFaults)
    requires !Held(rows, pending, canonical, other)
    ensures var r := ClaimStep(rows, pending, canonical, other, now, f).1;
      && r != Spent
      && (r == Raised <==>
           || f.onInsert || f.onCommit
           || (pending && (f.onBegin || f.onScan))
           || (other.Some? && (f.onBegin || f.onLookup || f.onRecord)))
  {
  }
}
