/** Runs of any number of handles on one `claims` table, across upgrade, rollback and roll-forward. */
module ClaimRuns {
  import opened Text
  import opened ClaimKeys
  import opened ClaimTable
  import opened ClaimStores

  /** The shared table, and the pending flag of every open store of this release. */
  datatype State = State(rows: Table, stores: map<nat, bool>)

  /** The atomic steps. A claim call is a Migrate of its store, if it is pending, and then a Claim; steps of other
      handles may come between the two. A Migrate takes effect at its write, or at its read when nothing is needed. */
  datatype Step =
    | Open(id: nat, mf: MigrateFaults)
    | Close(id: nat)
    | Migrate(id: nat, mf: MigrateFaults)
    | Claim(id: nat, canonical: string, asSent: Option<string>, now: real, f: ClaimFaults)
    | PreviousRelease(key: string, now: real)

  /** What a step settled: the class of a claim won by this release, or the key the previous release stored. Failed is a
      claim that met a database error. */
  datatype Event = Nothing | Failed | Settled(class_: string) | SettledBefore(key: string)

  /** The class of claims an event settles. */
  predicate Settles(e: Event, class_: string) {
    match e
    case Nothing => false
    case Failed => false
    case Settled(c) => c == class_
    case SettledBefore(key) => CanonicalKey(key) == class_
  }

  predicate Enabled(s: State, step: Step) {
    match step
    case Open(id, _) => id !in s.stores
    case Close(id) => id in s.stores
    case Migrate(id, _) => id in s.stores
    case Claim(id, canonical, asSent, _, _) => id in s.stores && Claimable(canonical, Other(canonical, asSent))
    case PreviousRelease(_, _) => true
  }

  function Next(s: State, step: Step): (State, Event)
    requires Enabled(s, step)
  {
    match step
    case Open(id, mf) =>
      var (rows, pending) := MigrateStep(s.rows, mf);
      (State(rows, s.stores[id := pending]), Nothing)
    case Close(id) => (s.(stores := s.stores - {id}), Nothing)
    case Migrate(id, mf) =>
      var (rows, pending) := MigrateStep(s.rows, mf);
      (State(rows, s.stores[id := pending]), Nothing)
    case Claim(id, canonical, asSent, now, f) =>
      var (rows, r) := ClaimStep(s.rows, s.stores[id], canonical, Other(canonical, asSent), now, f);
      (s.(rows := rows), match r case Won => Settled(canonical) case Spent => Nothing case Raised => Failed)
    case PreviousRelease(key, now) =>
      if key in s.rows then (s, Nothing) else (s.(rows := s.rows[key := now]), SettledBefore(key))
  }

  /** A store that has completed a migration check is open only on a closed table. */
  predicate Inv(s: State) {
    forall id | id in s.stores :: Sound(s.rows, s.stores[id])
  }

  /** The deployment rule: the previous release writes only while every open store is still pending, unless what it
      writes is already claimed under its canonical key. */
  predicate Allowed(s: State, step: Step) {
    step.PreviousRelease? ==>
      || (forall id | id in s.stores :: s.stores[id])
      || CanonicalKey(step.key) in s.rows.Keys + {step.key}
  }

  /** One step: the invariant holds, no claim is lost, and a settlement by this release is of a class nobody settled. */
  lemma StepMeaning(s: State, step: Step)
    requires Inv(s) && Enabled(s, step) && Allowed(s, step)
    ensures var (s', e) := Next(s, step);
      && Inv(s')
      && s.rows.Keys <= s'.rows.Keys
      && Classes(s.rows) <= Classes(s'.rows)
      && (e.Settled? ==> e.class_ !in Classes(s.rows))
      && (forall c :: Settles(e, c) ==> c in Classes(s'.rows))
      && (forall c | c in Classes(s'.rows) :: c in Classes(s.rows) || Settles(e, c))
  {
    match step
    case Open(_, mf) => MigrateStepMeaning(s.rows, mf);
    case Close(_) =>
    case Migrate(_, mf) => MigrateStepMeaning(s.rows, mf);
    case Claim(id, canonical, asSent, now, f) =>
      ClaimStepMeaning(s.rows, s.stores[id], canonical, Other(canonical, asSent), now, f);
    case PreviousRelease(key, now) => PreviousWriteMeaning(s.rows, key, now);
  }

  lemma PreviousWriteMeaning(rows: Table, key: string, now: real)
    ensures Classes(rows[key := now]) == Classes(rows) + {CanonicalKey(key)}
    ensures Closed(rows) ==> (Closed(rows[key := now]) <==> CanonicalKey(key) in rows.Keys + {key})
  {
    var after := rows[key := now];
    assert after.Keys == rows.Keys + {key};
    forall c ensures c in Classes(after) <==> c in Classes(rows) + {CanonicalKey(key)} {
      if c in Classes(rows) {
        var k :| k in rows && CanonicalKey(k) == c;
        assert k in after;
      }
      if c == CanonicalKey(key) {
        assert key in after;
      }
    }
  }

  /** The rule is exact: a previous-release write keeps the invariant if and only if it is allowed. */
  lemma AllowedExact(s: State, step: Step)
    requires Inv(s) && step.PreviousRelease?
    ensures Inv(Next(s, step).0) <==> Allowed(s, step)
  {
    PreviousWriteMeaning(s.rows, step.key, step.now);
    if exists id :: id in s.stores && !s.stores[id] {
      var id :| id in s.stores && !s.stores[id];
      assert Sound(s.rows, s.stores[id]);
      if Inv(Next(s, step).0) {
        assert Sound(Next(s, step).0.rows, s.stores[id]);
        CanonicalForms(step.key);
      }
    }
  }

  /** A claim call of `ClaimStore` that nobody interrupts is the Migrate of its store, if pending, and then the
      Claim. */
  lemma CallIsItsSteps(s: State, id: nat, canonical: string, asSent: Option<string>, now: real, mf: MigrateFaults,
                       f: ClaimFaults)
    requires id in s.stores && Claimable(canonical, Other(canonical, asSent))
    ensures var migrated := if s.stores[id] then Next(s, Migrate(id, mf)).0 else s;
      var (end, event) := Next(migrated, Claim(id, canonical, asSent, now, f));
      var (rows, pending, r) := ClaimCall(s.rows, s.stores[id], canonical, asSent, now, mf, f);
      && end == State(rows, s.stores[id := pending])
      && (event == Settled(canonical) <==> r == Won)
      && (event == Nothing <==> r == Spent) && (event == Failed <==> r == Raised)
  {
    hide MigrateStep, ClaimStep, Claimable, Other;
    assert !s.stores[id] ==> s.stores == s.stores[id := false];
  }

  /** What a write against the rule does, in payments: it settles a claim of its own, and from then on a store
      that has completed its migration check settles the same class again, for every caller but one who sends
      that very spelling. */
  lemma DisallowedWriteSettlesTwice(s: State, write: Step, id: nat, asSent: Option<string>, now: real)
    requires Inv(s) && write.PreviousRelease? && !Allowed(s, write)
    requires id in s.stores && !s.stores[id]
    requires asSent.Some? ==> CanonicalKey(asSent.value) == CanonicalKey(write.key)
    ensures var canonical := CanonicalKey(write.key);
      var claim := Claim(id, canonical, asSent, now, NO_FAULTS);
      var (after, e) := Next(s, write);
      && e == SettledBefore(write.key) && Enabled(after, claim)
      && Next(after, claim).1 == if asSent == Some(write.key) then Nothing else Settled(canonical)
  {
    var canonical := CanonicalKey(write.key);
    CanonicalForms(write.key);
    CanonicalIdempotent(write.key);
    CanonicalIsWellShaped(write.key);
    assert Sound(s.rows, s.stores[id]);
    assert canonical !in s.rows && write.key !in s.rows && write.key != canonical;
    assert asSent.Some? ==> asSent.value !in s.rows;
  }

  // ------------------------------------------------------------------ runs

  /** A run: every step is enabled and allowed where it happens. */
  predicate IsRun(s: State, steps: seq<Step>)
    decreases |steps|
  {
    steps == [] || (
      && Enabled(s, steps[0]) && Allowed(s, steps[0])
      && IsRun(Next(s, steps[0]).0, steps[1..]))
  }

  function After(s: State, steps: seq<Step>): State
    requires IsRun(s, steps)
    decreases |steps|
  {
    if steps == [] then s else After(Next(s, steps[0]).0, steps[1..])
  }

  /** What each step of a run settled. */
  function Events(s: State, steps: seq<Step>): (es: seq<Event>)
    requires IsRun(s, steps)
    ensures |es| == |steps|
    decreases |steps|
  {
    if steps == [] then [] else
      var (s', e) := Next(s, steps[0]);
      [e] + Events(s', steps[1..])
  }

  lemma {:induction false} RunKeeps(s: State, steps: seq<Step>)
    requires Inv(s) && IsRun(s, steps)
    ensures Inv(After(s, steps))
    ensures s.rows.Keys <= After(s, steps).rows.Keys
    ensures Classes(s.rows) <= Classes(After(s, steps).rows)
    decreases |steps|
  {
    if steps == [] {
    } else {
      StepMeaning(s, steps[0]);
      RunKeeps(Next(s, steps[0]).0, steps[1..]);
    }
  }

  lemma {:induction false} SettlesOnlyUnheld(s: State, steps: seq<Step>, j: nat)
    requires Inv(s) && IsRun(s, steps) && j < |steps| && Events(s, steps)[j].Settled?
    ensures Events(s, steps)[j].class_ !in Classes(s.rows)
    decreases |steps|
  {
    StepMeaning(s, steps[0]);
    if j > 0 {
      SettlesOnlyUnheld(Next(s, steps[0]).0, steps[1..], j - 1);
    }
  }

  /** Exactly once. In every run, a claim this release settles was neither held when the run began nor settled by an
      earlier step, of this release or of the previous one, under any spelling. */
  lemma {:induction false} ExactlyOnce(s: State, steps: seq<Step>, i: nat, j: nat)
    requires Inv(s) && IsRun(s, steps) && i < j < |steps| && Events(s, steps)[j].Settled?
    ensures Events(s, steps)[j].class_ !in Classes(s.rows)
    ensures !Settles(Events(s, steps)[i], Events(s, steps)[j].class_)
    decreases |steps|
  {
    SettlesOnlyUnheld(s, steps, j);
    StepMeaning(s, steps[0]);
    var s' := Next(s, steps[0]).0;
    if i == 0 {
      SettlesOnlyUnheld(s', steps[1..], j - 1);
    } else {
      ExactlyOnce(s', steps[1..], i - 1, j - 1);
    }
  }

  /** A rollback: once this release settled `asSent`, the previous release finds that very key for ever. */
  lemma RollbackFindsTheKeyAsSent(s: State, claim: Step, steps: seq<Step>, now: real)
    requires Inv(s) && claim.Claim? && Enabled(s, claim) && Next(s, claim).1.Settled?
    requires IsRun(Next(s, claim).0, steps)
    ensures var end := After(Next(s, claim).0, steps);
      && Next(end, PreviousRelease(claim.canonical, now)) == (end, Nothing)
      && (claim.asSent.Some? ==> Next(end, PreviousRelease(claim.asSent.value, now)) == (end, Nothing))
  {
    StepMeaning(s, claim);
    ClaimStepMeaning(s.rows, s.stores[claim.id], claim.canonical, Other(claim.canonical, claim.asSent), claim.now,
                     claim.f);
    RunKeeps(Next(s, claim).0, steps);
  }

  /** A step stored this very spelling: as the previous release, or as the key of a claim won, canonical or as sent. */
  predicate Stored(step: Step, e: Event, key: string) {
    match e
    case SettledBefore(k) => k == key
    case Settled(c) => c == key || (step.Claim? && step.asSent == Some(key))
    case _ => false
  }

  lemma StepStores(s: State, step: Step, key: string)
    requires Inv(s) && Enabled(s, step) && CanonicalKey(key) != key
    ensures key in Next(s, step).0.rows <==> key in s.rows || Stored(step, Next(s, step).1, key)
  {
    hide CanonicalKey, HasFalseAlias, ClaimStep, MigrateStep, Sound, Classes, Closed;
    match step
    case Open(_, mf) => MigrationAddsCanonical(s.rows, mf, key);
    case Close(_) =>
    case Migrate(_, mf) => MigrationAddsCanonical(s.rows, mf, key);
    case Claim(id, canonical, asSent, now, f) =>
      ClaimStepMeaning(s.rows, s.stores[id], canonical, Other(canonical, asSent), now, f);
    case PreviousRelease(_, _) =>
  }

  lemma MigrationAddsCanonical(rows: Table, f: MigrateFaults, key: string)
    requires CanonicalKey(key) != key
    ensures key in MigrateStep(rows, f).0 <==> key in rows
  {
    GroupsAreMissingClasses(rows);
    if key in Classes(rows) {
      var k :| k in rows && CanonicalKey(k) == key;
      CanonicalIdempotent(k);
    }
  }

  /** Which spellings a run leaves stored, exactly: a spelling other than the canonical one was there before, or some
      step stored that very one. Migration adds canonical keys only. */
  lemma {:induction false} SpellingStoredExact(s: State, steps: seq<Step>, key: string)
    requires Inv(s) && IsRun(s, steps) && CanonicalKey(key) != key
    ensures key in After(s, steps).rows <==>
      key in s.rows || exists i | 0 <= i < |steps| :: Stored(steps[i], Events(s, steps)[i], key)
    decreases |steps|
  {
    if steps == [] {
    } else {
      var (s', e) := Next(s, steps[0]);
      StepMeaning(s, steps[0]);
      StepStores(s, steps[0], key);
      SpellingStoredExact(s', steps[1..], key);
      assert forall i | 1 <= i < |steps| ::
          steps[i] == steps[1..][i - 1] && Events(s, steps)[i] == Events(s', steps[1..])[i - 1];
      if i :| 0 <= i < |steps[1..]| && Stored(steps[1..][i], Events(s', steps[1..])[i], key) {
        assert Stored(steps[i + 1], Events(s, steps)[i + 1], key);
      }
    }
  }

  lemma {:induction false} Prefix(s: State, steps: seq<Step>, j: nat)
    requires IsRun(s, steps) && j < |steps|
    ensures IsRun(s, steps[..j]) && Enabled(After(s, steps[..j]), steps[j])
    ensures Events(s, steps[..j]) == Events(s, steps)[..j]
    ensures Events(s, steps)[j] == Next(After(s, steps[..j]), steps[j]).1
    decreases |steps|
  {
    if j > 0 {
      var (s', e) := Next(s, steps[0]);
      Prefix(s', steps[1..], j - 1);
      assert steps[..j][0] == steps[0] && steps[..j][1..] == steps[1..][..j - 1];
      assert Events(s, steps)[..j] == [e] + Events(s', steps[1..])[..j - 1];
    }
  }

  /** When a class that this release settled is settled again, exactly: by the previous release, under a spelling that
      was not there before and that nobody stored. */
  lemma SecondSettlementExact(s: State, steps: seq<Step>, i: nat, j: nat)
    requires Inv(s) && IsRun(s, steps) && i < j < |steps| && Events(s, steps)[i].Settled?
    ensures Settles(Events(s, steps)[j], Events(s, steps)[i].class_) <==>
      && steps[j].PreviousRelease? && CanonicalKey(steps[j].key) == Events(s, steps)[i].class_
      && steps[j].key !in s.rows && forall k | 0 <= k < j :: !Stored(steps[k], Events(s, steps)[k], steps[j].key)
  {
    var es := Events(s, steps);
    var class_ := es[i].class_;
    Prefix(s, steps, j);
    Prefix(s, steps, i);
    if es[j].Settled? {
      ExactlyOnce(s, steps, i, j);
    }
    assert Stored(steps[i], es[i], class_);
    if steps[j].PreviousRelease? && CanonicalKey(steps[j].key) == class_ {
      var key, prefix := steps[j].key, steps[..j];
      assert forall k | 0 <= k < j :: prefix[k] == steps[k] && Events(s, prefix)[k] == es[k];
      if key == class_ {
        SettledStays(s, prefix, i);
      } else {
        SpellingStoredExact(s, prefix, key);
      }
    }
  }

  lemma {:induction false} SettledStays(s: State, steps: seq<Step>, i: nat)
    requires Inv(s) && IsRun(s, steps) && i < |steps| && Events(s, steps)[i].Settled?
    ensures Events(s, steps)[i].class_ in After(s, steps).rows
    decreases |steps|
  {
    var (s', e) := Next(s, steps[0]);
    StepMeaning(s, steps[0]);
    if i > 0 {
      SettledStays(s', steps[1..], i - 1);
    } else {
      var claim := steps[0];
      ClaimStepMeaning(s.rows, s.stores[claim.id], claim.canonical, Other(claim.canonical, claim.asSent), claim.now,
                       claim.f);
      RunKeeps(s', steps[1..]);
    }
  }

  // ------------------------------------------------------------------ refinement of a set of classes

  /** The simple store: a set of claimed classes. A claim is settled exactly when its class is not held, and a database
      error, which needs a fault, changes nothing. The previous release, which tells spellings apart, may settle a held
      class but never passes over one that is not. */
  predicate SetStep(held: set<string>, step: Step, e: Event, after: set<string>) {
    match step
    case Claim(_, canonical, _, _, f) => (
      match e
      case Settled(c) => c == canonical && canonical !in held && after == held + {canonical}
      case Nothing => canonical in held && after == held
      case Failed => f != NO_FAULTS && after == held
      case SettledBefore(_) => false)
    case PreviousRelease(key, _) =>
      && after == held + {CanonicalKey(key)}
      && (e == SettledBefore(key) || (e == Nothing && CanonicalKey(key) in held))
    case _ => e == Nothing && after == held
  }

  /** `events` and `end` are what the set gives on these steps. */
  ghost predicate SetRun(held: set<string>, steps: seq<Step>, events: seq<Event>, end: set<string>)
    requires |events| == |steps|
    decreases |steps|
  {
    if steps == [] then end == held else
      exists after :: SetStep(held, steps[0], events[0], after) && SetRun(after, steps[1..], events[1..], end)
  }

  /** Refinement: any number of stores, opening, closing, migrating or failing to, claiming or failing to, in any
      interleaving and with the previous release writing where it is allowed, do what one set of classes does. */
  lemma {:induction false} RunRefinesSet(s: State, steps: seq<Step>)
    requires Inv(s) && IsRun(s, steps)
    ensures SetRun(Classes(s.rows), steps, Events(s, steps), Classes(After(s, steps).rows))
    decreases |steps|
  {
    if steps == [] {
    } else {
      var (s', e) := Next(s, steps[0]);
      StepRefinesSet(s, steps[0]);
      StepMeaning(s, steps[0]);
      RunRefinesSet(s', steps[1..]);
      assert Events(s, steps)[1..] == Events(s', steps[1..]);
      assert SetStep(Classes(s.rows), steps[0], e, Classes(s'.rows));
    }
  }

  lemma StepRefinesSet(s: State, step: Step)
    requires Inv(s) && Enabled(s, step)
    ensures SetStep(Classes(s.rows), step, Next(s, step).1, Classes(Next(s, step).0.rows))
  {
    match step
    case Open(_, mf) => MigrateStepMeaning(s.rows, mf);
    case Close(_) =>
    case Migrate(_, mf) => MigrateStepMeaning(s.rows, mf);
    case Claim(id, canonical, asSent, now, f) =>
      ClaimStepMeaning(s.rows, s.stores[id], canonical, Other(canonical, asSent), now, f);
    case PreviousRelease(key, now) =>
      PreviousWriteMeaning(s.rows, key, now);
      if key in s.rows {
        assert CanonicalKey(key) in Classes(s.rows);
      }
  }

  // ------------------------------------------------------------------ settle's claims, and the mixed deployment

  /** The claim `settle` makes for a proof and a request. */
  function SettleClaim(id: nat, hash: string, requestId: string, now: real, f: ClaimFaults): Step {
    Claim(id, ConsumptionKey(hash, requestId), Some(KeyAsSent(hash, requestId)), now, f)
  }

  lemma SettleClaimable(hash: string, requestId: string)
    requires IsHex64(hash)
    ensures Claimable(ConsumptionKey(hash, requestId),
              Other(ConsumptionKey(hash, requestId), Some(KeyAsSent(hash, requestId))))
  {
    AsSentShape(hash, requestId);
    CanonicalIdempotent(KeyAsSent(hash, requestId));
    CanonicalIsWellShaped(KeyAsSent(hash, requestId));
  }

  /** In terms of payments: a block that settled a request, through whatever store and release and under any hex case,
      is never settled for it by this release again. */
  lemma BlockSettlesOncePerRequest(s: State, steps: seq<Step>, i: nat, j: nat, h1: string, h2: string,
                                   requestId: string)
    requires Inv(s) && IsRun(s, steps) && i < j < |steps|
    requires IsHex64(h1) && IsHex64(h2) && Upper(h1) == Upper(h2)
    requires steps[j].Claim? && steps[j].canonical == ConsumptionKey(h2, requestId)
    requires Events(s, steps)[i] == Settled(ConsumptionKey(h1, requestId))
          || Events(s, steps)[i] == SettledBefore(KeyAsSent(h1, requestId))
    ensures Events(s, steps)[j] == Nothing || (Events(s, steps)[j] == Failed && steps[j].f != NO_FAULTS)
  {
    ConsumptionKeyExact(h1, requestId, h2, requestId);
    EventOfClaim(s, steps, j);
    if Events(s, steps)[j].Settled? {
      ExactlyOnce(s, steps, i, j);
    }
  }

  lemma {:induction false} EventOfClaim(s: State, steps: seq<Step>, j: nat)
    requires IsRun(s, steps) && j < |steps| && steps[j].Claim?
    ensures Events(s, steps)[j] in {Nothing, Failed, Settled(steps[j].canonical)}
    ensures Events(s, steps)[j] == Failed ==> steps[j].f != NO_FAULTS
    decreases |steps|
  {
    if j > 0 {
      EventOfClaim(Next(s, steps[0]).0, steps[1..], j - 1);
    }
  }

  /** Running both releases against one file at once is not covered: after a store has completed its migration check,
      the previous release can settle a lower-case spelling and this release the same payment again. */
  lemma MixedReleasesSettleTwice(hash: string, requestId: string)
    requires IsHex64(hash) && Upper(hash) != hash
    ensures var s := State(map[], map[0 := false]);
      var previous := PreviousRelease(KeyAsSent(hash, requestId), 0.0);
      var claim := SettleClaim(0, Upper(hash), requestId, 1.0, NO_FAULTS);
      && Inv(s) && !Allowed(s, previous)
      && Next(s, previous).1 == SettledBefore(KeyAsSent(hash, requestId))
      && Enabled(Next(s, previous).0, claim)
      && Next(Next(s, previous).0, claim).1 == Settled(ConsumptionKey(hash, requestId))
  {
    hide CanonicalKey, KeyAsSent, HasFalseAlias;
    UpperKeepsHex(hash);
    SettleClaimable(Upper(hash), requestId);
    ConsumptionKeyExact(hash, requestId, Upper(hash), requestId);
    UpperIsCanonical(hash, requestId);
    var s := State(map[], map[0 := false]);
    assert 0 in s.stores && !s.stores[0];
    DisallowedWriteSettlesTwice(s, PreviousRelease(KeyAsSent(hash, requestId), 0.0), 0,
                                Some(ConsumptionKey(hash, requestId)), 1.0);
  }

  /** A rollback is not covered for other spellings either: this release settles an upper-case proof, and after it is
      closed the previous release settles the same payment under any other case. Every step is allowed. */
  lemma RollbackSettlesUnsentSpelling(hash: string, requestId: string)
    requires IsHex64(hash) && Upper(hash) != hash
    ensures var steps := RollbackRun(hash, requestId);
      && IsRun(State(map[], map[]), steps)
      && Events(State(map[], map[]), steps)[1] == Settled(ConsumptionKey(hash, requestId))
      && Events(State(map[], map[]), steps)[3] == SettledBefore(KeyAsSent(hash, requestId))
      && CanonicalKey(KeyAsSent(hash, requestId)) == ConsumptionKey(hash, requestId)
  {
    hide CanonicalKey, KeyAsSent, HasFalseAlias, MigrateStep;
    UpperKeepsHex(hash);
    SettleClaimable(Upper(hash), requestId);
    ConsumptionKeyExact(hash, requestId, Upper(hash), requestId);
    UpperIsCanonical(hash, requestId);
    EmptyTableOpens();
    var sent, canonical := KeyAsSent(hash, requestId), ConsumptionKey(hash, requestId);
    var steps := RollbackRun(hash, requestId);
    var s0, s1 := State(map[], map[]), State(map[], map[0 := false]);
    var s2, s3 := State(map[canonical := 0.0], map[0 := false]), State(map[canonical := 0.0], map[]);
    assert Next(s0, steps[0]) == (s1, Nothing);
    assert Next(s1, steps[1]) == (s2, Settled(canonical));
    assert Next(s2, steps[2]) == (s3, Nothing);
    assert Next(s3, steps[3]).1 == SettledBefore(sent);
    assert steps[1..] == [steps[1], steps[2], steps[3]] && steps[1..][1..] == [steps[2], steps[3]];
    assert [steps[2], steps[3]][1..] == [steps[3]] && [steps[3]][1..] == [];
    assert IsRun(s3, [steps[3]]) && IsRun(s2, [steps[2], steps[3]]) && IsRun(s1, steps[1..]);
    assert Events(s3, [steps[3]])[0] == SettledBefore(sent);
    assert Events(s2, [steps[2], steps[3]])[1] == SettledBefore(sent);
    assert Events(s1, steps[1..])[0] == Settled(canonical) && Events(s1, steps[1..])[2] == SettledBefore(sent);
  }

  function RollbackRun(hash: string, requestId: string): seq<Step> {
    [Open(0, MigrateFaults(false, false, false, false)), SettleClaim(0, Upper(hash), requestId, 0.0, NO_FAULTS),
     Close(0), PreviousRelease(KeyAsSent(hash, requestId), 1.0)]
  }

  lemma EmptyTableOpens()
    ensures MigrateStep(map[], MigrateFaults(false, false, false, false)) == (map[], false)
  {
  }

  /** The upper-case spelling is the canonical one, and no other spelling is. */
  lemma UpperIsCanonical(hash: string, requestId: string)
    requires IsHex64(hash)
    ensures KeyAsSent(Upper(hash), requestId) == ConsumptionKey(hash, requestId)
    ensures Upper(hash) != hash ==> KeyAsSent(hash, requestId) != ConsumptionKey(hash, requestId)
  {
    hide CanonicalKey, ConsumptionKey, WellShaped;
    UpperKeepsHex(hash);
    AsSentShape(hash, requestId);
    AsSentShape(Upper(hash), requestId);
    if Upper(hash) != hash {
      SpellingsDiffer(hash, requestId);
    }
  }

  lemma SpellingsDiffer(hash: string, requestId: string)
    requires |hash| == 64 && Upper(hash) != hash
    ensures KeyAsSent(hash, requestId) != PREFIX + Upper(hash) + (" " + requestId)
  {
    assert KeyAsSent(hash, requestId) == PREFIX + hash + (" " + requestId);
    SplitCanonical(hash, " " + requestId);
    SplitCanonical(Upper(hash), " " + requestId);
  }

  /** The set that runs are compared with, spelt out. */
  lemma SetStepExact(held: set<string>, step: Step, e: Event, after: set<string>)
    ensures step.Claim? ==>
      (SetStep(held, step, e, after) <==>
        || (e == Settled(step.canonical) && step.canonical !in held && after == held + {step.canonical})
        || (e == Nothing && step.canonical in held && after == held)
        || (e == Failed && step.f != NO_FAULTS && after == held))
    ensures step.PreviousRelease? ==>
      (SetStep(held, step, e, after) <==>
        && after == held + {CanonicalKey(step.key)}
        && (e == SettledBefore(step.key) || (e == Nothing && CanonicalKey(step.key) in held)))
    ensures step.Open? || step.Close? || step.Migrate? ==>
      (SetStep(held, step, e, after) <==> e == Nothing && after == held)
  {
  }
}
