/** Sessions under concurrency (crates/server/src/db.rs, crates/server/src/auth.rs): each statement of each request
    is a step of its own, and the steps of any number of requests interleave. Tokens are fresh and hashing is
    injective, so a session is created at most once. */
module SessionRaces {
  import opened Wrappers
  import opened Sessions

  /** How far a validation has come. */
  datatype Progress =
    | Selecting
    | Deciding(last: Stored)  // the row was read: the clock is read for the check next
    | Deleting                // expired: the DELETE is next
    | Renewing                // fresh: the clock is read for the renewal next
    | Updating(renew: int)    // the UPDATE is next, with this clock reading
    | Ended(answer: Answer)

  datatype Validation = Validation(hash: Hash, progress: Progress)

  /** The table, every session that was ever created, the clock, and the validations so far. */
  datatype State = State(rows: Table, created: set<Hash>, now: int, validations: seq<Validation>)

  datatype Step =
    | Create(hash: Hash)
    | Begin(hash: Hash)
    | Advance(i: nat)       // the next statement or clock reading of validation `i`
    | Logout(hash: Hash)
    | LogoutAll
    | CleanExpired
    | Tick(nanos: nat)

  predicate Enabled(s: State, step: Step) {
    match step
    case Create(hash) => hash !in s.created
    case Advance(i) => i < |s.validations| && !s.validations[i].progress.Ended?
    case _ => true
  }

  /** The next step of a validation, and the table after it. */
  function Next(rows: Table, v: Validation, now: int, days: nat): (Table, Progress)
    requires !v.progress.Ended?
  {
    match v.progress
    case Selecting =>
      (rows, if v.hash in rows then Deciding(rows[v.hash].lastUsed) else Ended(Rejected))
    case Deciding(last) =>
      (rows, match Judge(last, Ttl(days), now)
             case Fresh => Renewing
             case Expired => Deleting
             case Overflow => Ended(Panicked))
    case Deleting => (rows - {v.hash}, Ended(Rejected))
    case Renewing => (rows, Updating(now))
    case Updating(t) =>
      // an UPDATE of a row that is not there changes nothing, and the answer does not look at it
      (if v.hash in rows then rows[v.hash := rows[v.hash].(lastUsed := Now(t))] else rows, Ended(Accepted))
  }

  function Do(s: State, step: Step, days: nat): State
    requires Enabled(s, step)
  {
    match step
    case Create(hash) =>
      s.(rows := s.rows[hash := Row(Now(s.now), Now(s.now))], created := s.created + {hash})
    case Begin(hash) => s.(validations := s.validations + [Validation(hash, Selecting)])
    case Advance(i) =>
      var (rows, progress) := Next(s.rows, s.validations[i], s.now, days);
      s.(rows := rows, validations := s.validations[i := s.validations[i].(progress := progress)])
    case Logout(hash) => s.(rows := s.rows - {hash})
    case LogoutAll => s.(rows := map[])
    case CleanExpired => s.(rows := Clean(s.rows, s.now, days).GetOr(s.rows))
    case Tick(nanos) => s.(now := s.now + nanos)
  }

  function After(s: State, run: seq<Step>, days: nat): Option<State>
    decreases |run|
  {
    if run == [] then Some(s)
    else if !Enabled(s, run[0]) then None
    else After(Do(s, run[0], days), run[1..], days)
  }

  function Start(now: int): State {
    State(map[], {}, now, [])
  }

  // ---------- revocation ----------

  /** Only sessions that were created have rows. */
  predicate IsSound(s: State) {
    s.rows.Keys <= s.created
  }

  lemma StepIsSound(s: State, step: Step, days: nat)
    requires Enabled(s, step) && IsSound(s)
    ensures IsSound(Do(s, step, days)) && s.created <= Do(s, step, days).created
  {
  }

  lemma StepKeepsGone(s: State, step: Step, days: nat, hash: Hash)
    requires Enabled(s, step) && hash in s.created && hash !in s.rows
    ensures hash !in Do(s, step, days).rows && hash in Do(s, step, days).created
  {
  }

  /** A session whose row is gone, for whatever reason, never has a row again, whatever validations of it are still
      under way. */
  lemma {:induction false} GoneStaysGone(s: State, run: seq<Step>, days: nat, hash: Hash)
    requires hash in s.created && hash !in s.rows && After(s, run, days).Some?
    ensures hash !in After(s, run, days).value.rows
    decreases |run|
  {
    if run != [] {
      StepKeepsGone(s, run[0], days, hash);
      GoneStaysGone(Do(s, run[0], days), run[1..], days, hash);
    }
  }

  /** A validation that can no longer succeed. */
  predicate IsHopeless(v: Validation) {
    v.progress == Selecting || v.progress == Ended(Rejected)
  }

  /** A validation that had not read the row when it went, or that began later. */
  lemma {:induction false} LateValidationsFail(s: State, run: seq<Step>, days: nat, hash: Hash, i: nat)
    requires hash in s.created && hash !in s.rows && After(s, run, days).Some?
    requires i < |After(s, run, days).value.validations| && After(s, run, days).value.validations[i].hash == hash
    requires i < |s.validations| ==> s.validations[i].hash == hash && IsHopeless(s.validations[i])
    ensures IsHopeless(After(s, run, days).value.validations[i])
    decreases |run|
  {
    if run != [] {
      var t := Do(s, run[0], days);
      StepKeepsGone(s, run[0], days, hash);
      if i < |t.validations| {
        HashesStay(t, run[1..], days, i);
      }
      LateValidationsFail(t, run[1..], days, hash, i);
    }
  }

  /** Validations are never removed and keep their session. */
  lemma {:induction false} HashesStay(s: State, run: seq<Step>, days: nat, i: nat)
    requires After(s, run, days).Some? && i < |s.validations|
    ensures i < |After(s, run, days).value.validations|
    ensures After(s, run, days).value.validations[i].hash == s.validations[i].hash
    decreases |run|
  {
    if run != [] {
      HashesStay(Do(s, run[0], days), run[1..], days, i);
    }
  }

  /** A state that the process can be in, if its clock shows `start` in the beginning. */
  ghost predicate IsReachableFrom(start: int, s: State, days: nat) {
    exists run :: After(Start(start), run, days) == Some(s)
  }

  /** A state that the process can be in. */
  ghost predicate IsReachable(s: State, days: nat) {
    exists start :: IsReachableFrom(start, s, days)
  }

  lemma {:induction false} RunIsSound(s: State, run: seq<Step>, days: nat)
    requires IsSound(s) && After(s, run, days).Some?
    ensures IsSound(After(s, run, days).value)
    decreases |run|
  {
    if run != [] {
      StepIsSound(s, run[0], days);
      RunIsSound(Do(s, run[0], days), run[1..], days);
    }
  }

  predicate Revokes(step: Step, hash: Hash) {
    step == Logout(hash) || step == LogoutAll
  }

  /** Main result. After a logout, or a logout of everyone, the session never has a row again; and every validation
      of it that reads the table after that, whether it was under way or began later, is rejected. */
  lemma RevocationIsFinal(s: State, step: Step, hash: Hash, run: seq<Step>, days: nat)
    requires hash in s.created && Revokes(step, hash)
    requires After(Do(s, step, days), run, days).Some?
    ensures var t := After(Do(s, step, days), run, days).value;
            && hash !in t.rows
            && forall i ::
                 0 <= i < |t.validations| && t.validations[i].hash == hash
                 && (i < |s.validations| ==> IsHopeless(s.validations[i])) ==>
                 IsHopeless(t.validations[i])
  {
    var s', t := Do(s, step, days), After(Do(s, step, days), run, days).value;
    assert s'.validations == s.validations && hash !in s'.rows && hash in s'.created;
    GoneStaysGone(s', run, days, hash);
    forall i | 0 <= i < |t.validations| && t.validations[i].hash == hash
               && (i < |s.validations| ==> IsHopeless(s.validations[i]))
      ensures IsHopeless(t.validations[i])
    {
      if i < |s'.validations| {
        HashesStay(s', run, days, i);
      }
      LateValidationsFail(s', run, days, hash, i);
    }
  }

  /** In a state that can be reached, only sessions that were created have rows, so what was never created cannot be
      validated. */
  lemma ReachableIsSound(s: State, days: nat)
    requires IsReachable(s, days)
    ensures IsSound(s)
  {
    var start :| IsReachableFrom(start, s, days);
    var run :| After(Start(start), run, days) == Some(s);
    RunIsSound(Start(start), run, days);
  }

  // ---------- one validation on its own ----------

  function Steps(rows: Table, v: Validation, check: int, renew: int, days: nat): (Table, Progress) {
    if v.progress.Ended? then (rows, v.progress)
    else Next(rows, v, if v.progress == Renewing then renew else check, days)
  }

  /** Undisturbed, the steps of a validation are `validate_session`: at most four steps, the first clock reading for
      the check and the second for the renewal. */
  lemma AloneIsValidate(rows: Table, hash: Hash, check: int, renew: int, days: nat)
    ensures var (r1, p1) := Steps(rows, Validation(hash, Selecting), check, renew, days);
            var (r2, p2) := Steps(r1, Validation(hash, p1), check, renew, days);
            var (r3, p3) := Steps(r2, Validation(hash, p2), check, renew, days);
            var (r4, p4) := Steps(r3, Validation(hash, p3), check, renew, days);
            (r4, p4) == (Validate(rows, hash, check, renew, days).0, Ended(Validate(rows, hash, check, renew, days).1))
  {
  }

  // ---------- what interleaving does allow ----------

  lemma {:induction false} AfterLast(s: State, run: seq<Step>, step: Step, days: nat)
    requires After(s, run, days).Some? && Enabled(After(s, run, days).value, step)
    ensures After(s, run + [step], days) == Some(Do(After(s, run, days).value, step, days))
    decreases |run|
  {
    var longer := run + [step];
    if run == [] {
      assert longer[1..] == [];
    } else {
      AfterLast(Do(s, run[0], days), run[1..], step, days);
      assert longer[0] == run[0] && longer[1..] == run[1..] + [step];
    }
  }

  lemma Reach(s: State, step: Step, days: nat) returns (t: State)
    requires IsReachable(s, days) && Enabled(s, step)
    ensures t == Do(s, step, days) && IsReachable(t, days)
  {
    var start :| IsReachableFrom(start, s, days);
    var run :| After(Start(start), run, days) == Some(s);
    AfterLast(Start(start), run, step, days);
    t := Do(s, step, days);
    assert IsReachableFrom(start, t, days);
  }

  lemma ReachStart(start: int, days: nat)
    ensures IsReachable(Start(start), days)
  {
    assert After(Start(start), [], days) == Some(Start(start));
    assert IsReachableFrom(start, Start(start), days);
  }

  function WithProgress(s: State, i: nat, progress: Progress): State
    requires i < |s.validations|
  {
    s.(validations := s.validations[i := s.validations[i].(progress := progress)])
  }

  /** The remaining steps of a validation that has read a fresh time, one right after the other. */
  lemma Finish(s: State, i: nat, last: Stored, days: nat) returns (t: State)
    requires IsReachable(s, days) && i < |s.validations| && s.validations[i].progress == Deciding(last)
    requires Judge(last, Ttl(days), s.now) == Fresh
    ensures IsReachable(t, days)
    ensures var hash := s.validations[i].hash;
            t == WithProgress(s, i, Ended(Accepted)).(
              rows := if hash in s.rows then s.rows[hash := s.rows[hash].(lastUsed := Now(s.now))] else s.rows)
  {
    t := Reach(s, Advance(i), days);
    assert t == WithProgress(s, i, Renewing);
    t := Reach(t, Advance(i), days);
    assert t == WithProgress(s, i, Updating(s.now));
    t := Reach(t, Advance(i), days);
  }

  /** The remaining steps of a validation that has read an expired time. */
  lemma Expire(s: State, i: nat, last: Stored, days: nat) returns (t: State)
    requires IsReachable(s, days) && i < |s.validations| && s.validations[i].progress == Deciding(last)
    requires Judge(last, Ttl(days), s.now) == Expired
    ensures IsReachable(t, days)
    ensures t == WithProgress(s, i, Ended(Rejected)).(rows := s.rows - {s.validations[i].hash})
  {
    t := Reach(s, Advance(i), days);
    assert t == WithProgress(s, i, Deleting);
    t := Reach(t, Advance(i), days);
  }

  /** A new session and two validations of it, of which the first has read the row. */
  lemma TwoValidations(hash: Hash, start: int, days: nat) returns (s: State)
    ensures IsReachable(s, days)
    ensures s == State(map[hash := Row(Now(start), Now(start))], {hash}, start,
                       [Validation(hash, Deciding(Now(start))), Validation(hash, Selecting)])
  {
    ReachStart(start, days);
    s := Reach(Start(start), Create(hash), days);
    s := Reach(s, Begin(hash), days);
    s := Reach(s, Begin(hash), days);
    assert s.validations == [Validation(hash, Selecting), Validation(hash, Selecting)];
    s := Reach(s, Advance(0), days);
  }

  /** The condition on the order is needed: a validation that has read the row before the logout can still be
      accepted once after it, although the row is gone. */
  lemma EarlyValidationSucceeds(hash: Hash, start: int) returns (s: State)
    ensures IsReachable(s, 0) && hash !in s.rows && hash in s.created
    ensures s.validations == [Validation(hash, Ended(Accepted)), Validation(hash, Selecting)]
  {
    s := TwoValidations(hash, start, 0);
    s := Reach(s, Logout(hash), 0);
    s := Finish(s, 0, Now(start), 0);
  }

  /** A renewal can be lost: of two validations of the same session one is accepted and renews the row, and the
      other, which had read the row before, deletes it a nanosecond later. */
  lemma RenewalCanBeLost(hash: Hash) returns (s: State)
    ensures IsReachable(s, 1) && hash !in s.rows
    ensures s.validations == [Validation(hash, Ended(Rejected)), Validation(hash, Ended(Accepted))]
    ensures s.now == 86400 * NANOS + 1
  {
    s := TwoValidations(hash, 0, 1);
    s := Reach(s, Tick(86400 * NANOS), 1);
    s := Reach(s, Advance(1), 1);
    assert s.validations == [Validation(hash, Deciding(Now(0))), Validation(hash, Deciding(Now(0)))];
    s := Finish(s, 1, Now(0), 1);
    s := Reach(s, Tick(1), 1);
    s := Expire(s, 0, Now(0), 1);
  }
}
