/** What concurrent session requests can still do, exactly (crates/server/src/db.rs): which validations can be
    accepted although the row is gone, and until when a row that was renewed is sure to stay. */
module SessionLimits {
  import opened Wrappers
  import opened Calendar
  import opened Sessions
  import opened SessionRaces

  // ---------- runs ----------

  /** A run with one more step. */
  lemma Extend(s: State, run: seq<Step>, t: State, step: Step, days: nat) returns (longer: seq<Step>, u: State)
    requires After(s, run, days) == Some(t) && Enabled(t, step)
    ensures longer == run + [step] && u == Do(t, step, days) && After(s, longer, days) == Some(u)
  {
    AfterLast(s, run, step, days);
    longer, u := run + [step], Do(t, step, days);
  }

  lemma {:induction false} ClockNeverGoesBack(s: State, run: seq<Step>, days: nat)
    requires After(s, run, days).Some?
    ensures s.now <= After(s, run, days).value.now
    decreases |run|
  {
    if run != [] {
      ClockNeverGoesBack(Do(s, run[0], days), run[1..], days);
    }
  }

  /** What is not fresh never becomes fresh again, and what is not yet expired was not expired before. */
  lemma JudgedLater(last: Stored, ttl: Option<nat>, now: int, later: int)
    requires now <= later
    ensures Judge(last, ttl, later) == Fresh ==> Judge(last, ttl, now) == Fresh
    ensures Judge(last, ttl, now) == Expired ==> Judge(last, ttl, later) == Expired
  {
  }

  // ---------- acceptance after the row is gone ----------

  /** A validation that can still be accepted although its row is gone: it has passed its check, or has read a time
      that passes it now. */
  predicate CanStillPass(s: State, i: nat, days: nat)
    requires i < |s.validations|
  {
    match s.validations[i].progress
    case Selecting => false
    case Deciding(last) => Judge(last, Ttl(days), s.now) == Fresh
    case Deleting => false
    case Renewing => true
    case Updating(_) => true
    case Ended(answer) => answer == Accepted
  }

  /** The run can happen, and in it validation `i` is accepted. */
  predicate Accepts(s: State, run: seq<Step>, i: nat, days: nat) {
    && After(s, run, days).Some?
    && i < |After(s, run, days).value.validations|
    && After(s, run, days).value.validations[i].progress == Ended(Accepted)
  }

  lemma StepKeepsShut(s: State, step: Step, i: nat, days: nat)
    requires Enabled(s, step) && i < |s.validations| && !CanStillPass(s, i, days)
    requires s.validations[i].hash in s.created && s.validations[i].hash !in s.rows
    ensures !CanStillPass(Do(s, step, days), i, days)
    ensures Do(s, step, days).validations[i].hash == s.validations[i].hash
  {
    if s.validations[i].progress.Deciding? {
      JudgedLater(s.validations[i].progress.last, Ttl(days), s.now, Do(s, step, days).now);
    }
  }

  lemma {:induction false} ShutStaysShut(s: State, run: seq<Step>, i: nat, days: nat)
    requires i < |s.validations| && !CanStillPass(s, i, days)
    requires s.validations[i].hash in s.created && s.validations[i].hash !in s.rows
    ensures !Accepts(s, run, i, days)
    decreases |run|
  {
    if run != [] && Enabled(s, run[0]) {
      StepKeepsShut(s, run[0], i, days);
      StepKeepsGone(s, run[0], days, s.validations[i].hash);
      ShutStaysShut(Do(s, run[0], days), run[1..], i, days);
    }
  }

  lemma PassingRun(s: State, i: nat, days: nat) returns (run: seq<Step>)
    requires i < |s.validations| && CanStillPass(s, i, days)
    ensures Accepts(s, run, i, days)
  {
    var t := s;
    run := [];
    if t.validations[i].progress.Deciding? {
      run, t := Extend(s, run, t, Advance(i), days);
    }
    if t.validations[i].progress.Renewing? {
      run, t := Extend(s, run, t, Advance(i), days);
    }
    if t.validations[i].progress.Updating? {
      run, t := Extend(s, run, t, Advance(i), days);
    }
  }

  /** A validation of a session whose row is gone can still be accepted exactly when it has passed its check, or has
      read a time that passes it now. */
  lemma StillAcceptedExactly(s: State, i: nat, days: nat)
    requires i < |s.validations| && s.validations[i].hash in s.created && s.validations[i].hash !in s.rows
    ensures (exists run :: Accepts(s, run, i, days)) <==> CanStillPass(s, i, days)
  {
    if CanStillPass(s, i, days) {
      var run := PassingRun(s, i, days);
    } else {
      forall run
        ensures !Accepts(s, run, i, days)
      {
        ShutStaysShut(s, run, i, days);
      }
    }
  }

  /** Main result. After a logout, or a logout of everyone, a validation that was under way can still be accepted
      exactly when it had passed its check before, or had read a time that passes it now; and no validation that begins
      later is accepted. */
  lemma AcceptedAfterRevocationExactly(s: State, step: Step, hash: Hash, i: nat, days: nat)
    requires hash in s.created && Revokes(step, hash)
    ensures i < |s.validations| && s.validations[i].hash == hash ==>
              ((exists run :: Accepts(Do(s, step, days), run, i, days)) <==> CanStillPass(s, i, days))
    ensures forall run :: i >= |s.validations| && Accepts(Do(s, step, days), run, i, days) ==>
              After(Do(s, step, days), run, days).value.validations[i].hash != hash
  {
    var s' := Do(s, step, days);
    assert s'.validations == s.validations && s'.now == s.now && hash in s'.created && hash !in s'.rows;
    if i < |s.validations| && s.validations[i].hash == hash {
      StillAcceptedExactly(s', i, days);
    }
    forall run | i >= |s.validations| && Accepts(s', run, i, days)
      ensures After(s', run, days).value.validations[i].hash != hash
    {
      if After(s', run, days).value.validations[i].hash == hash {
        LateValidationsFail(s', run, days, hash, i);
      }
    }
  }

  // ---------- how long a row is sure to stay ----------

  /** A time that has not expired by `until`. */
  predicate Reaches(last: Stored, days: nat, until: int) {
    Judge(last, Ttl(days), until) != Expired
  }

  /** A validation that cannot delete a row before `until`, nor write a time that expires by then. */
  predicate IsHarmless(v: Validation, days: nat, until: int) {
    match v.progress
    case Deleting => false
    case Deciding(last) => Reaches(last, days, until)
    case Updating(t) => Reaches(Now(t), days, until)
    case _ => true
  }

  /** The row is there and reaches `until`, and so does everything that validations of it have in hand. */
  predicate IsSecure(s: State, hash: Hash, days: nat, until: int) {
    && hash in s.rows && Reaches(s.rows[hash].lastUsed, days, until)
    && forall i :: 0 <= i < |s.validations| && s.validations[i].hash == hash ==>
                     IsHarmless(s.validations[i], days, until)
  }

  /** No logout of the session, and a cleanup only if it is allowed. */
  predicate Spares(step: Step, hash: Hash, cleaning: bool) {
    step != Logout(hash) && step != LogoutAll && (step == CleanExpired ==> cleaning)
  }

  /** The run can happen, nobody logs out, and the clock does not pass `until`. */
  predicate IsQuiet(s: State, run: seq<Step>, hash: Hash, days: nat, until: int, cleaning: bool) {
    && (forall k :: 0 <= k < |run| ==> Spares(run[k], hash, cleaning))
    && After(s, run, days).Some?
    && After(s, run, days).value.now <= until
  }

  /** Every stored time, and every clock reading in hand, lies between the start and now. */
  predicate IsTimely(start: int, s: State) {
    && start <= s.now
    && (forall h :: h in s.rows ==> IsTimelyRow(start, s.rows[h], s.now))
    && (forall i :: 0 <= i < |s.validations| && s.validations[i].progress.Updating? ==>
          start <= s.validations[i].progress.renew <= s.now)
  }

  predicate IsTimelyRow(start: int, row: Row, now: int) {
    && row.lastUsed.At? && row.lastUsed.zone == OFFSET
    && FloorSecond(start) <= row.lastUsed.second <= FloorSecond(now)
  }

  lemma FloorIsOrdered(now: int, later: int)
    requires now <= later
    ensures FloorSecond(now) <= FloorSecond(later)
  {
  }

  lemma StepIsTimely(start: int, s: State, step: Step, days: nat)
    requires Enabled(s, step) && IsTimely(start, s)
    ensures IsTimely(start, Do(s, step, days))
  {
    FloorIsOrdered(start, s.now);
    FloorIsOrdered(s.now, Do(s, step, days).now);
    if step.Advance? && s.validations[step.i].progress.Updating? {
      FloorIsOrdered(start, s.validations[step.i].progress.renew);
      FloorIsOrdered(s.validations[step.i].progress.renew, s.now);
    }
  }

  lemma {:induction false} RunIsTimely(start: int, s: State, run: seq<Step>, days: nat)
    requires IsTimely(start, s) && After(s, run, days).Some?
    ensures IsTimely(start, After(s, run, days).value)
    decreases |run|
  {
    if run != [] {
      StepIsTimely(start, s, run[0], days);
      RunIsTimely(start, Do(s, run[0], days), run[1..], days);
    }
  }

  lemma ReachableIsTimely(start: int, s: State, days: nat)
    requires IsReachableFrom(start, s, days)
    ensures IsTimely(start, s)
  {
    var run :| After(Start(start), run, days) == Some(s);
    RunIsTimely(start, Start(start), run, days);
  }

  /** The cleanup keeps every row that lasts until a later time, if all clock readings are plain. */
  lemma CleanupKeeps(start: int, rows: Table, hash: Hash, now: int, days: nat, until: int)
    requires hash in rows && IsTimelyRow(start, rows[hash], now) && Reaches(rows[hash].lastUsed, days, until)
    requires now <= until && PLAIN_START <= FloorSecond(start) && FloorSecond(until) < PLAIN_END
    ensures var cleaned := Clean(rows, now, days).GetOr(rows); hash in cleaned && cleaned[hash] == rows[hash]
  {
    FloorIsOrdered(now, until);
    if Ttl(days).Some? && Clean(rows, now, days).Some? {
      PlainIsInRange();
      JudgedBySeconds(rows[hash].lastUsed.second, Ttl(days).value, until);
      CleanedBySeconds(rows, hash, now, days);
    }
  }

  /** What is written now lasts at least as long as what was written before. */
  lemma NowReachesFurther(last: Stored, days: nat, now: int, until: int)
    requires last.At? && last.second <= FloorSecond(now) && Reaches(last, days, until)
    ensures Reaches(Now(now), days, until)
  {
  }

  lemma NextIsHarmless(rows: Table, v: Validation, now: int, days: nat, until: int)
    requires !v.progress.Ended? && IsHarmless(v, days, until) && now <= until
    requires v.hash in rows && Reaches(rows[v.hash].lastUsed, days, until) && Reaches(Now(now), days, until)
    ensures var (rows', progress) := Next(rows, v, now, days);
            && v.hash in rows' && Reaches(rows'[v.hash].lastUsed, days, until)
            && IsHarmless(v.(progress := progress), days, until)
  {
    if v.progress.Deciding? {
      JudgedLater(v.progress.last, Ttl(days), now, until);
    }
  }

  lemma AdvanceIsSecure(start: int, s: State, i: nat, hash: Hash, days: nat, until: int)
    requires IsTimely(start, s) && IsSecure(s, hash, days, until) && Enabled(s, Advance(i)) && s.now <= until
    ensures IsSecure(Do(s, Advance(i), days), hash, days, until)
  {
    NowReachesFurther(s.rows[hash].lastUsed, days, s.now, until);
    if s.validations[i].hash == hash {
      NextIsHarmless(s.rows, s.validations[i], s.now, days, until);
    }
  }

  /** All clock readings of the process are plain, if the cleanup may run. */
  predicate IsPlain(start: int, until: int, cleaning: bool) {
    cleaning ==> PLAIN_START <= FloorSecond(start) && FloorSecond(until) < PLAIN_END
  }

  lemma StepIsSecure(start: int, s: State, step: Step, hash: Hash, days: nat, until: int, cleaning: bool)
    requires IsTimely(start, s) && IsSecure(s, hash, days, until) && IsPlain(start, until, cleaning)
    requires Enabled(s, step) && Spares(step, hash, cleaning) && s.now <= until
    ensures IsSecure(Do(s, step, days), hash, days, until)
  {
    NowReachesFurther(s.rows[hash].lastUsed, days, s.now, until);
    if step.Advance? {
      AdvanceIsSecure(start, s, step.i, hash, days, until);
    } else if step.CleanExpired? {
      CleanupKeeps(start, s.rows, hash, s.now, days, until);
    }
  }

  lemma {:induction false} SecureRowStays(
    start: int, s: State, run: seq<Step>, hash: Hash, days: nat, until: int, cleaning: bool)
    requires IsTimely(start, s) && IsSecure(s, hash, days, until) && IsPlain(start, until, cleaning)
    requires IsQuiet(s, run, hash, days, until, cleaning)
    ensures IsSecure(After(s, run, days).value, hash, days, until)
    decreases |run|
  {
    if run != [] {
      var t := Do(s, run[0], days);
      ClockNeverGoesBack(s, run, days);
      StepIsTimely(start, s, run[0], days);
      StepIsSecure(start, s, run[0], hash, days, until, cleaning);
      SecureRowStays(start, t, run[1..], hash, days, until, cleaning);
    }
  }

  // ---------- how a row that is not secure is lost ----------

  /** A new validation at the time `until` finds the row expired. */
  lemma ExpiredRowIsLost(s: State, hash: Hash, days: nat, until: int) returns (run: seq<Step>)
    requires s.now <= until && hash in s.rows && !Reaches(s.rows[hash].lastUsed, days, until)
    ensures IsQuiet(s, run, hash, days, until, false) && hash !in After(s, run, days).value.rows
  {
    var n, t := |s.validations|, s;
    run := [];
    run, t := Extend(s, run, t, Tick(until - s.now), days);
    run, t := Extend(s, run, t, Begin(hash), days);
    run, t := Extend(s, run, t, Advance(n), days);
    assert t.validations[n].progress == Deciding(s.rows[hash].lastUsed) && t.now == until;
    run, t := Extend(s, run, t, Advance(n), days);
    assert t.validations[n] == Validation(hash, Deleting);
    run, t := Extend(s, run, t, Advance(n), days);
  }

  /** A validation that has a stale time in hand deletes the row, at the latest at the time `until`. */
  lemma StaleValidationDeletes(s: State, i: nat, hash: Hash, days: nat, until: int) returns (run: seq<Step>)
    requires s.now <= until && i < |s.validations| && s.validations[i].hash == hash
    requires !IsHarmless(s.validations[i], days, until) && !s.validations[i].progress.Updating?
    ensures IsQuiet(s, run, hash, days, until, false) && hash !in After(s, run, days).value.rows
  {
    var t := s;
    run := [];
    if t.validations[i].progress.Deciding? {
      run, t := Extend(s, run, t, Tick(until - s.now), days);
      run, t := Extend(s, run, t, Advance(i), days);
    }
    assert t.validations[i] == Validation(hash, Deleting);
    run, t := Extend(s, run, t, Advance(i), days);
  }

  /** A validation that has a stale clock reading in hand overwrites the row with it, and the row then expires. */
  lemma StaleUpdateExpires(s: State, i: nat, hash: Hash, days: nat, until: int) returns (run: seq<Step>)
    requires s.now <= until && hash in s.rows && i < |s.validations| && s.validations[i].hash == hash
    requires !IsHarmless(s.validations[i], days, until) && s.validations[i].progress.Updating?
    ensures IsQuiet(s, run, hash, days, until, false) && hash !in After(s, run, days).value.rows
  {
    var t := Do(s, Advance(i), days);
    var rest := ExpiredRowIsLost(t, hash, days, until);
    run := [Advance(i)] + rest;
    assert run[0] == Advance(i) && run[1..] == rest;
  }

  lemma InsecureRowIsLost(s: State, hash: Hash, days: nat, until: int) returns (run: seq<Step>)
    requires s.now <= until && hash in s.rows && !IsSecure(s, hash, days, until)
    ensures IsQuiet(s, run, hash, days, until, false) && hash !in After(s, run, days).value.rows
  {
    if !Reaches(s.rows[hash].lastUsed, days, until) {
      run := ExpiredRowIsLost(s, hash, days, until);
    } else {
      var i :| 0 <= i < |s.validations| && s.validations[i].hash == hash
               && !IsHarmless(s.validations[i], days, until);
      if s.validations[i].progress.Updating? {
        run := StaleUpdateExpires(s, i, hash, days, until);
      } else {
        run := StaleValidationDeletes(s, i, hash, days, until);
      }
    }
  }

  lemma AlsoWithCleaning(s: State, run: seq<Step>, hash: Hash, days: nat, until: int, cleaning: bool)
    requires IsQuiet(s, run, hash, days, until, false)
    ensures IsQuiet(s, run, hash, days, until, cleaning)
  {
  }

  /** Main result. As long as nobody logs out, the row is sure to stay until a given time exactly when its own time
      lasts until then, no validation of the session is about to delete it, and every time that one has read or is
      about to write lasts until then. So a renewal is lost exactly by validations that were under way before it; the
      cleanup, which may run at any moment if all clock readings are plain, makes no difference. */
  lemma RowStaysExactly(start: int, s: State, hash: Hash, days: nat, until: int, cleaning: bool)
    requires IsReachableFrom(start, s, days) && hash in s.rows && s.now <= until
    requires IsPlain(start, until, cleaning)
    ensures (forall run :: IsQuiet(s, run, hash, days, until, cleaning) ==> hash in After(s, run, days).value.rows)
            <==> IsSecure(s, hash, days, until)
  {
    ReachableIsTimely(start, s, days);
    if IsSecure(s, hash, days, until) {
      forall run | IsQuiet(s, run, hash, days, until, cleaning)
        ensures hash in After(s, run, days).value.rows
      {
        SecureRowStays(start, s, run, hash, days, until, cleaning);
      }
    } else {
      var run := InsecureRowIsLost(s, hash, days, until);
      AlsoWithCleaning(s, run, hash, days, until, cleaning);
    }
  }
}
