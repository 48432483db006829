/** The promises of the session store in days and nanoseconds (crates/server/src/db.rs): what a setting means for single
    validations, for cleanups and for whole runs. */
module SessionLaws {
  import opened Wrappers
  import opened Calendar
  import opened Sessions
  import opened SessionLimits
  import opened SessionRaces
  import opened SessionRuns

  // ---------- settings ----------

  /** Settings that switch expiry off: zero, and more days than a duration can hold. */
  predicate IsEndless(days: nat) {
    days == 0 || days > 106751991167
  }

  /** The first and the last second that chrono can represent, and the years from 0 to 9999. */
  lemma Range()
    ensures MIN_SECOND == -8334601228800 && MAX_SECOND == 8210266876799
    ensures PLAIN_START == -62167219200 && PLAIN_END == 253402300800
  {
  }

  lemma SettingExactly(days: nat)
    ensures Ttl(days) == if IsEndless(days) then None else Some(days * 86400)
  {
  }

  /** Settings under which no plain time leaves the range of dates. */
  predicate IsUsual(days: nat) {
    0 < days && 253402300800 + days * 86400 <= 8210266876799 && -62167219200 - days * 86400 >= -8334601228800
  }

  // ---------- one validation, one cleanup ----------

  /** What happens to a readable row, in nanoseconds: the expiry panics, has passed, or has not; and nothing but the
      last use of the row itself is changed. */
  lemma ValidateExactly(rows: Table, hash: Hash, check: int, renew: int, days: nat)
    requires hash in rows && rows[hash].lastUsed.At?
    ensures var (rows', answer) := Validate(rows, hash, check, renew, days);
            var expiry := rows[hash].lastUsed.second + 86400 * days;
            && (IsEndless(days) ==> answer == Accepted)
            && (!IsEndless(days) ==>
                  && (answer == Panicked <==> expiry > 8210266876799)
                  && (answer == Accepted <==> expiry <= 8210266876799 && check <= expiry * 1000000000))
            && (answer == Panicked ==> rows' == rows)
            && (answer == Rejected ==> rows' == rows - {hash})
            && (answer == Accepted ==>
                  rows' == rows[hash := Row(rows[hash].createdAt, At(renew / 1000000000, "+00:00"))])
  {
    Range();
    SettingExactly(days);
  }

  /** Unreadable times are expired under every setting that has an expiry, and renewed under every other. */
  lemma ValidateUnreadable(rows: Table, hash: Hash, check: int, renew: int, days: nat)
    requires hash in rows && rows[hash].lastUsed.Unreadable?
    ensures Validate(rows, hash, check, renew, days) ==
            if IsEndless(days) then
              (rows[hash := Row(rows[hash].createdAt, At(renew / 1000000000, "+00:00"))], Accepted)
            else (rows - {hash}, Rejected)
  {
  }

  /** The cleanup panics when its cutoff leaves the range of dates; otherwise it deletes exactly the readable rows whose
      expiry has passed for a second or more of the clock's seconds, and changes none of the others. */
  lemma CleanExactly(rows: Table, hash: Hash, now: int, days: nat)
    requires hash in rows && IsStored(rows[hash].lastUsed) && rows[hash].lastUsed.At?
    requires now < 253402300800 * 1000000000
    ensures Clean(rows, now, days) == None <==>
            !IsEndless(days) && now < (-8334601228800 + 86400 * days) * 1000000000
    ensures Clean(rows, now, days).Some? ==>
              var cleaned := Clean(rows, now, days).value;
              && (hash in cleaned <==>
                  IsEndless(days) || now < (rows[hash].lastUsed.second + 86400 * days + 1) * 1000000000)
              && (hash in cleaned ==> cleaned[hash] == rows[hash])
              && cleaned.Keys <= rows.Keys
  {
    Range();
    SettingExactly(days);
    if Ttl(days).Some? && Clean(rows, now, days).Some? {
      CleanedBySeconds(rows, hash, now, days);
    }
  }

  // ---------- runs ----------

  /** The second of the renewal before access `k`, or of the creation. */
  function LastRenewal(created: int, accesses: seq<Event>, k: nat): int
    requires k <= |accesses| && forall i :: 0 <= i < |accesses| ==> accesses[i].Access?
  {
    (if k == 0 then created else accesses[k - 1].renew) / 1000000000
  }

  /** Access `k` is checked at most the given number of days after the second of the renewal before it. */
  predicate IsWithinDays(created: int, accesses: seq<Event>, days: nat, k: nat)
    requires k < |accesses| && forall i :: 0 <= i < |accesses| ==> accesses[i].Access?
  {
    accesses[k].check <= (LastRenewal(created, accesses, k) + 86400 * days) * 1000000000
  }

  lemma WithinDaysIsInTime(created: int, accesses: seq<Event>, days: nat, k: nat)
    requires k < |accesses| && forall i :: 0 <= i < |accesses| ==> accesses[i].Access?
    ensures IsWithinDays(created, accesses, days, k) <==> InTime(FloorSecond(created), accesses, days * 86400, k)
  {
    assert LastRenewal(created, accesses, k) == RenewedAt(FloorSecond(created), accesses, k);
  }

  /** Main result. For every usual setting, every monotone clock and any cleanups: access `k` to a new session is
      accepted exactly when each access so far was checked at most that many days after the second of the renewal
      before it. */
  lemma DaysDecide(rows: Table, hash: Hash, created: int, events: seq<Event>, days: nat, k: nat)
    requires IsUsual(days) && hash !in rows
    requires -62167219200 <= created / 1000000000 < 253402300800 && IsMonotone(events, created)
    requires k < |Accesses(events)|
    ensures var first := At(created / 1000000000, "+00:00");
            var answers := Answers(rows[hash := Row(first, first)], hash, events, days);
            && |answers| == |Accesses(events)|
            && answers[k] in {Accepted, Rejected}
            && (answers[k] == Accepted <==>
                  forall j :: 0 <= j <= k ==> IsWithinDays(created, Accesses(events), days, j))
  {
    Range();
    SettingExactly(days);
    ExpiryOverRuns(rows, hash, created, events, days, k);
    forall j | 0 <= j <= k
      ensures IsWithinDays(created, Accesses(events), days, j) <==>
              InTime(FloorSecond(created), Accesses(events), days * 86400, j)
    {
      WithinDaysIsInTime(created, Accesses(events), days, j);
    }
  }

  lemma {:induction false} EndlessKeeps(rows: Table, hash: Hash, events: seq<Event>, days: nat, k: nat)
    requires IsEndless(days) && hash in rows && k < |Accesses(events)|
    ensures |Answers(rows, hash, events, days)| == |Accesses(events)|
    ensures Answers(rows, hash, events, days)[k] == Accepted
    decreases |events|
  {
    SettingExactly(days);
    var rest := events[1..];
    match events[0] {
      case Cleanup(_) =>
        EndlessKeeps(rows, hash, rest, days, k);
        assert Accesses(events) == Accesses(rest);
      case Access(check, renew) =>
        var rows' := Validate(rows, hash, check, renew, days).0;
        assert Accesses(events)[1..] == Accesses(rest);
        if Accesses(rest) == [] {
          NoAnswers(rows', hash, rest, days);
        } else {
          EndlessKeeps(rows', hash, rest, days, if k > 0 then k - 1 else 0);
        }
    }
  }

  lemma {:induction false} NoAnswers(rows: Table, hash: Hash, events: seq<Event>, days: nat)
    requires Accesses(events) == []
    ensures Answers(rows, hash, events, days) == []
    decreases |events|
  {
    if events != [] {
      assert events[0].Cleanup?;
      NoAnswers(Clean(rows, events[0].now, days).GetOr(rows), hash, events[1..], days);
    }
  }

  // ---------- cleanups among concurrent requests ----------

  /** After a cleanup under a usual setting and a plain clock, no row is left whose expiry has passed for a second or
      more, in whatever state the process is. */
  lemma CleanupLeavesLiveRows(start: int, s: State, hash: Hash, days: nat)
    requires IsReachableFrom(start, s, days) && IsUsual(days)
    requires -62167219200 <= FloorSecond(start) && FloorSecond(s.now) < 253402300800
    requires hash in Do(s, CleanExpired, days).rows
    ensures hash in s.rows && Do(s, CleanExpired, days).rows[hash] == s.rows[hash]
    ensures s.rows[hash].lastUsed.At? && s.now < (s.rows[hash].lastUsed.second + 86400 * days + 1) * 1000000000
  {
    Range();
    ReachableIsTimely(start, s, days);
    assert hash in s.rows && IsTimelyRow(start, s.rows[hash], s.now);
    FloorIsOrdered(start, s.now);
    CleanExactly(s.rows, hash, s.now, days);
  }
}
