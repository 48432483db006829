/** The session table (crates/server/src/db.rs): creation, validation with sliding expiry, cleanup, revocation.
    A clock reading is a number of nanoseconds since 1970-01-01T00:00:00Z; stored times have whole seconds. */
module Sessions {
  import opened Wrappers
  import opened Calendar

  type Hash = string

  const NANOS: int := 1000000000

  /** `with_nanosecond(0)` */
  function FloorSecond(now: int): int {
    now / NANOS
  }

  // ---------- stored times ----------

  /** A stored time: one that was written by the server or the migration, or some other text. */
  datatype Stored = At(second: int, zone: string) | Unreadable(text: string)

  datatype Row = Row(createdAt: Stored, lastUsed: Stored)

  type Table = map<Hash, Row>

  function TextOf(s: Stored): string {
    match s case At(t, zone) => Rfc3339(t, zone) case Unreadable(text) => text
  }

  /** `Utc::now().with_nanosecond(0).to_rfc3339()` */
  function Now(now: int): Stored {
    At(FloorSecond(now), OFFSET)
  }

  predicate IsStored(s: Stored) {
    s.At? ==> PLAIN_START <= s.second < PLAIN_END && (s.zone == OFFSET || s.zone == ZULU)
  }

  // ---------- time to live ----------

  const MAX_I64: int := 9223372036854775807
  /** The largest number of days that `TimeDelta::try_days` accepts. */
  const MAX_DAYS: int := MAX_I64 / 1000 / 86400

  /** The first and the last second that chrono can represent. */
  const MIN_SECOND: int := (YearStart(-262143) - EPOCH) * 86400
  const MAX_SECOND: int := (YearStart(262143) - EPOCH) * 86400 - 1

  /** The time to live in seconds; zero and out-of-range settings switch expiry off. */
  function Ttl(days: nat): Option<nat> {
    if days == 0 || days > MAX_I64 || days > MAX_DAYS then None else Some(days * 86400)
  }

  // ---------- what the operations mean ----------

  datatype Answer = Accepted | Rejected | Panicked

  datatype Verdict = Fresh | Expired | Overflow

  /** `last + ttl < now`; the addition panics when it leaves the range of dates. */
  function Judge(last: Stored, ttl: Option<nat>, now: int): Verdict {
    if ttl.None? then Fresh
    else match last
         case Unreadable(_) => Expired
         case At(t, _) =>
           if t + ttl.value > MAX_SECOND then Overflow
           else if (t + ttl.value) * NANOS < now then Expired
           else Fresh
  }

  /** `validate_session`; the clock is read once for the check and once for the renewal. */
  function Validate(rows: Table, hash: Hash, check: int, renew: int, days: nat): (Table, Answer) {
    if hash !in rows then (rows, Rejected)
    else match Judge(rows[hash].lastUsed, Ttl(days), check)
         case Overflow => (rows, Panicked)
         case Expired => (rows - {hash}, Rejected)
         case Fresh => (rows[hash := rows[hash].(lastUsed := Now(renew))], Accepted)
  }

  /** `delete_expired_sessions`, unless the cutoff cannot be represented: then it panics. */
  function Clean(rows: Table, now: int, days: nat): Option<Table> {
    match Ttl(days)
    case None => Some(rows)
    case Some(ttl) =>
      var cutoff := Cutoff(now, ttl);
      if cutoff < MIN_SECOND then None else Some(CleanUpTo(rows, cutoff))
  }

  /** `(Utc::now() - ttl).with_nanosecond(0)` */
  function Cutoff(now: int, ttl: nat): int {
    FloorSecond(now) - ttl
  }

  function CleanUpTo(rows: Table, cutoff: int): Table {
    map h | h in rows && !IsCutOff(rows[h], cutoff) :: rows[h]
  }

  /** `last_used_at < ?` on texts */
  predicate IsCutOff(row: Row, cutoff: int) {
    Less(TextOf(row.lastUsed), Rfc3339(cutoff, OFFSET))
  }

  /** The sessions table. */
  class SessionStore {
    var rows: Table

    constructor ()
      ensures rows == map[]
    {
      rows := map[];
    }

    /** `create_session`; the primary key refuses a hash that is already there. */
    method Create(hash: Hash, now: int) returns (ok: bool)
      modifies this
      ensures ok == (hash !in old(rows))
      ensures rows == if ok then old(rows)[hash := Row(Now(now), Now(now))] else old(rows)
    {
      ok := hash !in rows;
      if ok {
        rows := rows[hash := Row(Now(now), Now(now))];
      }
    }

    /** `validate_session` */
    method ValidateSession(hash: Hash, check: int, renew: int, days: nat) returns (answer: Answer)
      modifies this
      ensures (rows, answer) == Validate(old(rows), hash, check, renew, days)
    {
      if hash !in rows {
        return Rejected;
      }
      var lastUsed := rows[hash].lastUsed;
      var ttl := Ttl(days);
      if ttl.Some? {
        var expired := true;
        if lastUsed.At? {
          if lastUsed.second + ttl.value > MAX_SECOND {
            return Panicked;
          }
          expired := (lastUsed.second + ttl.value) * NANOS < check;
        }
        if expired {
          rows := rows - {hash};
          return Rejected;
        }
      }
      rows := rows[hash := rows[hash].(lastUsed := Now(renew))];
      return Accepted;
    }

    /** `delete_expired_sessions` */
    method DeleteExpired(now: int, days: nat) returns (ok: bool)
      modifies this
      ensures match Clean(old(rows), now, days)
              case Some(cleaned) => ok && rows == cleaned
              case None => !ok && rows == old(rows)
    {
      var ttl := Ttl(days);
      if ttl.None? {
        return true;
      }
      var cutoff := Cutoff(now, ttl.value);
      if cutoff < MIN_SECOND {
        return false;
      }
      DeleteBefore(cutoff);
      return true;
    }

    /** The statement of the cleanup. */
    method DeleteBefore(cutoff: int)
      modifies this
      ensures rows == CleanUpTo(old(rows), cutoff)
    {
      rows := map h | h in rows && !Less(TextOf(rows[h].lastUsed), Rfc3339(cutoff, OFFSET)) :: rows[h];
    }

    /** `delete_session` */
    method DeleteSession(hash: Hash)
      modifies this
      ensures rows == old(rows) - {hash}
    {
      rows := rows - {hash};
    }

    /** `delete_all_sessions` */
    method DeleteAll()
      modifies this
      ensures rows == map[]
    {
      rows := map[];
    }
  }

  // ---------- cleanup against validation ----------

  /** The string comparison of the cleanup is a comparison of instants. */
  lemma CutOffExactly(row: Row, cutoff: int)
    requires IsStored(row.lastUsed) && row.lastUsed.At? && cutoff < PLAIN_END
    ensures IsCutOff(row, cutoff) <==> row.lastUsed.second < cutoff
  {
    TextOrderIsTimeOrder(row.lastUsed.second, row.lastUsed.zone, cutoff);
  }

  lemma JudgedBySeconds(t: int, ttl: nat, now: int)
    ensures (t + ttl) * NANOS < now <==>
            t + ttl < FloorSecond(now) || (t + ttl == FloorSecond(now) && now % NANOS > 0)
  {
  }

  /** Every plain time is representable. */
  lemma PlainIsInRange()
    ensures MIN_SECOND < PLAIN_START && PLAIN_END <= MAX_SECOND
  {
  }

  lemma CleanedExactly(rows: Table, hash: Hash, cutoff: int)
    requires hash in rows && IsStored(rows[hash].lastUsed) && rows[hash].lastUsed.At? && cutoff < PLAIN_END
    ensures hash in CleanUpTo(rows, cutoff) <==> rows[hash].lastUsed.second >= cutoff
  {
    CutOffExactly(rows[hash], cutoff);
  }

  lemma CleanedBySeconds(rows: Table, hash: Hash, now: int, days: nat)
    requires hash in rows && IsStored(rows[hash].lastUsed) && rows[hash].lastUsed.At?
    requires Ttl(days).Some? && Clean(rows, now, days).Some? && FloorSecond(now) < PLAIN_END
    ensures hash in Clean(rows, now, days).value <==> rows[hash].lastUsed.second + Ttl(days).value >= FloorSecond(now)
  {
    var cutoff := Cutoff(now, Ttl(days).value);
    CleanedExactly(rows, hash, cutoff);
  }

  lemma RejectedBySeconds(rows: Table, hash: Hash, now: int, renew: int, days: nat)
    requires hash in rows && rows[hash].lastUsed.At? && Ttl(days).Some? && FloorSecond(now) < PLAIN_END
    ensures Validate(rows, hash, now, renew, days).1 == Rejected <==>
            var expiry := rows[hash].lastUsed.second + Ttl(days).value;
            expiry < FloorSecond(now) || (expiry == FloorSecond(now) && now % NANOS > 0)
  {
    JudgedBySeconds(rows[hash].lastUsed.second, Ttl(days).value, now);
    PlainIsInRange();
  }

  /** The expired rows that the cleanup leaves: used exactly at the truncated cutoff, while the clock has a fraction of
      a second; or with a text that is no time and does not sort below the cutoff. */
  predicate OutlivesCleanup(last: Stored, ttl: nat, now: int) {
    match last
    case At(t, _) => t == Cutoff(now, ttl) && now % NANOS > 0
    case Unreadable(text) => !Less(text, Rfc3339(Cutoff(now, ttl), OFFSET))
  }

  /** At any instant the cleanup deletes only rows that validation would reject, and the rejected rows that it keeps are
      exactly the ones above; without a usable setting nothing is deleted and nothing expires. */
  lemma CleanupAgreesWithValidation(rows: Table, hash: Hash, now: int, renew: int, days: nat)
    requires hash in rows && IsStored(rows[hash].lastUsed) && FloorSecond(now) < PLAIN_END
    requires Clean(rows, now, days).Some?
    ensures var kept := hash in Clean(rows, now, days).value;
            var answer := Validate(rows, hash, now, renew, days).1;
            && (!kept ==> answer == Rejected)
            && (kept && answer == Rejected <==>
                Ttl(days).Some? && OutlivesCleanup(rows[hash].lastUsed, Ttl(days).value, now))
            && (Ttl(days).None? ==> Clean(rows, now, days).value == rows && answer == Accepted)
  {
    if Ttl(days).Some? && rows[hash].lastUsed.At? {
      CleanedBySeconds(rows, hash, now, days);
      RejectedBySeconds(rows, hash, now, renew, days);
    }
  }

  // ---------- settings ----------

  /** Validation panics exactly when the row is there and its expiry leaves the range of dates; the cleanup exactly
      when its cutoff does. */
  lemma PanicsExactly(rows: Table, hash: Hash, check: int, renew: int, days: nat)
    ensures Validate(rows, hash, check, renew, days).1 == Panicked <==>
            && hash in rows && Ttl(days).Some? && rows[hash].lastUsed.At?
            && rows[hash].lastUsed.second + Ttl(days).value > MAX_SECOND
    ensures Clean(rows, check, days) == None <==>
            Ttl(days).Some? && FloorSecond(check) - Ttl(days).value < MIN_SECOND
  {
  }

  /** The check of the setting does not rule that out: a hundred million days pass it, and then every session that
      was last used after 1969 panics when it is validated, and so does the cleanup at every plain time. */
  lemma LargeSettingPanics(rows: Table, hash: Hash, check: int, renew: int)
    requires hash in rows && rows[hash].lastUsed.At? && rows[hash].lastUsed.second >= 0
    requires FloorSecond(check) < PLAIN_END
    ensures Ttl(100000000).Some?
    ensures Validate(rows, hash, check, renew, 100000000).1 == Panicked
    ensures Clean(rows, check, 100000000) == None
  {
  }
}
