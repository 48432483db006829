/** Sliding expiry over whole runs: one session, any number of validations and cleanups, a clock that never goes
    back (crates/server/src/db.rs). */
module SessionRuns {
  import opened Wrappers
  import opened Calendar
  import opened Sessions

  /** What can concern the session, with the clock readings that it makes. */
  datatype Event = Access(check: int, renew: int) | Cleanup(now: int)

  function StartOf(e: Event): int {
    match e case Access(check, _) => check case Cleanup(now) => now
  }

  function EndOf(e: Event): int {
    match e case Access(_, renew) => renew case Cleanup(now) => now
  }

  /** The readings never go back, none is before `from`, and all are plain times. */
  predicate IsMonotone(events: seq<Event>, from: int) {
    events != [] ==>
      && from <= StartOf(events[0]) <= EndOf(events[0]) && FloorSecond(EndOf(events[0])) < PLAIN_END
      && IsMonotone(events[1..], EndOf(events[0]))
  }

  /** The answers of the server to the accesses, and the table in between. */
  function Answers(rows: Table, hash: Hash, events: seq<Event>, days: nat): seq<Answer>
    decreases |events|
  {
    if events == [] then []
    else match events[0]
         case Access(check, renew) =>
           var (rows', answer) := Validate(rows, hash, check, renew, days);
           [answer] + Answers(rows', hash, events[1..], days)
         case Cleanup(now) => Answers(Clean(rows, now, days).GetOr(rows), hash, events[1..], days)
  }

  /** What is promised: a session lives on while every access comes within the time to live of the second of the
      renewal before it. Cleanups do not matter. */
  function Promised(last: Option<int>, ttl: nat, events: seq<Event>): seq<Answer>
    decreases |events|
  {
    if events == [] then []
    else match events[0]
         case Cleanup(_) => Promised(last, ttl, events[1..])
         case Access(check, renew) =>
           if last.Some? && (last.value + ttl) * NANOS >= check then
             [Accepted] + Promised(Some(FloorSecond(renew)), ttl, events[1..])
           else [Rejected] + Promised(None, ttl, events[1..])
  }

  /** The table against the promise: the row holds the last renewal, or it is gone and the session has expired. */
  predicate Agrees(rows: Table, hash: Hash, last: Option<int>, ttl: nat, now: int) {
    if hash in rows then
      && rows[hash].lastUsed.At? && IsStored(rows[hash].lastUsed)
      && last == Some(rows[hash].lastUsed.second)
    else last.None? || (last.value + ttl) * NANOS < now
  }

  /** Times to live that never leave the range of dates. */
  predicate IsSafe(ttl: nat) {
    PLAIN_END + ttl <= MAX_SECOND && PLAIN_START - ttl >= MIN_SECOND
  }

  lemma AccessAgrees(rows: Table, hash: Hash, last: Option<int>, check: int, renew: int, days: nat)
    requires Ttl(days).Some? && IsSafe(Ttl(days).value) && Agrees(rows, hash, last, Ttl(days).value, check)
    requires PLAIN_START <= FloorSecond(check) && check <= renew && FloorSecond(renew) < PLAIN_END
    ensures var (rows', answer) := Validate(rows, hash, check, renew, days);
            var lives := last.Some? && (last.value + Ttl(days).value) * NANOS >= check;
            && answer == (if lives then Accepted else Rejected)
            && Agrees(rows', hash, if lives then Some(FloorSecond(renew)) else None, Ttl(days).value, renew)
  {
  }

  lemma CleanupAgrees(rows: Table, hash: Hash, last: Option<int>, now: int, days: nat)
    requires Ttl(days).Some? && IsSafe(Ttl(days).value) && Agrees(rows, hash, last, Ttl(days).value, now)
    requires PLAIN_START <= FloorSecond(now) < PLAIN_END
    ensures Clean(rows, now, days).Some? && Agrees(Clean(rows, now, days).value, hash, last, Ttl(days).value, now)
  {
    if hash in rows {
      CleanedBySeconds(rows, hash, now, days);
      JudgedBySeconds(rows[hash].lastUsed.second, Ttl(days).value, now);
    }
  }

  lemma LaterAgrees(rows: Table, hash: Hash, last: Option<int>, ttl: nat, now: int, later: int)
    requires Agrees(rows, hash, last, ttl, now) && now <= later
    ensures Agrees(rows, hash, last, ttl, later)
  {
  }

  /** In every run the server answers as promised, whatever cleanups happen in between. */
  lemma {:induction false} AnswersArePromised(
    rows: Table, hash: Hash, last: Option<int>, events: seq<Event>, days: nat, now: int)
    requires Ttl(days).Some? && IsSafe(Ttl(days).value) && Agrees(rows, hash, last, Ttl(days).value, now)
    requires IsMonotone(events, now) && PLAIN_START <= FloorSecond(now)
    ensures Answers(rows, hash, events, days) == Promised(last, Ttl(days).value, events)
    decreases |events|
  {
    if events != [] {
      var rest := events[1..];
      LaterAgrees(rows, hash, last, Ttl(days).value, now, StartOf(events[0]));
      match events[0] {
        case Access(check, renew) =>
          AccessAgrees(rows, hash, last, check, renew, days);
          var lives := last.Some? && (last.value + Ttl(days).value) * NANOS >= check;
          AnswersArePromised(Validate(rows, hash, check, renew, days).0, hash,
                             if lives then Some(FloorSecond(renew)) else None, rest, days, renew);
        case Cleanup(t) =>
          CleanupAgrees(rows, hash, last, t, days);
          AnswersArePromised(Clean(rows, t, days).value, hash, last, rest, days, t);
      }
    }
  }

  /** The run of a new session. */
  lemma SlidingExpiry(rows: Table, hash: Hash, created: int, events: seq<Event>, days: nat)
    requires Ttl(days).Some? && IsSafe(Ttl(days).value) && hash !in rows
    requires PLAIN_START <= FloorSecond(created) < PLAIN_END && IsMonotone(events, created)
    ensures Answers(rows[hash := Row(Now(created), Now(created))], hash, events, days) ==
            Promised(Some(FloorSecond(created)), Ttl(days).value, events)
  {
    AnswersArePromised(
      rows[hash := Row(Now(created), Now(created))], hash, Some(FloorSecond(created)), events, days, created);
  }

  // ---------- the promise, closed ----------

  /** The accesses of a run, in order. */
  function Accesses(events: seq<Event>): (r: seq<Event>)
    ensures forall i :: 0 <= i < |r| ==> r[i].Access?
  {
    if events == [] then []
    else (if events[0].Access? then [events[0]] else []) + Accesses(events[1..])
  }

  /** The second of the renewal before access `k`; the creation comes before the first. */
  function RenewedAt(created: int, accesses: seq<Event>, k: nat): int
    requires k <= |accesses| && forall i :: 0 <= i < |accesses| ==> accesses[i].Access?
  {
    if k == 0 then created else FloorSecond(accesses[k - 1].renew)
  }

  /** Access `k` comes in time. */
  predicate InTime(created: int, accesses: seq<Event>, ttl: nat, k: nat)
    requires k < |accesses| && forall i :: 0 <= i < |accesses| ==> accesses[i].Access?
  {
    (RenewedAt(created, accesses, k) + ttl) * NANOS >= accesses[k].check
  }

  lemma {:induction false} CleanupsDoNotMatter(last: Option<int>, ttl: nat, events: seq<Event>)
    ensures Promised(last, ttl, events) == Promised(last, ttl, Accesses(events))
    decreases |events|
  {
    if events != [] {
      var rest := events[1..];
      match events[0] {
        case Cleanup(_) =>
          CleanupsDoNotMatter(last, ttl, rest);
          assert Accesses(events) == Accesses(rest);
        case Access(_, renew) =>
          CleanupsDoNotMatter(Some(FloorSecond(renew)), ttl, rest);
          CleanupsDoNotMatter(None, ttl, rest);
          assert Accesses(events)[1..] == Accesses(rest);
      }
    }
  }

  lemma {:induction false} DeadStaysDead(ttl: nat, accesses: seq<Event>, k: nat)
    requires k < |accesses| && forall i :: 0 <= i < |accesses| ==> accesses[i].Access?
    ensures |Promised(None, ttl, accesses)| == |accesses| && Promised(None, ttl, accesses)[k] == Rejected
    decreases |accesses|
  {
    if k > 0 {
      DeadStaysDead(ttl, accesses[1..], k - 1);
    } else if |accesses| > 1 {
      DeadStaysDead(ttl, accesses[1..], 0);
    }
  }

  /** The k-th access is accepted exactly when it and all accesses before it come in time. */
  lemma {:induction false} AcceptedExactly(created: int, ttl: nat, accesses: seq<Event>, k: nat)
    requires k < |accesses| && forall i :: 0 <= i < |accesses| ==> accesses[i].Access?
    ensures var answers := Promised(Some(created), ttl, accesses);
            && |answers| == |accesses|
            && (answers[k] == Accepted <==> forall j :: 0 <= j <= k ==> InTime(created, accesses, ttl, j))
            && answers[k] != Panicked
    decreases |accesses|
  {
    var rest := accesses[1..];
    var renewed := FloorSecond(accesses[0].renew);
    assert InTime(created, accesses, ttl, 0) <==> (created + ttl) * NANOS >= accesses[0].check;
    if rest != [] {
      var i := if k > 0 then k - 1 else 0;
      AcceptedExactly(renewed, ttl, rest, i);
      DeadStaysDead(ttl, rest, i);
      AllInTimeStep(created, accesses, ttl, k);
    }
    if k == 0 {
      assert (forall j :: 0 <= j <= k ==> InTime(created, accesses, ttl, j)) <==> InTime(created, accesses, ttl, 0);
    }
  }

  lemma AllInTimeStep(created: int, accesses: seq<Event>, ttl: nat, k: nat)
    requires k < |accesses| && forall i :: 0 <= i < |accesses| ==> accesses[i].Access?
    ensures k > 0 ==>
              ((forall j :: 0 <= j <= k ==> InTime(created, accesses, ttl, j)) <==>
               InTime(created, accesses, ttl, 0)
               && forall j :: 0 <= j <= k - 1 ==> InTime(FloorSecond(accesses[0].renew), accesses[1..], ttl, j))
  {
    var renewed, rest := FloorSecond(accesses[0].renew), accesses[1..];
    assert forall j :: 0 < j <= k ==> (InTime(created, accesses, ttl, j) <==> InTime(renewed, rest, ttl, j - 1));
    forall j | 0 <= j <= k - 1
      ensures InTime(renewed, rest, ttl, j) <==> InTime(created, accesses, ttl, j + 1)
    {
    }
  }

  /** A gap of at most the time to live less one second is always in time; a longer one than the time to live never
      is. */
  lemma GapsDecide(created: int, accesses: seq<Event>, ttl: nat, k: nat, before: int)
    requires k < |accesses| && forall i :: 0 <= i < |accesses| ==> accesses[i].Access?
    requires FloorSecond(before) == RenewedAt(created, accesses, k)
    ensures accesses[k].check - before <= (ttl - 1) * NANOS ==> InTime(created, accesses, ttl, k)
    ensures accesses[k].check - before > ttl * NANOS ==> !InTime(created, accesses, ttl, k)
  {
  }

  /** Main result: in every run of a new session, access `k` is accepted exactly when it and every access before it
      came within the time to live of the second of the renewal before it. */
  lemma ExpiryOverRuns(rows: Table, hash: Hash, created: int, events: seq<Event>, days: nat, k: nat)
    requires Ttl(days).Some? && IsSafe(Ttl(days).value) && hash !in rows
    requires PLAIN_START <= FloorSecond(created) < PLAIN_END && IsMonotone(events, created)
    requires k < |Accesses(events)|
    ensures var answers := Answers(rows[hash := Row(Now(created), Now(created))], hash, events, days);
            && |answers| == |Accesses(events)|
            && (answers[k] == Accepted <==>
                  forall j :: 0 <= j <= k ==> InTime(FloorSecond(created), Accesses(events), Ttl(days).value, j))
            && answers[k] != Panicked
  {
    SlidingExpiry(rows, hash, created, events, days);
    CleanupsDoNotMatter(Some(FloorSecond(created)), Ttl(days).value, events);
    AcceptedExactly(FloorSecond(created), Ttl(days).value, Accesses(events), k);
  }
}
