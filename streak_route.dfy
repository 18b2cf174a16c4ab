/** The streak handler (`/api/streak`): GET repairs a missing or unparsable
    streak start and reports whole days and hours since it; POST records a reset.
    The users collection is an in-memory table keyed by user id. */
module StreakRoute {
  import opened Wrappers
  import opened Http
  import opened Clock

  /** The streak fields of a user document: `currentStreakStart` is None when
      the field is missing (falsy), and `history` lists the reset moments in the
      order they were recorded. */
  datatype StreakUser = StreakUser(currentStreakStart: Option<DateValue>, history: seq<int>)

  /** The GET body. */
  datatype StreakStatus = StreakStatus(streakDays: nat, streakHours: nat, startDate: int, history: seq<int>)

  /** `Math.abs(a - b)`. */
  function AbsDiff(a: int, b: int): (d: nat)
    ensures d == a - b || d == b - a
  {
    if a >= b then a - b else b - a
  }

  /** Whole days and whole hours in the distance between start and now,
      whichever is later. */
  function StreakFigures(start: int, now: int): (r: (nat, nat))
    ensures r.0 * DayMs <= AbsDiff(now, start) < (r.0 + 1) * DayMs
    ensures r.1 * HourMs <= AbsDiff(now, start) < (r.1 + 1) * HourMs
  {
    var diff := AbsDiff(now, start);
    (diff / DayMs, diff / HourMs)
  }

  /** The hour count lies within the day count's 24 hours. */
  lemma HoursWithinDays(start: int, now: int)
    ensures var (days, hours) := StreakFigures(start, now);
      24 * days <= hours < 24 * days + 24
  {
  }

  /** A start in the future counts the same as one equally far in the past. */
  lemma FiguresSymmetric(start: int, now: int)
    ensures StreakFigures(start, now) == StreakFigures(now, start)
  {
  }

  /** The start the handler ends up with: the stored one if it parses, else now. */
  function RepairedStart(stored: Option<DateValue>, now: int): (s: int)
    ensures stored.Some? && stored.value.At? ==> s == stored.value.ms
    ensures stored.None? || stored.value.InvalidDate? ==> s == now
  {
    match stored
    case Some(At(t)) => t
    case _ => now
  }

  /** The figures and the document GET returns for this user at `now`. */
  function StatusOf(u: StreakUser, now: int): StreakStatus
  {
    var start := RepairedStart(u.currentStreakStart, now);
    var (days, hours) := StreakFigures(start, now);
    StreakStatus(days, hours, start, u.history)
  }

  /** After a repair of a missing or unparsable start, the streak is zero days
      and zero hours long and starts now. */
  lemma RepairGivesZero(u: StreakUser, now: int)
    requires u.currentStreakStart.None? || u.currentStreakStart.value.InvalidDate?
    ensures StatusOf(u, now) == StreakStatus(0, 0, now, u.history)
  {
  }

  /** The document after POST: `history.push(now)` and the start set to now. */
  function AfterReset(u: StreakUser, now: int): (v: StreakUser)
    ensures |v.history| == |u.history| + 1
    ensures v.history[..|u.history|] == u.history && v.history[|u.history|] == now
    ensures v.currentStreakStart == Some(At(now))
  {
    StreakUser(Some(At(now)), u.history + [now])
  }

  /** Right after a reset the streak is zero days and zero hours, it starts at
      the reset moment, and the history ends with that moment. */
  lemma ResetThenStatus(u: StreakUser, now: int)
    ensures StatusOf(AfterReset(u, now), now) == StreakStatus(0, 0, now, u.history + [now])
  {
  }

  /** Each reset adds exactly one history entry: n resets add n. */
  function ResetsAt(u: StreakUser, moments: seq<int>): (v: StreakUser)
    ensures |v.history| == |u.history| + |moments|
    ensures v.history == u.history + moments
    ensures moments != [] ==> v.currentStreakStart == Some(At(moments[|moments| - 1]))
    decreases |moments|
  {
    if moments == [] then u
    else
      var v := ResetsAt(AfterReset(u, moments[0]), moments[1..]);
      assert u.history + [moments[0]] + moments[1..] == u.history + moments;
      v
  }

  class UserStore {
    var users: map<UserId, StreakUser>

    constructor (initial: map<UserId, StreakUser>)
      ensures users == initial
    {
      users := initial;
    }

    /** GET. No session: 401 and nothing read. Unknown user: 404 and nothing
        changed. Otherwise a missing start is set to now and saved, an unparsable
        one likewise, and the figures are taken from the (possibly repaired) start. */
    method Get(session: Session, now: int) returns (r: Response<StreakStatus>)
      modifies this
      ensures session.None? ==> r == Unauthorized() && users == old(users)
      ensures session.Some? && session.value !in old(users) ==>
        r == Fail(404, "User not found") && users == old(users)
      ensures session.Some? && session.value in old(users) ==>
        var u := old(users)[session.value];
        var start := RepairedStart(u.currentStreakStart, now);
        && users == old(users)[session.value := u.(currentStreakStart := Some(At(start)))]
        && r == Ok(StatusOf(u, now))
    {
      if session.None? {
        return Unauthorized();
      }
      var id := session.value;
      if id !in users {
        return Fail(404, "User not found");
      }
      var u := users[id];
      if u.currentStreakStart.None? {
        u := u.(currentStreakStart := Some(At(now)));
        users := users[id := u];
      }
      if u.currentStreakStart.value.InvalidDate? {
        u := u.(currentStreakStart := Some(At(now)));
        users := users[id := u];
      }
      var validStart := u.currentStreakStart.value.ms;
      var diff := AbsDiff(now, validStart);
      var days := diff / DayMs;
      var hours := diff / HourMs;
      return Ok(StreakStatus(days, hours, validStart, u.history));
    }

    /** POST. No session: 401. Unknown user: 404 and nothing changed. Otherwise
        the reset moment is appended to the history and the streak restarts now;
        no other user changes. */
    method Reset(session: Session, now: int) returns (r: Response<Ack>)
      modifies this
      ensures session.None? ==> r == Unauthorized() && users == old(users)
      ensures session.Some? && session.value !in old(users) ==>
        r == Fail(404, "User not found") && users == old(users)
      ensures session.Some? && session.value in old(users) ==>
        && users == old(users)[session.value := AfterReset(old(users)[session.value], now)]
        && r == Ok(Ack("Streak reset successfully"))
    {
      if session.None? {
        return Unauthorized();
      }
      var id := session.value;
      if id !in users {
        return Fail(404, "User not found");
      }
      var u := users[id];
      u := u.(history := u.history + [now]);
      u := u.(currentStreakStart := Some(At(now)));
      users := users[id := u];
      return Ok(Ack("Streak reset successfully"));
    }
  }
}
