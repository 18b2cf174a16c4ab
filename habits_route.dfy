/** The habits handler (`/api/habits`): list, create, and toggle one calendar
    day in a habit's completion list, over an in-memory table of habit documents. */
module HabitsRoute {
  import opened Wrappers
  import opened Http
  import opened Clock
  import opened Seqs

  /** The schema's frequency: one of two values, `daily` when the request leaves it out. */
  datatype Frequency = Daily | Weekly

  /** A stored habit document; `completedDates` holds timestamps, one per day done. */
  datatype Habit = Habit(id: DocId, userId: UserId, name: string, frequency: Frequency,
                         completedDates: seq<int>, createdAt: int)

  // ---------------------------------------------------------------------------
  // Day buckets of a completion list

  /** Some entry of `dates` lies in the day that starts at `day`. */
  predicate HasDay(dates: seq<int>, day: int)
  {
    exists j :: 0 <= j < |dates| && Midnight(dates[j]) == day
  }

  /** The set of day buckets the list covers. */
  function DaySet(dates: seq<int>): set<int>
  {
    set j | 0 <= j < |dates| :: Midnight(dates[j])
  }

  /** No two entries share a day bucket: the invariant the toggle keeps. */
  predicate UniqueDays(dates: seq<int>)
  {
    forall i, j :: 0 <= i < j < |dates| ==> Midnight(dates[i]) != Midnight(dates[j])
  }

  /** The entry's midnight is `day`. */
  function OnDay(day: int): int -> bool
  {
    (d: int) => Midnight(d) == day
  }

  /** `findIndex` of the first entry whose midnight is `day`, or -1. */
  function FirstSameDay(dates: seq<int>, day: int): (i: int)
    ensures -1 <= i < |dates|
    ensures 0 <= i ==> Midnight(dates[i]) == day
    ensures forall j :: 0 <= j < |dates| && (i < 0 || j < i) ==> Midnight(dates[j]) != day
  {
    var k := FindIndex(dates, OnDay(day));
    assert 0 <= k ==> OnDay(day)(dates[k]);
    assert forall j :: 0 <= j < |dates| && (k < 0 || j < k) ==> !OnDay(day)(dates[j]);
    k
  }

  /** The completion list after toggling the day of `date`: the first entry of
      that day is spliced out, or else that day's midnight is pushed. */
  function Toggled(dates: seq<int>, date: int): seq<int>
  {
    var day := Midnight(date);
    var i := FirstSameDay(dates, day);
    if i >= 0 then dates[..i] + dates[i + 1..] else dates + [day]
  }

  /** `findIndex` over the completion list, written as the loop it performs. */
  method FindSameDay(dates: seq<int>, day: int) returns (i: int)
    ensures i == FirstSameDay(dates, day)
  {
    var k := 0;
    while k < |dates|
      invariant 0 <= k <= |dates|
      invariant forall j :: 0 <= j < k ==> Midnight(dates[j]) != day
      invariant FirstSameDay(dates, day) == -1 || k <= FirstSameDay(dates, day)
    {
      if Midnight(dates[k]) == day {
        return k;
      }
      k := k + 1;
    }
    return -1;
  }

  /** Toggling ON: when no entry has the day, exactly its midnight is appended
      and every earlier entry stays where it was. */
  lemma ToggleOnAppends(dates: seq<int>, date: int)
    requires !HasDay(dates, Midnight(date))
    ensures Toggled(dates, date) == dates + [Midnight(date)]
  {
  }

  /** Toggling OFF: when entry i is the first one of the day, exactly that entry
      is removed and the others keep their order. */
  lemma ToggleOffRemovesFirst(dates: seq<int>, date: int, i: nat)
    requires i < |dates| && Midnight(dates[i]) == Midnight(date)
    requires forall j :: 0 <= j < i ==> Midnight(dates[j]) != Midnight(date)
    ensures Toggled(dates, date) == dates[..i] + dates[i + 1..]
  {
    var k := FirstSameDay(dates, Midnight(date));
    assert !(k < 0 || i < k);
    assert !(k < i);
  }

  /** Every toggle changes the length by exactly one: down when the day was there. */
  lemma ToggleLength(dates: seq<int>, date: int)
    ensures |Toggled(dates, date)| == if HasDay(dates, Midnight(date)) then |dates| - 1 else |dates| + 1
  {
    var i := FirstSameDay(dates, Midnight(date));
    if i >= 0 {
      assert Midnight(dates[i]) == Midnight(date);
    }
  }

  /** The toggle keeps "at most one entry per day". */
  lemma ToggleKeepsUniqueDays(dates: seq<int>, date: int)
    requires UniqueDays(dates)
    ensures UniqueDays(Toggled(dates, date))
  {
    var day := Midnight(date);
    var i := FirstSameDay(dates, day);
    var r := Toggled(dates, date);
    if i >= 0 {
      forall a, b | 0 <= a < b < |r|
        ensures Midnight(r[a]) != Midnight(r[b])
      {
        var a' := if a < i then a else a + 1;
        var b' := if b < i then b else b + 1;
        assert r[a] == dates[a'] && r[b] == dates[b'];
      }
    } else {
      MidnightIdempotent(date);
    }
  }

  /** On a list with one entry per day the toggle flips exactly the toggled day
      in the set of covered days. */
  lemma ToggleDaySet(dates: seq<int>, date: int)
    requires UniqueDays(dates)
    ensures var day := Midnight(date);
      DaySet(Toggled(dates, date)) == if day in DaySet(dates) then DaySet(dates) - {day} else DaySet(dates) + {day}
  {
    var day := Midnight(date);
    var i := FirstSameDay(dates, day);
    MidnightIdempotent(date);
    if i >= 0 {
      RemoveDaySet(dates, i, Toggled(dates, date));
    } else {
      assert day !in DaySet(dates);
      AppendDaySet(dates, day, Toggled(dates, date));
    }
  }

  /** Splicing out the one entry of its day removes exactly that day. */
  lemma RemoveDaySet(dates: seq<int>, i: nat, r: seq<int>)
    requires UniqueDays(dates) && i < |dates|
    requires r == dates[..i] + dates[i + 1..]
    ensures DaySet(r) == DaySet(dates) - {Midnight(dates[i])}
  {
    var day := Midnight(dates[i]);
    forall d | d in DaySet(r)
      ensures d in DaySet(dates) && d != day
    {
      var a :| 0 <= a < |r| && Midnight(r[a]) == d;
      var a' := if a < i then a else a + 1;
      assert r[a] == dates[a'];
    }
    forall d | d in DaySet(dates) && d != day
      ensures d in DaySet(r)
    {
      var a :| 0 <= a < |dates| && Midnight(dates[a]) == d;
      assert a != i;
      var a' := if a < i then a else a - 1;
      assert r[a'] == dates[a];
    }
  }

  /** Pushing a midnight adds exactly that day. */
  lemma AppendDaySet(dates: seq<int>, day: int, r: seq<int>)
    requires Midnight(day) == day
    requires r == dates + [day]
    ensures DaySet(r) == DaySet(dates) + {day}
  {
    forall d | d in DaySet(r)
      ensures d in DaySet(dates) + {day}
    {
      var a :| 0 <= a < |r| && Midnight(r[a]) == d;
      if a < |dates| {
        assert r[a] == dates[a];
      }
    }
    forall d | d in DaySet(dates) + {day}
      ensures d in DaySet(r)
    {
      if d == day {
        assert r[|dates|] == day;
      } else {
        var a :| 0 <= a < |dates| && Midnight(dates[a]) == d;
        assert r[a] == dates[a];
      }
    }
  }

  /** After a toggle the day is covered exactly when it was not before. */
  lemma ToggleFlipsDay(dates: seq<int>, date: int)
    requires UniqueDays(dates)
    ensures HasDay(Toggled(dates, date), Midnight(date)) <==> !HasDay(dates, Midnight(date))
  {
    ToggleDaySet(dates, date);
    HasDayInDaySet(dates, Midnight(date));
    HasDayInDaySet(Toggled(dates, date), Midnight(date));
  }

  /** `HasDay` is membership in `DaySet`. */
  lemma HasDayInDaySet(dates: seq<int>, day: int)
    ensures HasDay(dates, day) <==> day in DaySet(dates)
  {
    if day in DaySet(dates) {
      var a :| 0 <= a < |dates| && Midnight(dates[a]) == day;
    }
  }

  /** Toggling an absent day on and then off again, with any two timestamps of
      that day, gives back the original list exactly. */
  lemma ToggleTwiceRestores(dates: seq<int>, date: int, again: int)
    requires !HasDay(dates, Midnight(date))
    requires Midnight(again) == Midnight(date)
    ensures Toggled(Toggled(dates, date), again) == dates
  {
    var day := Midnight(date);
    ToggleOnAppends(dates, date);
    var on := dates + [day];
    MidnightIdempotent(date);
    forall j | 0 <= j < |dates|
      ensures Midnight(on[j]) != day
    {
      assert on[j] == dates[j];
    }
    ToggleOffRemovesFirst(on, again, |dates|);
    assert on[..|dates|] + on[|dates| + 1..] == dates;
  }

  /** On a list with one entry per day, two toggles of the same day leave the
      set of covered days as it was. */
  lemma ToggleTwiceSameDays(dates: seq<int>, date: int, again: int)
    requires UniqueDays(dates)
    requires Midnight(again) == Midnight(date)
    ensures DaySet(Toggled(Toggled(dates, date), again)) == DaySet(dates)
  {
    ToggleDaySet(dates, date);
    ToggleKeepsUniqueDays(dates, date);
    ToggleDaySet(Toggled(dates, date), again);
  }

  // ---------------------------------------------------------------------------
  // The table and the handlers

  /** `h => h._id == id`. */
  function HasId(id: DocId): Habit -> bool
  {
    (h: Habit) => h.id == id
  }

  /** Position of the document with this id, or -1 (`findById`). */
  function IndexOfId(hs: seq<Habit>, id: DocId): (k: int)
    ensures -1 <= k < |hs|
    ensures 0 <= k ==> hs[k].id == id
    ensures k < 0 ==> forall j :: 0 <= j < |hs| ==> hs[j].id != id
  {
    var k := FindIndex(hs, HasId(id));
    assert 0 <= k ==> HasId(id)(hs[k]);
    assert k < 0 ==> forall j :: 0 <= j < |hs| ==> !HasId(id)(hs[j]);
    k
  }

  /** Sort key for `.sort({ createdAt: -1 })`. */
  function NewestFirstKey(h: Habit): int
  {
    -h.createdAt
  }

  /** The habits a user owns, in table order. */
  function OwnedBy(hs: seq<Habit>, user: UserId): (r: seq<Habit>)
    ensures forall i :: 0 <= i < |r| ==> r[i].userId == user && r[i] in hs
    ensures forall i :: 0 <= i < |hs| && hs[i].userId == user ==> hs[i] in r
  {
    Filter(hs, (h: Habit) => h.userId == user)
  }

  /** The schema's enum and default for `frequency`: absent means daily, an unknown
      value fails validation. */
  function ParseFrequency(f: Option<string>): (r: Option<Frequency>)
    ensures f.None? ==> r == Some(Daily)
    ensures r == Some(Weekly) <==> f == Some("weekly")
    ensures r.None? <==> f.Some? && f.value != "daily" && f.value != "weekly"
  {
    match f
    case None => Some(Daily)
    case Some(s) => if s == "daily" then Some(Daily) else if s == "weekly" then Some(Weekly) else None
  }

  class HabitStore {
    var habits: seq<Habit>
    var nextId: nat

    /** Ids are distinct and below the next one handed out; every completion
        list has at most one entry per day. */
    ghost predicate Valid()
      reads this
    {
      && (forall i :: 0 <= i < |habits| ==> habits[i].id < nextId)
      && (forall i, j :: 0 <= i < j < |habits| ==> habits[i].id != habits[j].id)
      && (forall i :: 0 <= i < |habits| ==> UniqueDays(habits[i].completedDates))
    }

    constructor ()
      ensures Valid() && habits == [] && nextId == 0
    {
      habits := [];
      nextId := 0;
    }

    /** GET: without a session, 401; otherwise exactly the caller's habits,
        newest created first. */
    method List(session: Session) returns (r: Response<seq<Habit>>)
      ensures session.None? <==> r == Unauthorized()
      ensures session.Some? ==> r.Ok?
      ensures r.Ok? ==> session.Some? && SortedBy(r.body, NewestFirstKey)
      ensures r.Ok? ==> multiset(r.body) == multiset(OwnedBy(habits, session.value))
      ensures r.Ok? ==> forall i :: 0 <= i < |r.body| ==> r.body[i].userId == session.value && r.body[i] in habits
    {
      if session.None? {
        return Unauthorized();
      }
      var mine := OwnedBy(habits, session.value);
      var sorted := SortBy(mine, NewestFirstKey);
      forall i | 0 <= i < |sorted|
        ensures sorted[i].userId == session.value && sorted[i] in habits
      {
        assert sorted[i] in multiset(mine);
      }
      return Ok(sorted);
    }

    /** POST: store a new habit with the given name and frequency under the
        session's user and an empty completion list. A missing or empty name, or
        an unknown frequency, fails the schema and the handler answers 500. */
    method Create(session: Session, name: Option<string>, frequency: Option<string>, now: int)
      returns (r: Response<Habit>)
      requires Valid()
      modifies this
      ensures Valid()
      ensures session.None? ==> r == Unauthorized()
      ensures r.Fail? ==> habits == old(habits) && nextId == old(nextId)
      ensures session.Some? && (name.None? || name == Some("") || ParseFrequency(frequency).None?) ==> r.Status() == 500
      ensures session.Some? && name.Some? && name.value != "" && ParseFrequency(frequency).Some? ==>
        && r == Ok(Habit(old(nextId), session.value, name.value, ParseFrequency(frequency).value, [], now))
        && habits == old(habits) + [r.body]
        && nextId == old(nextId) + 1
    {
      if session.None? {
        return Unauthorized();
      }
      var freq := ParseFrequency(frequency);
      if name.None? || name.value == "" || freq.None? {
        return UncaughtError();
      }
      var h := Habit(nextId, session.value, name.value, freq.value, [], now);
      habits := habits + [h];
      nextId := nextId + 1;
      return Ok(h);
    }

    /** PUT: toggle the day of `date` in the habit with this id. No session
        gives 401 before any lookup; an unknown id gives 404; an unparsable date
        cannot be saved (500). Nothing changes on any of these. The lookup is by
        id alone, whoever owns the habit. */
    method Toggle(session: Session, id: DocId, date: DateValue) returns (r: Response<Habit>)
      requires Valid()
      modifies this
      ensures Valid() && nextId == old(nextId)
      ensures session.None? ==> r == Unauthorized()
      ensures session.Some? && IndexOfId(old(habits), id) < 0 ==> r == Fail(404, "Habbit not found")
      ensures session.Some? && IndexOfId(old(habits), id) >= 0 && date.InvalidDate? ==> r.Status() == 500
      ensures r.Fail? ==> habits == old(habits)
      ensures r.Ok? ==> session.Some? && date.At? && IndexOfId(old(habits), id) >= 0
      ensures session.Some? && date.At? && IndexOfId(old(habits), id) >= 0 ==>
        var k := IndexOfId(old(habits), id);
        && r == Ok(old(habits)[k].(completedDates := Toggled(old(habits)[k].completedDates, date.ms)))
        && habits == old(habits)[k := r.body]
    {
      if session.None? {
        return Unauthorized();
      }
      var k := IndexOfId(habits, id);
      if k < 0 {
        return Fail(404, "Habbit not found");
      }
      if date.InvalidDate? {
        return UncaughtError();
      }
      var target := Midnight(date.ms);
      var dates := habits[k].completedDates;
      var existing := FindSameDay(dates, target);
      if existing > -1 {
        dates := dates[..existing] + dates[existing + 1..];
      } else {
        dates := dates + [target];
      }
      ToggleKeepsUniqueDays(habits[k].completedDates, date.ms);
      var updated := habits[k].(completedDates := dates);
      habits := habits[k := updated];
      return Ok(updated);
    }
  }
}
