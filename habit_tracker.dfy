/** The habit tracker view: "done today", the monthly statistics shown under
    each habit, the list update after a toggle and the blank-name guard of the
    add form. `now` is the view's reading of the clock. */
module HabitTracker {
  import opened Wrappers
  import opened Http
  import opened Clock
  import opened Seqs
  import opened Text
  import opened HabitsRoute

  /** `isCompletedToday(dates)`: some entry has the same local midnight as now. */
  function IsCompletedToday(dates: seq<int>, now: int): (r: bool)
    ensures r <==> exists i :: 0 <= i < |dates| && Midnight(dates[i]) == Midnight(now)
  {
    FirstSameDay(dates, Midnight(now)) >= 0
  }

  /** A toggle sent with the current time flips "done today" (on a list with one
      entry per day, which every stored habit is). The browser and the server
      are modelled with the one local offset `LocalOffsetMs`; the flip rests on
      that: with two different time zones the two days need not agree. */
  lemma ToggleFlipsCompletedToday(dates: seq<int>, now: int)
    requires UniqueDays(dates)
    ensures IsCompletedToday(Toggled(dates, now), now) <==> !IsCompletedToday(dates, now)
  {
    ToggleFlipsDay(dates, now);
  }

  /** The entry falls in now's month of now's year. */
  predicate InMonthOf(d: int, now: int)
  {
    GetMonth(d) == GetMonth(now) && GetFullYear(d) == GetFullYear(now)
  }

  /** `completedDates.filter(same month and year).length`: the number of
      positions of the list whose entry lies in now's month. */
  function CompletedThisMonth(dates: seq<int>, now: int): (n: nat)
    ensures n <= |dates|
    ensures n == |set i: nat | i < |dates| && InMonthOf(dates[i], now)|
  {
    var p := (d: int) => InMonthOf(d, now);
    FilterLengthCountsMatches(dates, p);
    assert MatchingPositions(dates, p) == set i: nat | i < |dates| && InMonthOf(dates[i], now);
    |Filter(dates, p)|
  }

  /** `Math.ceil(n / 7)` for a positive day count. */
  function CeilDiv7(n: nat): nat
  {
    (n + 6) / 7
  }

  /** The month's target so far: the day of the month for a daily habit, the
      number of (started) weeks for a weekly one. */
  function Target(f: Frequency, now: int): (t: int)
    ensures 1 <= t <= 31
    ensures f == Daily ==> t == GetDate(now)
    ensures f == Weekly ==> 7 * (t - 1) < GetDate(now) <= 7 * t && t <= 5
  {
    if f == Weekly then CeilDiv7(GetDate(now)) else GetDate(now)
  }

  /** `Math.round(x)` on a rational: halves round up. */
  function Round(x: real): (r: int)
    ensures r as real <= x + 0.5 < r as real + 1.0
  {
    (x + 0.5).Floor
  }

  /** `Math.min(100, Math.round((completed / target) * 100))`. */
  function Percentage(completed: nat, target: int): (p: int)
    requires target >= 1
    ensures 0 <= p <= 100
    ensures completed >= target ==> p == 100
    ensures completed == 0 ==> p == 0
    ensures p == if completed >= target then 100 else Round(completed as real / target as real * 100.0)
  {
    var ratio := completed as real / target as real;
    assert ratio * target as real == completed as real;
    assert 0.0 <= ratio;
    assert completed >= target ==> ratio >= 1.0;
    assert completed < target ==> ratio < 1.0;
    var r := Round(ratio * 100.0);
    if r < 100 then r else 100
  }

  /** The statistics block of one habit. */
  datatype MonthlyStats = MonthlyStats(completed: nat, target: int, percentage: int)

  function Stats(h: Habit, now: int): (s: MonthlyStats)
    ensures s.completed <= |h.completedDates|
    ensures 1 <= s.target && (h.frequency == Weekly ==> s.target <= 5)
    ensures 0 <= s.percentage <= 100
    ensures s.completed >= s.target ==> s.percentage == 100
    ensures s.completed == CompletedThisMonth(h.completedDates, now)
    ensures s.target == Target(h.frequency, now)
    ensures s.percentage == Percentage(s.completed, s.target)
  {
    var c := CompletedThisMonth(h.completedDates, now);
    var t := Target(h.frequency, now);
    MonthlyStats(c, t, Percentage(c, t))
  }

  /** `prev.map(h => h._id === id ? updatedHabit : h)` after a toggle. */
  function ReplaceById(hs: seq<Habit>, id: DocId, updated: Habit): (r: seq<Habit>)
    ensures |r| == |hs|
    ensures forall i :: 0 <= i < |hs| && hs[i].id != id ==> r[i] == hs[i]
    ensures forall i :: 0 <= i < |hs| && hs[i].id == id ==> r[i] == updated
  {
    seq(|hs|, i requires 0 <= i < |hs| => if hs[i].id == id then updated else hs[i])
  }

  /** With distinct ids, the view's replacement is the store's own update of that
      one habit: the list the view shows after a toggle is the one the store holds. */
  lemma ReplaceMatchesStore(hs: seq<Habit>, k: nat, updated: Habit)
    requires k < |hs|
    requires forall i, j :: 0 <= i < j < |hs| ==> hs[i].id != hs[j].id
    ensures ReplaceById(hs, hs[k].id, updated) == hs[k := updated]
  {
    var r := ReplaceById(hs, hs[k].id, updated);
    forall i | 0 <= i < |hs|
      ensures r[i] == hs[k := updated][i]
    {
      if i < k {
        assert hs[i].id != hs[k].id;
      } else if i > k {
        assert hs[k].id != hs[i].id;
      }
    }
  }

  /** The add form: the name typed and the frequency selected. */
  datatype AddForm = AddForm(name: string, frequency: Frequency)

  /** The POST body `handleAddHabbit` sends, if any: none for a blank name, else
      the name exactly as typed (untrimmed) with the selected frequency. */
  function AddRequest(form: AddForm): (r: Option<(string, Frequency)>)
    ensures r.None? <==> Trim(form.name) == ""
    ensures r.Some? ==> r.value == (form.name, form.frequency)
  {
    TrimEmptyIffBlank(form.name);
    if IsBlank(form.name) then None else Some((form.name, form.frequency))
  }

  /** After a successful POST the name field is cleared (and the list refetched). */
  function AfterAddSucceeded(form: AddForm): (f: AddForm)
    ensures f.name == "" && f.frequency == form.frequency
  {
    form.(name := "")
  }
}
