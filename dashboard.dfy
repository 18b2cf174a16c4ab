/** The dashboard page: the milestone shown as the next target, the progress
    bar towards it, the live clock that breaks the elapsed time since the streak
    start into days, hours, minutes and seconds, the cached start date, and the
    history table shown newest first. */
module Dashboard {
  import opened Wrappers
  import opened Clock
  import opened Seqs
  import StreakRoute

  /** A JavaScript number as the page meets it here: a whole number or NaN (the
      day count of an unparsable start date). */
  datatype Num = NaN | Int(v: int)

  /** The targets `getNextMilestone` picks from, in days. */
  const Milestones: seq<int> := [1, 3, 7, 14, 30, 60, 90, 180, 365]

  /** The earlier marks `getProgress` measures from, before `.reverse()`. */
  const PrevMarks: seq<int> := [0, 1, 3, 7, 14, 30, 60, 90, 180, 365]

  /** `m => m > days`. */
  function Above(d: int): int -> bool
  {
    (m: int) => m > d
  }

  /** `m => m <= days`. */
  function AtMost(d: int): int -> bool
  {
    (m: int) => m <= d
  }

  /** `milestones.find(m => m > days) || days + 1`: the smallest milestone past
      the day count, or one more day once every milestone is behind. */
  function NextMilestone(d: int): (r: int)
    ensures r > d
    ensures d < 365 ==> r in Milestones && forall m :: m in Milestones && m > d ==> r <= m
    ensures d >= 365 ==> r == d + 1
  {
    NextMilestoneFound(d);
    var found := Find(Milestones, Above(d));
    if found.Some? then found.value else d + 1
  }

  /** The milestones strictly increase up to 365. */
  lemma MilestonesAscending()
    ensures forall i, j :: 0 <= i < j < |Milestones| ==> Milestones[i] < Milestones[j]
    ensures forall i :: 0 <= i < |Milestones| ==> Milestones[i] <= 365
  {
  }

  /** In a strictly ascending sequence the first element past d, if any, is
      the smallest such element. */
  lemma FirstAboveIsSmallest(s: seq<int>, d: int)
    requires forall i, j :: 0 <= i < j < |s| ==> s[i] < s[j]
    ensures Find(s, Above(d)).Some? ==>
      var r := Find(s, Above(d)).value;
      r in s && r > d && forall m :: m in s && m > d ==> r <= m
  {
    if Find(s, Above(d)).None? {
      return;
    }
    var r := Find(s, Above(d)).value;
    var i :| 0 <= i < |s| && s[i] == r && Above(d)(s[i]) && forall j :: 0 <= j < i ==> !Above(d)(s[j]);
    forall m | m in s && m > d
      ensures r <= m
    {
      var j :| 0 <= j < |s| && s[j] == m;
      assert Above(d)(s[j]);
      assert j >= i;
      if j > i {
        assert s[i] < s[j];
      }
    }
  }

  /** What the search over the milestones finds: the smallest one past a count
      below 365, and nothing from 365 on. */
  lemma NextMilestoneFound(d: int)
    ensures d < 365 ==> Find(Milestones, Above(d)).Some?
    ensures d >= 365 ==> Find(Milestones, Above(d)).None?
    ensures d < 365 ==>
      var r := Find(Milestones, Above(d)).value;
      r in Milestones && r > d && forall m :: m in Milestones && m > d ==> r <= m
  {
    if d < 365 {
      FindSomeWhenMatch(Milestones, Above(d), 8);
    }
    MilestonesAscending();
    FirstAboveIsSmallest(Milestones, d);
  }

  /** The next milestone as displayed: NaN stays NaN (`NaN + 1`). */
  function NextMilestoneOf(days: Num): (r: Num)
    ensures days.NaN? <==> r.NaN?
    ensures days.Int? ==> r.v > days.v
  {
    match days
    case NaN => NaN
    case Int(d) => Int(NextMilestone(d))
  }

  /** The marks in the order `getProgress` searches them. */
  const MarksNewestFirst: seq<int> := [365, 180, 90, 60, 30, 14, 7, 3, 1, 0]

  /** That order is `.reverse()` of the marks. */
  lemma MarksDescending()
    ensures MarksNewestFirst == Reverse(PrevMarks)
  {
    ReverseByIndex(PrevMarks, MarksNewestFirst);
  }

  /** In a strictly descending sequence the first element not past d, if any,
      is the largest such element. */
  lemma FirstMatchIsLargest(s: seq<int>, d: int)
    requires forall i, j :: 0 <= i < j < |s| ==> s[i] > s[j]
    ensures Find(s, AtMost(d)).Some? ==>
      var r := Find(s, AtMost(d)).value;
      r in s && r <= d && forall m :: m in s && m <= d ==> m <= r
  {
    if Find(s, AtMost(d)).None? {
      return;
    }
    var r := Find(s, AtMost(d)).value;
    var i :| 0 <= i < |s| && s[i] == r && AtMost(d)(s[i]) && forall j :: 0 <= j < i ==> !AtMost(d)(s[j]);
    forall m | m in s && m <= d
      ensures m <= r
    {
      var j :| 0 <= j < |s| && s[j] == m;
      assert AtMost(d)(s[j]);
      assert j >= i;
      if j > i {
        assert s[i] > s[j];
      }
    }
  }

  /** The marks newest first strictly decrease. */
  lemma NewestFirstDescending()
    ensures forall i, j :: 0 <= i < j < |MarksNewestFirst| ==> MarksNewestFirst[i] > MarksNewestFirst[j]
  {
  }

  /** Both orders hold the same marks. */
  lemma NewestFirstSameMarks()
    ensures forall m :: m in PrevMarks <==> m in MarksNewestFirst
  {
  }

  /** What the search over the marks newest first finds: the largest mark not
      past a non-negative count, and nothing for a negative one. */
  lemma PrevMarkFound(d: int)
    ensures d >= 0 ==> Find(MarksNewestFirst, AtMost(d)).Some?
    ensures d < 0 ==> Find(MarksNewestFirst, AtMost(d)).None?
    ensures d >= 0 ==>
      var r := Find(MarksNewestFirst, AtMost(d)).value;
      r in PrevMarks && r <= d && forall m :: m in PrevMarks && m <= d ==> m <= r
  {
    if d >= 0 {
      assert Find(MarksNewestFirst, AtMost(d)).Some? by {
        assert AtMost(d)(MarksNewestFirst[9]);
        FindSomeWhenMatch(MarksNewestFirst, AtMost(d), 9);
      }
      var r := Find(MarksNewestFirst, AtMost(d)).value;
      assert r in MarksNewestFirst && r <= d && forall m :: m in MarksNewestFirst && m <= d ==> m <= r by {
        NewestFirstDescending();
        FirstMatchIsLargest(MarksNewestFirst, d);
      }
      NewestFirstSameMarks();
    } else {
      NoMarkBelow(d);
    }
  }

  /** A negative count is below every mark. */
  lemma NoMarkBelow(d: int)
    requires d < 0
    ensures forall i :: 0 <= i < |MarksNewestFirst| ==> !AtMost(d)(MarksNewestFirst[i])
  {
    forall i | 0 <= i < |MarksNewestFirst|
      ensures MarksNewestFirst[i] >= 0
    {
    }
  }

  /** `[...marks].reverse().find(m => m <= days) || 0`: the largest mark not
      past the day count, and 0 when there is none (a negative count). A found
      0 is falsy too, and `|| 0` turns it into the same 0. */
  function PrevMark(d: int): (r: int)
    ensures d >= 0 ==> r in PrevMarks && r <= d && forall m :: m in PrevMarks && m <= d ==> m <= r
    ensures d < 0 ==> r == 0
  {
    MarksDescending();
    var found := Find(Reverse(PrevMarks), AtMost(d));
    PrevMarkFound(d);
    if found.Some? && found.value != 0 then found.value else 0
  }

  /** A percentage held as the exact fraction `num / den` of 100 parts. */
  datatype Percent = Percent(num: int, den: int)
  {
    /** Between an empty bar and a full one. */
    predicate InRange()
    {
      den > 0 && 0 <= num <= 100 * den
    }

    predicate IsEmpty()
    {
      num == 0
    }
  }

  /** `getProgress(days)`: the share of the way from the previous mark to the
      next milestone, in percent, clamped to [0, 100]; 0 for NaN. */
  function Progress(days: Num): Percent
  {
    match days
    case NaN => Percent(0, 1)
    case Int(d) =>
      var next := NextMilestone(d);
      var prev := PrevMark(d);
      if next == prev then Percent(100, 1) else ClampedPercent(d - prev, next - prev)
  }

  /** The early return for `next === prev` is never taken: the next milestone
      always lies strictly beyond the previous mark. */
  lemma {:induction false} NextBeyondPrev(d: int)
    ensures NextMilestone(d) > PrevMark(d)
  {
    if d < 0 {
      assert PrevMark(d) == 0;
      assert NextMilestone(d) > d;
      assert Milestones[0] > d;
      assert NextMilestone(d) >= 1;
    }
  }

  /** The clamped share `min(100, max(0, part / span * 100))`: nothing for a
      part at or below zero, everything for a part that covers the span, and
      otherwise exactly `100 * part / span`. */
  function ClampedPercent(part: int, span: int): (p: Percent)
    requires span > 0
    ensures p.InRange()
    ensures part <= 0 ==> p.IsEmpty()
    ensures part >= span ==> p.num == 100 * p.den
    ensures 0 <= part < span ==> p == Percent(100 * part, span) && p.num < 100 * p.den
  {
    if part < 0 then Percent(0, 1)
    else if part >= span then Percent(100, 1)
    else Percent(100 * part, span)
  }

  /** For a non-negative day count the bar shows the share of the current
      segment, from the previous mark to the next milestone, already covered;
      it is never full. */
  lemma ProgressWithinSegment(d: int)
    requires d >= 0
    ensures var next, prev := NextMilestone(d), PrevMark(d);
      && Progress(Int(d)) == Percent(100 * (d - prev), next - prev)
      && Progress(Int(d)).InRange() && Progress(Int(d)).num < 100 * Progress(Int(d)).den
  {
    NextBeyondPrev(d);
    ProgressIsClamped(d);
  }

  /** For a count the early return is never taken, so the bar is the clamped
      share of the segment. */
  lemma ProgressIsClamped(d: int)
    ensures NextMilestone(d) > PrevMark(d)
    ensures Progress(Int(d)) == ClampedPercent(d - PrevMark(d), NextMilestone(d) - PrevMark(d))
  {
    NextBeyondPrev(d);
  }

  /** NaN and negative day counts show an empty bar, and no count shows more
      than a full one. */
  lemma ProgressBounds(days: Num)
    ensures Progress(days).InRange()
    ensures days.NaN? || days.v < 0 ==> Progress(days).IsEmpty()
  {
    if days.Int? {
      NextBeyondPrev(days.v);
      assert days == Int(days.v);
    }
  }

  /** On the day a mark is reached the bar starts again from empty. */
  lemma ProgressRestartsAtMarks(d: int)
    requires d in PrevMarks
    ensures Progress(Int(d)).IsEmpty()
  {
    PrevMarkAtMark(d);
    NextBeyondPrev(d);
  }

  /** On a mark, the previous mark is that mark itself. */
  lemma PrevMarkAtMark(d: int)
    requires d in PrevMarks
    ensures PrevMark(d) == d
  {
    MarksNonNegative();
    var r := PrevMark(d);
    assert d <= r;
  }

  /** Every mark is a day count, never negative. */
  lemma MarksNonNegative()
    ensures forall m :: m in PrevMarks ==> m >= 0
  {
  }

  /** The live clock's reading: whole days, and the hours, minutes and seconds
      within the current day, or NaN in every field. */
  datatype Elapsed = Elapsed(days: int, hours: int, minutes: int, seconds: int) | ElapsedNaN

  const Zero: Elapsed := Elapsed(0, 0, 0, 0)

  /** The milliseconds a reading stands for. */
  function TotalMs(e: Elapsed): int
    requires e.Elapsed?
  {
    e.days * DayMs + e.hours * HourMs + e.minutes * MinuteMs + e.seconds * SecondMs
  }

  /** A multiple of a positive k strictly between -k and k is zero. */
  lemma ZeroMultiple(d: int, k: int)
    requires k > 0 && -k < d * k < k
    ensures d == 0
  {
  }

  /** Quotient and remainder are determined by the equation they satisfy. */
  lemma DivModUnique(x: int, k: int, q: int, r: int)
    requires k > 0 && 0 <= r < k && x == q * k + r
    ensures x / k == q && x % k == r
  {
    var q', r' := x / k, x % k;
    assert (q - q') * k == r' - r;
    ZeroMultiple(q - q', k);
  }

  /** The remainder by a multiple of `a` keeps the remainder by `a`. */
  lemma ModOfMultiple(x: int, a: int, b: int)
    requires a > 0 && b > 0
    ensures x % (a * b) % a == x % a
  {
    var q, r := x / (a * b), x % (a * b);
    assert x == q * (a * b) + r;
    assert r == (r / a) * a + r % a;
    assert x == (q * b + r / a) * a + r % a;
    DivModUnique(x, a, q * b + r / a, r % a);
  }

  /** The object `calculateTime` builds from a non-negative difference:
      `Math.floor(diff / day)`, `Math.floor((diff % day) / hour)`,
      `Math.floor((diff % hour) / minute)`, `Math.floor((diff % minute) / 1000)`.
      The fields are bounded like a clock's, and together they stand for the
      difference rounded down to the second. */
  function Breakdown(diff: nat): (e: Elapsed)
    ensures e.Elapsed? && e.days >= 0
    ensures 0 <= e.hours < 24 && 0 <= e.minutes < 60 && 0 <= e.seconds < 60
    ensures TotalMs(e) <= diff < TotalMs(e) + SecondMs
  {
    var e := Elapsed(diff / DayMs, (diff % DayMs) / HourMs, (diff % HourMs) / MinuteMs, (diff % MinuteMs) / SecondMs);
    ModOfMultiple(diff, HourMs, 24);
    ModOfMultiple(diff, MinuteMs, 60);
    var r1 := diff % DayMs;
    assert diff == e.days * DayMs + r1;
    assert r1 == e.hours * HourMs + r1 % HourMs;
    assert r1 % HourMs == diff % HourMs;
    var r2 := diff % HourMs;
    assert r2 == e.minutes * MinuteMs + r2 % MinuteMs;
    assert r2 % MinuteMs == diff % MinuteMs;
    var r3 := diff % MinuteMs;
    assert r3 == e.seconds * SecondMs + r3 % SecondMs;
    e
  }

  /** Breaking down a time given as clock fields plus spare milliseconds gives
      back exactly those fields: the decomposition is the unique one. */
  lemma {:induction false} BreakdownOfParts(d: nat, h: int, m: int, s: int, ms: int)
    requires 0 <= h < 24 && 0 <= m < 60 && 0 <= s < 60 && 0 <= ms < SecondMs
    ensures Breakdown(d * DayMs + h * HourMs + m * MinuteMs + s * SecondMs + ms) == Elapsed(d, h, m, s)
  {
    var r3 := s * SecondMs + ms;
    var r2 := m * MinuteMs + r3;
    var r1 := h * HourMs + r2;
    var x := d * DayMs + r1;
    assert r3 < MinuteMs;
    assert r2 < HourMs;
    assert r1 < DayMs;
    DivModUnique(x, DayMs, d, r1);
    DivModUnique(r1, HourMs, h, r2);
    DivModUnique(x, HourMs, d * 24 + h, r2);
    DivModUnique(r2, MinuteMs, m, r3);
    DivModUnique(x, MinuteMs, (d * 24 + h) * 60 + m, r3);
    DivModUnique(r3, SecondMs, s, ms);
  }

  /** The live clock agrees with the server's figures for a start in the past:
      the same whole days, and the server's hour count is the days' 24 hours
      each plus the clock's hours. */
  lemma ClockAgreesWithServer(start: int, now: int)
    requires now >= start
    ensures var (days, hours) := StreakRoute.StreakFigures(start, now);
      var e := Breakdown(now - start);
      days == e.days && hours == 24 * e.days + e.hours
  {
    var diff := now - start;
    var e := Breakdown(diff);
    var r1 := diff % DayMs;
    assert diff == e.days * DayMs + r1;
    assert r1 == e.hours * HourMs + r1 % HourMs;
    DivModUnique(diff, HourMs, 24 * e.days + e.hours, r1 % HourMs);
  }

  /** `calculateTime` for a start held in the ref: NaN everywhere for an
      unparsable start, all zeros for a start in the future, otherwise the
      breakdown of the elapsed time. In every case with a valid start the
      reading stands for the elapsed time (0 if negative) down to the second. */
  function CalculateTime(start: DateValue, now: int): (e: Elapsed)
    ensures start.InvalidDate? <==> e.ElapsedNaN?
    ensures start.At? ==>
      var elapsedMs := if now < start.ms then 0 else now - start.ms;
      && 0 <= e.hours < 24 && 0 <= e.minutes < 60 && 0 <= e.seconds < 60
      && TotalMs(e) <= elapsedMs < TotalMs(e) + SecondMs
  {
    match start
    case InvalidDate => ElapsedNaN
    case At(t) => if now - t < 0 then Zero else Breakdown(now - t)
  }

  /** The day count the page passes to `getProgress` and `getNextMilestone`. */
  function DaysOf(e: Elapsed): (n: Num)
    ensures e.ElapsedNaN? <==> n.NaN?
  {
    if e.ElapsedNaN? then NaN else Int(e.days)
  }

  /** `streakData.history.slice().reverse()`: the table's row k is the k-th
      reset counted back from the latest. */
  function HistoryRows(history: seq<int>): (rows: seq<int>)
    ensures |rows| == |history|
    ensures forall k :: 0 <= k < |rows| ==> rows[k] == history[|history| - 1 - k]
  {
    forall k | 0 <= k < |history|
      ensures Reverse(history)[k] == history[|history| - 1 - k]
    {
      ReverseAt(history, k);
    }
    Reverse(history)
  }

  /** The page's live-clock state: the start date the clock runs from (the
      ref), the value cached under `streakStartDate` in local storage (both as
      the date they parse to; None for an absent or empty value), the reading
      shown, and whether the page has mounted. */
  class StreakClock {
    var startRef: Option<DateValue>
    var cache: Option<DateValue>
    var elapsed: Elapsed
    var mounted: bool

    /** First render: nothing read yet, all zeros; local storage keeps what an
        earlier visit left there. */
    constructor (stored: Option<DateValue>)
      ensures startRef == None && cache == stored && elapsed == Zero && !mounted
    {
      startRef := None;
      cache := stored;
      elapsed := Zero;
      mounted := false;
    }

    /** The mount effect: a cached start becomes the ref and, unless it lies in
        the future or does not parse (the `diff >= 0` test fails for NaN), the
        reading is computed at once. */
    method Mount(now: int)
      modifies this
      ensures mounted && cache == old(cache)
      ensures old(cache).None? ==> startRef == old(startRef) && elapsed == old(elapsed)
      ensures old(cache).Some? ==> startRef == old(cache)
      ensures old(cache).Some? && old(cache).value.At? && now - old(cache).value.ms >= 0 ==>
        elapsed == Breakdown(now - old(cache).value.ms)
      ensures old(cache).Some? && (old(cache).value.InvalidDate? || now - old(cache).value.ms < 0) ==>
        elapsed == old(elapsed)
    {
      mounted := true;
      if cache.Some? {
        startRef := cache;
        var start := cache.value;
        if start.At? && now - start.ms >= 0 {
          elapsed := Breakdown(now - start.ms);
        }
      }
    }

    /** The effect on new streak data: a start date received from the server
        becomes the ref and is cached; without one nothing changes. */
    method ReceiveStartDate(startDate: Option<DateValue>)
      modifies this
      ensures startDate.Some? ==> startRef == startDate && cache == startDate
      ensures startDate.None? ==> startRef == old(startRef) && cache == old(cache)
      ensures elapsed == old(elapsed) && mounted == old(mounted)
    {
      if startDate.Some? {
        startRef := startDate;
        cache := startDate;
      }
    }

    /** One tick of the one-second interval, which runs only once mounted: with
        no start in the ref nothing changes, otherwise the reading is
        recomputed from the ref. */
    method Tick(now: int)
      modifies this
      ensures startRef == old(startRef) && cache == old(cache) && mounted == old(mounted)
      ensures mounted && startRef.Some? ==> elapsed == CalculateTime(startRef.value, now)
      ensures !mounted || startRef.None? ==> elapsed == old(elapsed)
    {
      if !mounted {
        return;
      }
      if startRef.None? {
        return;
      }
      var start := startRef.value;
      if start.InvalidDate? {
        elapsed := ElapsedNaN;
        return;
      }
      var diff := now - start.ms;
      if diff < 0 {
        elapsed := Zero;
        return;
      }
      elapsed := Breakdown(diff);
    }

    /** After the server confirms a reset: the cache is cleared and the reading
        shows zeros. The ref keeps the old start until new streak data arrives. */
    method ResetSucceeded()
      modifies this
      ensures cache == None && elapsed == Zero
      ensures startRef == old(startRef) && mounted == old(mounted)
    {
      cache := None;
      elapsed := Zero;
    }

    /** Signing out clears the cache and nothing else. */
    method SignOut()
      modifies this
      ensures cache == None
      ensures startRef == old(startRef) && elapsed == old(elapsed) && mounted == old(mounted)
    {
      cache := None;
    }
  }
}
