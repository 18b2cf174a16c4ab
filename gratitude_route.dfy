/** The gratitude handler (`/api/gratitude`): today's entries or the recent
    history, adding an entry, flipping its check mark and deleting it, over an
    in-memory table of gratitude documents. */
module GratitudeRoute {
  import opened Wrappers
  import opened Http
  import opened Clock
  import opened Seqs

  /** A stored gratitude document; `createdAt` is the creation timestamp the
      schema's `timestamps` option records. */
  datatype Gratitude = Gratitude(id: DocId, userId: UserId, content: string, isChecked: bool, createdAt: int)

  /** History mode returns at most this many entries. */
  const HistoryLimit: nat := 50

  /** `{ userId }`: the entries of one user, in table order. */
  function OwnedBy(items: seq<Gratitude>, user: UserId): (r: seq<Gratitude>)
    ensures forall i :: 0 <= i < |r| ==> r[i].userId == user && r[i] in items
    ensures forall i :: 0 <= i < |items| && items[i].userId == user ==> items[i] in r
  {
    Filter(items, (g: Gratitude) => g.userId == user)
  }

  /** `sort({ createdAt: -1 })`. */
  function NewestFirstKey(g: Gratitude): int
  {
    -g.createdAt
  }

  /** `sort({ createdAt: 1 })`. */
  function OldestFirstKey(g: Gratitude): int
  {
    g.createdAt
  }

  /** The query window of today mode: from local midnight, set by
      `setHours(0, 0, 0, 0)`, to `setHours(23, 59, 59, 999)`, both inclusive. */
  predicate InToday(g: Gratitude, now: int)
  {
    Midnight(now) <= g.createdAt <= EndOfDay(now)
  }

  /** The window is exactly the local calendar day of `now`: an entry lies in
      it if and only if it was created on the same local day. */
  lemma TodayIsLocalDay(g: Gratitude, now: int)
    ensures InToday(g, now) <==> Midnight(g.createdAt) == Midnight(now)
  {
    SameBucketIff(now, g.createdAt);
  }

  /** An entry posted now shows up in today's window. */
  lemma PostedNowIsToday(g: Gratitude, now: int)
    requires g.createdAt == now
    ensures InToday(g, now)
  {
  }

  /** The entries of today mode, before sorting. */
  function TodayOf(items: seq<Gratitude>, user: UserId, now: int): (r: seq<Gratitude>)
    ensures forall i :: 0 <= i < |r| ==> r[i].userId == user && InToday(r[i], now) && r[i] in items
    ensures forall i :: 0 <= i < |items| && items[i].userId == user && InToday(items[i], now) ==> items[i] in r
  {
    Filter(OwnedBy(items, user), (g: Gratitude) => InToday(g, now))
  }

  /** `mode === 'history'`: only that exact parameter selects history mode. */
  predicate IsHistoryMode(mode: Option<string>)
  {
    mode == Some("history")
  }

  /** The position of the item with this id, or -1 (`findById`). */
  function IndexOfId(items: seq<Gratitude>, id: DocId): (k: int)
    ensures -1 <= k < |items|
    ensures 0 <= k ==> items[k].id == id
    ensures k < 0 ==> forall j :: 0 <= j < |items| ==> items[j].id != id
  {
    var k := FindIndex(items, HasId(id));
    assert 0 <= k ==> HasId(id)(items[k]);
    assert k < 0 ==> forall j :: 0 <= j < |items| ==> !HasId(id)(items[j]);
    k
  }

  /** `g => g._id == id`. */
  function HasId(id: DocId): Gratitude -> bool
  {
    (g: Gratitude) => g.id == id
  }

  /** `item.isChecked = !item.isChecked`. */
  function Flipped(g: Gratitude): (h: Gratitude)
    ensures h.isChecked != g.isChecked && h.(isChecked := g.isChecked) == g
  {
    g.(isChecked := !g.isChecked)
  }

  /** Two PUTs for the same entry leave it as it was. */
  lemma FlipTwice(items: seq<Gratitude>, k: nat)
    requires k < |items|
    ensures items[k := Flipped(items[k])][k := Flipped(Flipped(items[k]))] == items
  {
  }

  /** `g => g._id != id`. */
  function HasOtherId(id: DocId): Gratitude -> bool
  {
    (g: Gratitude) => g.id != id
  }

  /** `findByIdAndDelete(id)`: the table without the entry of that id; a missing
      id deletes nothing. */
  function Without(items: seq<Gratitude>, id: Option<DocId>): (r: seq<Gratitude>)
    ensures id.None? ==> r == items
    ensures id.Some? ==> forall i :: 0 <= i < |r| ==> r[i].id != id.value && r[i] in items
    ensures id.Some? ==> forall i :: 0 <= i < |items| && items[i].id != id.value ==> items[i] in r
  {
    if id.None? then items else Filter(items, HasOtherId(id.value))
  }

  /** `sort({ createdAt: -1 }).limit(50)`: at most 50 entries, newest first,
      taken from the given ones, and none left out is newer than one kept. */
  lemma NewestPage(mine: seq<Gratitude>)
    ensures var page := Take(SortBy(mine, NewestFirstKey), HistoryLimit);
      && SortedBy(page, NewestFirstKey)
      && |page| == (if |mine| < HistoryLimit then |mine| else HistoryLimit)
      && multiset(page) <= multiset(mine)
      && forall i :: 0 <= i < |mine| && mine[i] !in page ==>
           forall j :: 0 <= j < |page| ==> page[j].createdAt >= mine[i].createdAt
  {
    var sorted := SortBy(mine, NewestFirstKey);
    var page := Take(sorted, HistoryLimit);
    TakePrefix(sorted, HistoryLimit, NewestFirstKey);
    forall i | 0 <= i < |mine| && mine[i] !in page
      ensures forall j :: 0 <= j < |page| ==> page[j].createdAt >= mine[i].createdAt
    {
      LeftOutNotNewer(mine, sorted, mine[i]);
    }
  }

  /** An entry of the sorted table missing from its first 50 is no newer than
      any of those 50. */
  lemma LeftOutNotNewer(mine: seq<Gratitude>, sorted: seq<Gratitude>, x: Gratitude)
    requires sorted == SortBy(mine, NewestFirstKey)
    requires x in mine && x !in Take(sorted, HistoryLimit)
    ensures forall j :: 0 <= j < |Take(sorted, HistoryLimit)| ==> Take(sorted, HistoryLimit)[j].createdAt >= x.createdAt
  {
    assert x in multiset(mine);
    assert x in sorted;
    TakeOfSorted(sorted, HistoryLimit, NewestFirstKey, x);
  }

  class GratitudeStore {
    var items: seq<Gratitude>
    var nextId: nat

    /** Ids are distinct and below the next one handed out. */
    ghost predicate Valid()
      reads this
    {
      && (forall i :: 0 <= i < |items| ==> items[i].id < nextId)
      && (forall i, j :: 0 <= i < j < |items| ==> items[i].id != items[j].id)
    }

    constructor ()
      ensures Valid() && items == [] && nextId == 0
    {
      items := [];
      nextId := 0;
    }

    /** GET. No session: 401. History mode: the caller's 50 newest entries,
        newest first (fewer if there are fewer), and every entry of theirs left
        out is no newer than any returned. Any other mode: exactly the caller's
        entries created today, oldest first. */
    method Get(session: Session, mode: Option<string>, now: int) returns (r: Response<seq<Gratitude>>)
      ensures session.None? <==> r == Unauthorized()
      ensures session.Some? ==> r.Ok?
      ensures r.Ok? && IsHistoryMode(mode) ==>
        var mine := OwnedBy(items, session.value);
        && SortedBy(r.body, NewestFirstKey)
        && |r.body| == (if |mine| < HistoryLimit then |mine| else HistoryLimit)
        && multiset(r.body) <= multiset(mine)
        && forall i :: 0 <= i < |mine| && mine[i] !in r.body ==>
             forall j :: 0 <= j < |r.body| ==> r.body[j].createdAt >= mine[i].createdAt
      ensures r.Ok? && !IsHistoryMode(mode) ==>
        && SortedBy(r.body, OldestFirstKey)
        && multiset(r.body) == multiset(TodayOf(items, session.value, now))
    {
      if session.None? {
        return Unauthorized();
      }
      var mine := OwnedBy(items, session.value);
      if mode == Some("history") {
        var page := Take(SortBy(mine, NewestFirstKey), HistoryLimit);
        NewestPage(mine);
        return Ok(page);
      }
      var today := TodayOf(items, session.value, now);
      return Ok(SortBy(today, OldestFirstKey));
    }

    /** POST. No session: 401. A missing or empty content fails the schema's
        `required` check (500) and nothing is stored. Otherwise a new unchecked
        entry of the caller, created now, is stored and returned. */
    method Post(session: Session, content: Option<string>, now: int) returns (r: Response<Gratitude>)
      requires Valid()
      modifies this
      ensures Valid()
      ensures session.None? ==> r == Unauthorized()
      ensures session.Some? && (content.None? || content == Some("")) ==> r.Status() == 500
      ensures r.Fail? ==> items == old(items) && nextId == old(nextId)
      ensures session.Some? && content.Some? && content.value != "" ==>
        && r == Ok(Gratitude(old(nextId), session.value, content.value, false, now))
        && items == old(items) + [r.body]
        && nextId == old(nextId) + 1
    {
      if session.None? {
        return Unauthorized();
      }
      if content.None? || content.value == "" {
        return UncaughtError();
      }
      var g := Gratitude(nextId, session.value, content.value, false, now);
      items := items + [g];
      nextId := nextId + 1;
      return Ok(g);
    }

    /** PUT. No session: 401. Unknown id: 404 'Not found'. Otherwise the entry's
        check mark is flipped and the entry returned; the lookup is by id alone,
        whoever owns the entry, and no other entry changes. */
    method Put(session: Session, id: DocId) returns (r: Response<Gratitude>)
      requires Valid()
      modifies this
      ensures Valid() && nextId == old(nextId)
      ensures session.None? ==> r == Unauthorized()
      ensures session.Some? && IndexOfId(old(items), id) < 0 ==> r == Fail(404, "Not found")
      ensures r.Fail? ==> items == old(items)
      ensures session.Some? && IndexOfId(old(items), id) >= 0 ==>
        var k := IndexOfId(old(items), id);
        && r == Ok(Flipped(old(items)[k]))
        && items == old(items)[k := r.body]
    {
      if session.None? {
        return Unauthorized();
      }
      var k := IndexOfId(items, id);
      if k < 0 {
        return Fail(404, "Not found");
      }
      var updated := items[k].(isChecked := !items[k].isChecked);
      items := items[k := updated];
      return Ok(updated);
    }

    /** DELETE. No session: 401. Otherwise the entry with that id, whoever owns
        it, is removed if it exists, and the answer is 'Deleted' either way. */
    method Delete(session: Session, id: Option<DocId>) returns (r: Response<Ack>)
      requires Valid()
      modifies this
      ensures Valid() && nextId == old(nextId)
      ensures session.None? ==> r == Unauthorized() && items == old(items)
      ensures session.Some? ==> r == Ok(Ack("Deleted")) && items == Without(old(items), id)
    {
      if session.None? {
        return Unauthorized();
      }
      items := Without(items, id);
      WithoutKeepsIds(old(items), id, nextId);
      return Ok(Ack("Deleted"));
    }
  }

  function DistinctIds(a: Gratitude, b: Gratitude): bool
  {
    a.id != b.id
  }

  /** Deleting keeps the ids distinct and below the next one. */
  lemma WithoutKeepsIds(items: seq<Gratitude>, id: Option<DocId>, nextId: nat)
    requires forall i :: 0 <= i < |items| ==> items[i].id < nextId
    requires forall i, j :: 0 <= i < j < |items| ==> items[i].id != items[j].id
    ensures var r := Without(items, id);
      && (forall i :: 0 <= i < |r| ==> r[i].id < nextId)
      && (forall i, j :: 0 <= i < j < |r| ==> r[i].id != r[j].id)
  {
    if id.Some? {
      var r := Without(items, id);
      assert Pairwise(items, DistinctIds);
      FilterKeepsPairwise(items, HasOtherId(id.value), DistinctIds);
      assert Pairwise(r, DistinctIds);
    }
  }
}
