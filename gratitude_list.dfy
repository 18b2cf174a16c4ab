/** The gratitude list widget: which list a fetch fills, the guarded add, the
    optimistic check toggle and delete, and the history view's grouping of
    consecutive entries under a date heading. */
module GratitudeList {
  import opened Wrappers
  import opened Seqs
  import opened Text
  import opened Http
  import opened GratitudeRoute

  datatype Tab = TodayTab | HistoryTab

  /** The `mode` query parameter a fetch sends for a tab. */
  function ModeFor(tab: Tab): (m: string)
    ensures m == "history" || m == "today"
  {
    if tab == HistoryTab then "history" else "today"
  }

  /** The route answers in history mode for the history tab and in today mode
      for the other. */
  lemma ModeMatchesRoute(tab: Tab)
    ensures IsHistoryMode(Some(ModeFor(tab))) <==> tab == HistoryTab
  {
  }

  /** `items.map(i => i._id === id ? { ...i, isChecked: !i.isChecked } : i)`. */
  function ToggleChecked(items: seq<Gratitude>, id: DocId): (r: seq<Gratitude>)
    ensures |r| == |items|
    ensures forall i :: 0 <= i < |items| ==> r[i] == if items[i].id == id then Flipped(items[i]) else items[i]
  {
    seq(|items|, i requires 0 <= i < |items| => if items[i].id == id then Flipped(items[i]) else items[i])
  }

  /** Toggling the same entry twice restores the list. */
  lemma ToggleCheckedTwice(items: seq<Gratitude>, id: DocId)
    ensures ToggleChecked(ToggleChecked(items, id), id) == items
  {
    var once := ToggleChecked(items, id);
    var twice := ToggleChecked(once, id);
    forall i | 0 <= i < |items|
      ensures twice[i] == items[i]
    {
      assert once[i].id == items[i].id;
    }
  }

  /** With distinct ids the optimistic toggle is exactly what the PUT handler
      does to the stored entry, so the list and the table agree afterwards. */
  lemma ToggleMatchesServer(items: seq<Gratitude>, id: DocId)
    requires forall i, j :: 0 <= i < j < |items| ==> items[i].id != items[j].id
    requires IndexOfId(items, id) >= 0
    ensures var k := IndexOfId(items, id);
      ToggleChecked(items, id) == items[k := Flipped(items[k])]
  {
    var k := IndexOfId(items, id);
    var r := ToggleChecked(items, id);
    forall i | 0 <= i < |items|
      ensures r[i] == items[k := Flipped(items[k])][i]
    {
      if i < k {
        assert items[i].id != items[k].id;
      } else if i > k {
        assert items[k].id != items[i].id;
      }
    }
  }

  /** `items.filter(i => i._id !== id)`: the same filter the DELETE handler
      applies to the table. */
  function Removed(items: seq<Gratitude>, id: DocId): (r: seq<Gratitude>)
    ensures r == Without(items, Some(id))
    ensures forall i :: 0 <= i < |r| ==> r[i].id != id
  {
    Filter(items, HasOtherId(id))
  }

  /** With distinct ids, deleting the entry at position k removes exactly that
      position and keeps the order of the rest; an id not in the list leaves it
      unchanged. */
  lemma RemovedAt(items: seq<Gratitude>, k: nat)
    requires k < |items|
    requires forall i, j :: 0 <= i < j < |items| ==> items[i].id != items[j].id
    ensures Removed(items, items[k].id) == items[..k] + items[k + 1..]
  {
    var p := HasOtherId(items[k].id);
    forall i | 0 <= i < |items| && i != k
      ensures p(items[i])
    {
      if i < k {
        assert items[i].id != items[k].id;
      } else {
        assert items[k].id != items[i].id;
      }
    }
    FilterDropsOne(items, p, k);
  }

  lemma RemovedAbsent(items: seq<Gratitude>, id: DocId)
    requires forall i :: 0 <= i < |items| ==> items[i].id != id
    ensures Removed(items, id) == items
  {
    FilterAllPass(items, HasOtherId(id));
  }

  /** The POST body `handleAdd` sends, if any: nothing for a blank input, else
      the input exactly as typed. */
  function AddRequest(newItem: string): (r: Option<string>)
    ensures r.None? <==> Trim(newItem) == ""
    ensures r.Some? ==> r.value == newItem
  {
    TrimEmptyIffBlank(newItem);
    if IsBlank(newItem) then None else Some(newItem)
  }

  /** A non-blank input never produces an empty content, so the route's
      `required` check accepts every request the widget sends. */
  lemma AddRequestNotEmpty(newItem: string)
    requires AddRequest(newItem).Some?
    ensures AddRequest(newItem).value != ""
  {
  }

  // The history view's date groups.

  /** A heading with the entries shown under it. */
  datatype Group = Group(date: string, items: seq<Gratitude>)

  /** The entries of all groups, in order. */
  function Flatten(groups: seq<Group>): seq<Gratitude>
  {
    if groups == [] then [] else Flatten(groups[..|groups| - 1]) + groups[|groups| - 1].items
  }

  /** Every group is non-empty and its entries carry its heading, and no two
      neighbouring groups share a heading. */
  predicate WellGrouped(groups: seq<Group>, dateOf: int -> string)
  {
    && (forall g :: 0 <= g < |groups| ==> |groups[g].items| > 0)
    && (forall g, k :: 0 <= g < |groups| && 0 <= k < |groups[g].items| ==>
          dateOf(groups[g].items[k].createdAt) == groups[g].date)
    && (forall g :: 0 < g < |groups| ==> groups[g - 1].date != groups[g].date)
  }

  /** `historyItems.reduce(...)`: entries whose date label equals the last
      group's join it, any other starts a new group. `dateOf` stands for
      `toLocaleDateString(undefined, { month: 'short', day: 'numeric' })`. The
      groups hold the history in its order, and only runs of neighbouring
      entries with one label share a group: two groups with the same heading
      appear if the same label comes back after another. */
  method GroupByDate(history: seq<Gratitude>, dateOf: int -> string) returns (groups: seq<Group>)
    ensures Flatten(groups) == history
    ensures WellGrouped(groups, dateOf)
  {
    groups := [];
    var i := 0;
    while i < |history|
      invariant 0 <= i <= |history|
      invariant Flatten(groups) == history[..i]
      invariant WellGrouped(groups, dateOf)
    {
      var item := history[i];
      var date := dateOf(item.createdAt);
      if |groups| > 0 && groups[|groups| - 1].date == date {
        JoinLast(groups, item, dateOf);
        var last := groups[|groups| - 1];
        groups := groups[..|groups| - 1] + [Group(last.date, last.items + [item])];
      } else {
        StartGroup(groups, item, dateOf);
        FlattenSnoc(groups, Group(date, [item]));
        groups := groups + [Group(date, [item])];
      }
      assert history[..i + 1] == history[..i] + [item];
      i := i + 1;
    }
    assert history[..i] == history;
  }

  /** Flattening after one more group adds that group's entries at the end. */
  lemma FlattenSnoc(groups: seq<Group>, g: Group)
    ensures Flatten(groups + [g]) == Flatten(groups) + g.items
  {
    assert (groups + [g])[..|groups|] == groups;
  }

  /** Adding an entry to the last group keeps the grouping and the order. */
  lemma JoinLast(groups: seq<Group>, item: Gratitude, dateOf: int -> string)
    requires WellGrouped(groups, dateOf)
    requires |groups| > 0 && groups[|groups| - 1].date == dateOf(item.createdAt)
    ensures var last := groups[|groups| - 1];
      var grown := groups[..|groups| - 1] + [Group(last.date, last.items + [item])];
      && WellGrouped(grown, dateOf)
      && Flatten(grown) == Flatten(groups) + [item]
  {
    var last := groups[|groups| - 1];
    var init := groups[..|groups| - 1];
    var g := Group(last.date, last.items + [item]);
    var grown := init + [g];
    FlattenSnoc(init, g);
    FlattenSnoc(init, last);
    assert init + [last] == groups;
    forall x, k | 0 <= x < |grown| && 0 <= k < |grown[x].items|
      ensures dateOf(grown[x].items[k].createdAt) == grown[x].date
    {
      if x < |init| {
        assert grown[x] == groups[x];
      } else if k < |last.items| {
        assert grown[x].items[k] == last.items[k];
      }
    }
    forall x | 0 < x < |grown|
      ensures grown[x - 1].date != grown[x].date
    {
      assert grown[x - 1] == groups[x - 1];
      assert grown[x].date == groups[x].date;
    }
  }

  /** Opening a group for an entry whose heading differs from the last one
      keeps the grouping. */
  lemma StartGroup(groups: seq<Group>, item: Gratitude, dateOf: int -> string)
    requires WellGrouped(groups, dateOf)
    requires groups == [] || groups[|groups| - 1].date != dateOf(item.createdAt)
    ensures WellGrouped(groups + [Group(dateOf(item.createdAt), [item])], dateOf)
  {
    var g := Group(dateOf(item.createdAt), [item]);
    var grown := groups + [g];
    forall x, k | 0 <= x < |grown| && 0 <= k < |grown[x].items|
      ensures dateOf(grown[x].items[k].createdAt) == grown[x].date
    {
      if x < |groups| {
        assert grown[x] == groups[x];
      }
    }
  }

  /** The widget's state as React keeps it. */
  class GratitudeListView {
    var items: seq<Gratitude>
    var historyItems: seq<Gratitude>
    var newItem: string
    var activeTab: Tab

    constructor ()
      ensures items == [] && historyItems == [] && newItem == "" && activeTab == TodayTab
    {
      items := [];
      historyItems := [];
      newItem := "";
      activeTab := TodayTab;
    }

    /** Choosing a tab; the effect then fetches in that tab's mode. */
    method SelectTab(tab: Tab) returns (mode: string)
      modifies this
      ensures activeTab == tab && mode == ModeFor(tab)
      ensures items == old(items) && historyItems == old(historyItems) && newItem == old(newItem)
    {
      activeTab := tab;
      mode := ModeFor(tab);
    }

    /** A successful fetch made for `tab` fills that tab's list and no other. */
    method Fetched(tab: Tab, data: seq<Gratitude>)
      modifies this
      ensures tab == TodayTab ==> items == data && historyItems == old(historyItems)
      ensures tab == HistoryTab ==> historyItems == data && items == old(items)
      ensures newItem == old(newItem) && activeTab == old(activeTab)
    {
      if tab == TodayTab {
        items := data;
      } else {
        historyItems := data;
      }
    }

    /** After the POST succeeded: the saved entry is appended and the input
        cleared. */
    method AddSucceeded(saved: Gratitude)
      modifies this
      ensures items == old(items) + [saved] && newItem == ""
      ensures historyItems == old(historyItems) && activeTab == old(activeTab)
    {
      items := items + [saved];
      newItem := "";
    }

    method ToggleCheck(id: DocId)
      modifies this
      ensures items == ToggleChecked(old(items), id)
      ensures historyItems == old(historyItems) && newItem == old(newItem) && activeTab == old(activeTab)
    {
      items := ToggleChecked(items, id);
    }

    method HandleDelete(id: DocId)
      modifies this
      ensures items == Removed(old(items), id)
      ensures historyItems == old(historyItems) && newItem == old(newItem) && activeTab == old(activeTab)
    {
      items := Removed(items, id);
    }
  }
}
