/**
 * The back/forward history list of a tab: a sequence of history entries and a cursor
 * that is -1 exactly when the list is empty. Adding an entry discards everything after
 * the cursor; moving through history only asks the owner to navigate (the `Navigate`
 * hook), the owner later moves the cursor with AddEntry, ReplaceCurrentEntry or
 * SetCurrentIndex.
 */
module NavigationHistory {
  import opened Options

  /** The representation invariant: the cursor is -1 exactly when there are no entries. */
  ghost predicate WellFormed<E>(entries: seq<E>, cur: int) {
    -1 <= cur < |entries| && (cur == -1 <==> entries == [])
  }

  /** The entry at an absolute index, or nothing when the index is outside the list. */
  function EntryAt<E>(entries: seq<E>, index: int): (r: Option<E>)
    ensures r.Some? <==> 0 <= index < |entries|
    ensures r.Some? ==> r.value == entries[index]
  {
    if index < 0 || index >= |entries| then None else Some(entries[index])
  }

  /** The back history at cursor `cur`: the entries before it, nearest first. */
  function BackOf<E>(entries: seq<E>, cur: int): seq<E>
    requires cur <= |entries|
    decreases cur
  {
    if cur <= 0 then [] else [entries[cur - 1]] + BackOf(entries, cur - 1)
  }

  /** The forward history at cursor `cur`: the entries after it, in order. */
  function ForwardOf<E>(entries: seq<E>, cur: int): seq<E>
    requires -1 <= cur < |entries|
  {
    if cur == -1 then [] else entries[cur + 1..]
  }

  /** The back history has one entry per position before the cursor, the k-th being `cur - 1 - k`. */
  lemma {:induction false} BackOfAt<E>(entries: seq<E>, cur: int, k: int)
    requires -1 <= cur <= |entries|
    ensures |BackOf(entries, cur)| == if cur <= 0 then 0 else cur
    ensures 0 <= k < cur ==> BackOf(entries, cur)[k] == entries[cur - 1 - k]
  {
    if cur > 0 {
      BackOfAt(entries, cur - 1, k - 1);
    }
  }

  /** The back history reads only the entries before the cursor. */
  lemma {:induction false} BackOfPrefix<E>(a: seq<E>, b: seq<E>, cur: int)
    requires 0 <= cur <= |a| && cur <= |b| && a[..cur] == b[..cur]
    ensures BackOf(a, cur) == BackOf(b, cur)
  {
    if cur > 0 {
      assert a[cur - 1] == a[..cur][cur - 1] == b[..cur][cur - 1] == b[cur - 1];
      assert a[..cur - 1] == a[..cur][..cur - 1] == b[..cur][..cur - 1] == b[..cur - 1];
      BackOfPrefix(a, b, cur - 1);
    }
  }

  /**
   * Going `k` steps back reaches the k-th entry of the back history and going `k` steps
   * forward the k-th entry of the forward history; beyond either end there is no entry.
   * This is what makes the back and forward menus agree with GoToOffset.
   */
  lemma {:induction false} OffsetsMatchHistories<E>(entries: seq<E>, cur: int, k: int)
    requires WellFormed(entries, cur) && k >= 1
    ensures EntryAt(entries, cur - k) ==
      if k <= |BackOf(entries, cur)| then Some(BackOf(entries, cur)[k - 1]) else None
    ensures EntryAt(entries, cur + k) ==
      if k <= |ForwardOf(entries, cur)| then Some(ForwardOf(entries, cur)[k - 1]) else None
  {
    BackOfAt(entries, cur, k - 1);
  }

  /**
   * After AddEntry the former current entry is the nearest back entry, the rest of the
   * back history is kept and the forward history is gone.
   */
  lemma {:induction false} AddEntryHistories<E>(entries: seq<E>, cur: int, entry: E)
    requires WellFormed(entries, cur)
    ensures WellFormed(entries[..cur + 1] + [entry], cur + 1)
    ensures BackOf(entries[..cur + 1] + [entry], cur + 1) ==
      if cur == -1 then [] else [entries[cur]] + BackOf(entries, cur)
    ensures ForwardOf(entries[..cur + 1] + [entry], cur + 1) == []
  {
    var added := entries[..cur + 1] + [entry];
    if cur >= 0 {
      assert added[..cur] == entries[..cur];
      BackOfPrefix(added, entries, cur);
      assert added[cur] == entries[cur];
    }
  }

  /** Replacing the current entry leaves both the back and the forward history as they were. */
  lemma {:induction false} ReplaceKeepsHistories<E>(entries: seq<E>, cur: int, entry: E)
    requires WellFormed(entries, cur) && cur >= 0
    ensures BackOf(entries[cur := entry], cur) == BackOf(entries, cur)
    ensures ForwardOf(entries[cur := entry], cur) == ForwardOf(entries, cur)
  {
    assert entries[cur := entry][..cur] == entries[..cur];
    BackOfPrefix(entries[cur := entry], entries, cur);
  }

  /** `std::clamp(value, 0, n - 1)` for a non-empty list. */
  function ClampIndex(value: int, n: int): (r: int)
    requires n > 0
    ensures 0 <= r < n
    ensures 0 <= value < n ==> r == value
    ensures value < 0 ==> r == 0
    ensures value >= n ==> r == n - 1
  {
    if value < 0 then 0 else if value >= n then n - 1 else value
  }

  class NavigationController<E(==)> {
    var entries: seq<E>
    var current: int

    ghost predicate Valid()
      reads this
    {
      WellFormed(entries, current)
    }

    /** An empty history. */
    constructor ()
      ensures Valid() && entries == [] && current == -1
    {
      entries := [];
      current := -1;
    }

    /** A history restored from saved entries; the saved cursor is clamped into the list. */
    constructor FromEntries(initial: seq<E>, currentEntry: int)
      requires initial != []
      ensures Valid() && entries == initial
      ensures 0 <= currentEntry < |initial| ==> current == currentEntry
      ensures currentEntry < 0 ==> current == 0
      ensures currentEntry >= |initial| ==> current == |initial| - 1
    {
      entries := initial;
      current := ClampIndex(currentEntry, |initial|);
    }

    function GetNumHistoryEntries(): nat
      reads this
    {
      |entries|
    }

    function GetEntryAtIndex(index: int): (r: Option<E>)
      reads this
      ensures r.Some? <==> 0 <= index < |entries|
      ensures r.Some? ==> r.value == entries[index]
    {
      EntryAt(entries, index)
    }

    /** The entry `offset` steps away from the cursor, if there is one. */
    function GetEntry(offset: int): (r: Option<E>)
      reads this
      ensures r.Some? <==> 0 <= current + offset < |entries|
      ensures r.Some? ==> r.value == entries[current + offset]
    {
      EntryAt(entries, current + offset)
    }

    /** The current entry; there is none exactly when the history is empty. */
    function GetCurrentEntry(): (r: Option<E>)
      reads this
      requires Valid()
      ensures r.None? <==> entries == []
      ensures r.Some? ==> r.value == entries[current]
    {
      GetEntryAtIndex(current)
    }

    function CanGoBack(): (b: bool)
      reads this
      ensures b <==> current > 0
      ensures Valid() ==> (b <==> GetEntry(-1).Some?)
    {
      if current == -1 then false else current > 0
    }

    function CanGoForward(): (b: bool)
      reads this
      ensures b <==> current != -1 && current < |entries| - 1
      ensures Valid() ==> (b <==> GetEntry(1).Some?)
    {
      if current == -1 then false else |entries| - current - 1 > 0
    }

    /** The entries before the cursor, nearest first. */
    method GetBackHistory() returns (history: seq<E>)
      requires Valid()
      ensures |history| == if current <= 0 then 0 else current
      ensures forall k :: 0 <= k < |history| ==> history[k] == entries[current - 1 - k]
      ensures history == BackOf(entries, current)
      ensures history != [] <==> CanGoBack()
    {
      history := [];
      if current == -1 {
        return;
      }
      var i := current - 1;
      while i >= 0
        invariant -1 <= i < current
        invariant |history| == current - 1 - i
        invariant forall k :: 0 <= k < |history| ==> history[k] == entries[current - 1 - k]
      {
        history := history + [entries[i]];
        i := i - 1;
      }
      BackOfAt(entries, current, 0);
      forall k | 0 <= k < current
        ensures history[k] == BackOf(entries, current)[k]
      {
        BackOfAt(entries, current, k);
      }
    }

    /** The entries after the cursor, nearest first. */
    method GetForwardHistory() returns (history: seq<E>)
      requires Valid()
      ensures |history| == if current == -1 then 0 else |entries| - current - 1
      ensures forall k :: 0 <= k < |history| ==> history[k] == entries[current + 1 + k]
      ensures history == ForwardOf(entries, current)
      ensures history != [] <==> CanGoForward()
    {
      history := [];
      if current == -1 {
        return;
      }
      var i := current + 1;
      while i < |entries|
        invariant current + 1 <= i <= |entries|
        invariant history == entries[current + 1..i]
      {
        history := history + [entries[i]];
        i := i + 1;
      }
    }

    /** The first index holding `entry`, or nothing when it is not in the history. */
    method GetIndexOfEntry(entry: E) returns (index: Option<nat>)
      ensures index.None? <==> entry !in entries
      ensures index.Some? ==> index.value < |entries| && entries[index.value] == entry
      ensures index.Some? ==> forall j :: 0 <= j < index.value ==> entries[j] != entry
    {
      var i := 0;
      while i < |entries|
        invariant 0 <= i <= |entries|
        invariant forall j :: 0 <= j < i ==> entries[j] != entry
      {
        if entries[i] == entry {
          return Some(i);
        }
        i := i + 1;
      }
      return None;
    }

    /**
     * Asks the owner to navigate to the entry `offset` steps away; the result is the entry
     * handed to the `Navigate` hook, or nothing when no such entry exists and the hook is
     * not called. Neither the entries nor the cursor change.
     */
    method GoToOffset(offset: int) returns (navigated: Option<E>)
      ensures navigated.Some? <==> 0 <= current + offset < |entries|
      ensures navigated.Some? ==> navigated.value == entries[current + offset]
    {
      var entry := GetEntry(offset);
      if entry.None? {
        return None;
      }
      navigated := entry;
    }

    method GoBack() returns (navigated: Option<E>)
      requires Valid()
      ensures navigated.Some? <==> CanGoBack()
      ensures navigated.Some? ==> navigated.value == entries[current - 1]
    {
      navigated := GoToOffset(-1);
    }

    method GoForward() returns (navigated: Option<E>)
      requires Valid()
      ensures navigated.Some? <==> CanGoForward()
      ensures navigated.Some? ==> navigated.value == entries[current + 1]
    {
      navigated := GoToOffset(1);
    }

    /** Drops the forward history, appends `entry` and makes it current; returns the new index. */
    method AddEntry(entry: E) returns (index: int)
      requires Valid()
      modifies this
      ensures Valid()
      ensures entries == old(entries)[..old(current) + 1] + [entry]
      ensures current == old(current) + 1 == |entries| - 1
      ensures index == current
    {
      entries := entries[..current + 1];
      entries := entries + [entry];
      current := current + 1;
      index := current;
    }

    /**
     * Overwrites the current entry in place; on an empty history (which callers should not
     * do) it falls back to AddEntry.
     */
    method ReplaceCurrentEntry(entry: E) returns (index: int)
      requires Valid()
      modifies this
      ensures Valid()
      ensures old(current) == -1 ==> entries == [entry] && current == 0
      ensures old(current) != -1 ==>
        entries == old(entries)[old(current) := entry] && current == old(current)
      ensures index == current
    {
      if current == -1 {
        index := AddEntry(entry);
        return;
      }
      entries := entries[current := entry];
      index := current;
    }

    method SetCurrentIndex(index: int)
      requires Valid()
      requires 0 <= index < |entries|
      modifies this`current
      ensures Valid()
      ensures current == index
    {
      current := index;
    }
  }

  /**
   * Two entries are added, the owner goes back (which only names the entry to navigate to)
   * and completes that navigation by moving the cursor, then a third entry is added: the
   * second entry was forward of the cursor and is discarded.
   */
  method DiscardForwardHistory<E(==)>(e1: E, e2: E, e3: E)
    returns (entries: seq<E>, cur: int, wentBackTo: Option<E>)
    ensures wentBackTo == Some(e1)
    ensures entries == [e1, e3] && cur == 1
  {
    var c := new NavigationController<E>();
    var i := c.AddEntry(e1);
    i := c.AddEntry(e2);
    wentBackTo := c.GoBack();
    assert c.entries == [e1, e2] && c.current == 1;
    c.SetCurrentIndex(0);
    i := c.AddEntry(e3);
    entries, cur := c.entries, c.current;
  }
}
