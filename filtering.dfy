/** Applying the filter state to the grouped messages: each group gets the
    messages that stay visible and the number hidden, the hidden numbers are
    added up for the "(n messages hidden)" label, and only groups with a
    visible message are displayed. */
module Filtering {
  import opened Js
  import opened Messages
  import opened Grouping
  import opened FilterStates

  /** `{ ...messageGroup, filteredMessages, numFiltered }`. */
  datatype FilteredGroup = FilteredGroup(
    theType: JsString,
    message: JsString,
    messages: seq<Message>,
    filteredMessages: seq<Message>,
    numFiltered: int)

  /** The messages a filter state hides. */
  function HiddenBy(fs: FilterState): Message -> bool
  {
    Negate(ShownBy(fs))
  }

  /** What the filtering reduce stores under one key. */
  function FilterGroup(g: Group, fs: FilterState): FilteredGroup
  {
    var visible := Filter(g.messages, ShownBy(fs));
    FilteredGroup(g.theType, g.message, g.messages, visible, |g.messages| - |visible|)
  }

  /** A filtered group keeps the group's fields; its visible messages are
      those of the group that the state does not hide, in their order; its
      hidden number counts the rest. */
  lemma FilterGroupSpec(g: Group, fs: FilterState)
    ensures var r := FilterGroup(g, fs);
      && r.theType == g.theType && r.message == g.message && r.messages == g.messages
      && (forall m :: m in r.filteredMessages <==> m in g.messages && Shown(fs, m))
      && IsSubsequence(r.filteredMessages, g.messages)
      && r.numFiltered == |Filter(g.messages, HiddenBy(fs))|
      && r.numFiltered + |r.filteredMessages| == |g.messages|
  {
    var visible := Filter(g.messages, ShownBy(fs));
    FilterIsSubsequence(g.messages, ShownBy(fs));
    FilterPartition(g.messages, ShownBy(fs));
    FilterMembers(g.messages, ShownBy(fs));
  }

  /** The dictionary the filtering reduce builds: the same keys in the same
      order, each group filtered. */
  function FilterAll(grouped: Dict<Group>, fs: FilterState): Dict<FilteredGroup>
  {
    Dict(grouped.keys, map k | k in grouped.entries :: FilterGroup(grouped.entries[k], fs))
  }

  /** `Object.entries(validationResult).reduce(...)`, writing one key of a
      fresh dictionary per step. */
  method FilterGroups(grouped: Dict<Group>, fs: FilterState) returns (filtered: Dict<FilteredGroup>)
    requires WellFormed(grouped)
    ensures filtered == FilterAll(grouped, fs)
    ensures WellFormed(filtered) && filtered.keys == grouped.keys
    ensures forall k :: k in filtered.entries ==>
              filtered.entries[k].numFiltered + |filtered.entries[k].filteredMessages|
              == |grouped.entries[k].messages|
  {
    filtered := EmptyDict();
    for i := 0 to |grouped.keys|
      invariant FilteredPrefix(filtered, grouped, fs, i)
    {
      var key := grouped.keys[i];
      var messageGroup := grouped.entries[key];
      var filteredMessages := Filter(messageGroup.messages, ShownBy(fs));
      var entry := FilteredGroup(
        messageGroup.theType, messageGroup.message, messageGroup.messages,
        filteredMessages, |messageGroup.messages| - |filteredMessages|);
      FilteredPrefixStep(filtered, grouped, fs, i, entry);
      filtered := Put(filtered, key, entry);
    }
    FilterAllIs(filtered, grouped, fs);
  }

  /** The loop invariant: the first `i` keys of `grouped` are done. */
  predicate FilteredPrefix(filtered: Dict<FilteredGroup>, grouped: Dict<Group>, fs: FilterState, i: int)
  {
    && WellFormed(grouped)
    && 0 <= i <= |grouped.keys|
    && WellFormed(filtered)
    && filtered.keys == grouped.keys[..i]
    && forall k :: k in filtered.entries ==> filtered.entries[k] == FilterGroup(grouped.entries[k], fs)
  }

  /** One step of the loop keeps its invariant. */
  lemma FilteredPrefixStep(filtered: Dict<FilteredGroup>, grouped: Dict<Group>, fs: FilterState,
                           i: int, entry: FilteredGroup)
    requires FilteredPrefix(filtered, grouped, fs, i) && i < |grouped.keys|
    requires entry == FilterGroup(grouped.entries[grouped.keys[i]], fs)
    ensures FilteredPrefix(Put(filtered, grouped.keys[i], entry), grouped, fs, i + 1)
  {
    var key := grouped.keys[i];
    assert key !in filtered.entries by {
      assert key !in grouped.keys[..i];
    }
    assert grouped.keys[..i + 1] == grouped.keys[..i] + [key];
  }

  /** When every key is done, the loop has built the filtering reduce's
      result, with the same keys and groups whose visible and hidden messages
      make up the group. */
  lemma FilterAllIs(filtered: Dict<FilteredGroup>, grouped: Dict<Group>, fs: FilterState)
    requires FilteredPrefix(filtered, grouped, fs, |grouped.keys|)
    ensures filtered == FilterAll(grouped, fs)
    ensures WellFormed(filtered) && filtered.keys == grouped.keys
    ensures forall k :: k in filtered.entries ==>
              filtered.entries[k].numFiltered + |filtered.entries[k].filteredMessages|
              == |grouped.entries[k].messages|
  {
    assert grouped.keys[..|grouped.keys|] == grouped.keys;
    assert filtered.entries.Keys == grouped.entries.Keys;
    FilterAllSizes(grouped, fs);
  }

  /** In every filtered group, the visible and the hidden messages make up
      the group. */
  lemma FilterAllSizes(grouped: Dict<Group>, fs: FilterState)
    ensures forall k :: k in FilterAll(grouped, fs).entries ==>
              FilterAll(grouped, fs).entries[k].numFiltered
              + |FilterAll(grouped, fs).entries[k].filteredMessages|
              == |grouped.entries[k].messages|
  {
    forall k | k in grouped.entries
      ensures FilterGroup(grouped.entries[k], fs).numFiltered
              + |FilterGroup(grouped.entries[k], fs).filteredMessages|
              == |grouped.entries[k].messages|
    {
      FilterGroupSpec(grouped.entries[k], fs);
    }
  }

  function NumFiltered(g: FilteredGroup): int
  {
    g.numFiltered
  }

  /** `numFilteredMessages`: the hidden numbers of all groups added up. */
  function NumFilteredMessages(filtered: Dict<FilteredGroup>): int
    requires forall k :: k in filtered.keys ==> k in filtered.entries
  {
    SumOver(filtered.keys, filtered.entries, NumFiltered)
  }

  /** Adding up the hidden numbers of the filtered groups counts the hidden
      messages of the groups before filtering. */
  lemma {:induction false} NumFilteredOfFilterAll(keys: seq<JsString>, grouped: Dict<Group>, fs: FilterState)
    requires forall k :: k in keys ==> k in grouped.entries
    ensures forall k :: k in keys ==> k in FilterAll(grouped, fs).entries
    ensures SumOver(keys, FilterAll(grouped, fs).entries, NumFiltered)
         == SumOver(keys, grouped.entries, CountIn(HiddenBy(fs)))
    decreases |keys|
  {
    if keys != [] {
      var init := keys[..|keys| - 1];
      assert forall k :: k in init ==> k in keys;
      NumFilteredOfFilterAll(init, grouped, fs);
      FilterGroupSpec(grouped.entries[keys[|keys| - 1]], fs);
    }
  }

  /** The label's number is the number of input messages the state hides. */
  lemma TotalHidden(ms: seq<Message>, fs: FilterState)
    ensures var filtered := FilterAll(GroupAll(ms), fs);
      && (forall k :: k in filtered.keys ==> k in filtered.entries)
      && NumFilteredMessages(filtered) == |Filter(ms, HiddenBy(fs))|
      && NumFilteredMessages(filtered) == |ms| - |Filter(ms, ShownBy(fs))|
  {
    var grouped := GroupAll(ms);
    GroupAllWellFormed(ms);
    NumFilteredOfFilterAll(grouped.keys, grouped, fs);
    GroupAllConserves(ms, HiddenBy(fs));
    FilterPartition(ms, ShownBy(fs));
  }

  // ---------------------------------------------------------------------
  // The displayed groups
  // ---------------------------------------------------------------------

  predicate HasVisibleMessages(g: FilteredGroup)
  {
    |g.filteredMessages| > 0
  }

  /** `Object.values(validationResult).filter(g => g.filteredMessages.length)`. */
  function Displayed(filtered: Dict<FilteredGroup>): (shown: seq<FilteredGroup>)
    requires WellFormed(filtered)
    ensures forall g :: g in shown <==> g in Values(filtered) && |g.filteredMessages| > 0
    ensures IsSubsequence(shown, Values(filtered))
  {
    var shown := Filter(Values(filtered), HasVisibleMessages);
    FilterIsSubsequence(Values(filtered), HasVisibleMessages);
    FilterMembers(Values(filtered), HasVisibleMessages);
    shown
  }

  function VisibleCount(g: FilteredGroup): int
  {
    |g.filteredMessages|
  }

  /** The visible messages of the filtered groups are the visible messages of
      the groups before filtering. */
  lemma {:induction false} VisibleOfFilterAll(keys: seq<JsString>, grouped: Dict<Group>, fs: FilterState)
    requires forall k :: k in keys ==> k in grouped.entries
    ensures forall k :: k in keys ==> k in FilterAll(grouped, fs).entries
    ensures SumOver(keys, FilterAll(grouped, fs).entries, VisibleCount)
         == SumOver(keys, grouped.entries, CountIn(ShownBy(fs)))
    decreases |keys|
  {
    if keys != [] {
      var init := keys[..|keys| - 1];
      assert forall k :: k in init ==> k in keys;
      VisibleOfFilterAll(init, grouped, fs);
    }
  }

  /** Nothing is displayed exactly when no group has a visible message. */
  lemma DisplayedEmpty(filtered: Dict<FilteredGroup>)
    requires WellFormed(filtered)
    ensures Displayed(filtered) == [] <==> forall k :: k in filtered.keys ==> VisibleCount(filtered.entries[k]) == 0
  {
    var values := Values(filtered);
    var shown := Displayed(filtered);
    if shown != [] {
      assert shown[0] in values;
      var i :| 0 <= i < |values| && values[i] == shown[0];
      assert filtered.keys[i] in filtered.keys;
    } else {
      forall k | k in filtered.keys ensures VisibleCount(filtered.entries[k]) == 0 {
        var i :| 0 <= i < |filtered.keys| && filtered.keys[i] == k;
        assert values[i] in values;
      }
    }
  }

  /** Nothing is displayed ("No (unfiltered) messages") exactly when the
      filter state hides every input message. */
  lemma NothingDisplayed(ms: seq<Message>, fs: FilterState)
    ensures WellFormed(FilterAll(GroupAll(ms), fs))
    ensures Displayed(FilterAll(GroupAll(ms), fs)) == [] <==> Filter(ms, ShownBy(fs)) == []
  {
    var grouped := GroupAll(ms);
    GroupAllWellFormed(ms);
    var filtered := FilterAll(grouped, fs);
    assert WellFormed(filtered);
    VisibleOfFilterAll(grouped.keys, grouped, fs);
    GroupAllConserves(ms, ShownBy(fs));
    SumOverZero(filtered.keys, filtered.entries, VisibleCount);
    DisplayedEmpty(filtered);
  }
}
