/** Worked examples on concrete messages: the group-key collision the
    separator-free key allows, two errors and an info grouped and filtered,
    and a highlighted fragment in context. */
module Scenarios {
  import opened Js
  import opened Messages
  import opened Grouping
  import opened FilterStates
  import opened Filtering
  import opened Highlighting

  /** A message with only a type and a text. */
  function Simple(t: JsString, text: JsString): RawMessage
  {
    RawMessage(t, None, text, None, None, 0, 0, 0, 0)
  }

  /** Two messages whose keys agree share one group, which keeps the first
      message's type and text, even when their (type, text) pairs differ. */
  lemma {:induction false} SameKeySameGroup(a: Message, b: Message)
    requires GroupKey(a) == GroupKey(b)
    ensures var grouped := GroupAll([a, b]);
      && grouped.keys == [GroupKey(a)]
      && GroupKey(a) in grouped.entries
      && grouped.entries[GroupKey(a)] == Group(a.theType, a.raw.message, [a, b])
  {
    var key := GroupKey(a);
    assert [a, b][..1] == [a];
    assert [a][..0] == [];
    var first := GroupAll([a]);
    assert GroupAll([a][..0]) == EmptyDict();
    assert first == AddToGroup(EmptyDict(), a);
    assert [] + [a] == [a] && [] + [key] == [key];
    assert first == Dict([key], map[key := Group(a.theType, a.raw.message, [a])]);
    assert GroupAll([a, b]) == AddToGroup(first, b);
  }

  /** Type "A" with text "BC" and type "AB" with text "C" are different pairs
      with the same key "ABC". */
  lemma KeyCollision()
    ensures var a := Normalize(Simple(Units("A"), Units("BC")));
      var b := Normalize(Simple(Units("AB"), Units("C")));
      && (a.theType, a.raw.message) != (b.theType, b.raw.message)
      && GroupKey(a) == GroupKey(b) == Units("ABC")
      && GroupAll([a, b]).keys == [Units("ABC")]
  {
    var a := Normalize(Simple(Units("A"), Units("BC")));
    var b := Normalize(Simple(Units("AB"), Units("C")));
    assert |a.theType| != |b.theType|;
    SameKeySameGroup(a, b);
  }

  /** Two equal "error: Bad tag"-like messages and one "info: FYI"-like
      message with another key make two groups in that order, the first
      holding both errors. */
  lemma {:induction false} TwoErrorsAndAnInfoGrouped(e: Message, i: Message)
    requires GroupKey(e) != GroupKey(i)
    ensures GroupAll([e, e, i]) == Dict([GroupKey(e), GroupKey(i)],
      map[GroupKey(e) := Group(e.theType, e.raw.message, [e, e]),
          GroupKey(i) := Group(i.theType, i.raw.message, [i])])
  {
    var errorKey, infoKey := GroupKey(e), GroupKey(i);
    var ms := [e, e, i];
    assert ms[..2] == [e, e] && [e, e][..1] == [e] && [e][..0] == [];
    var g1 := GroupAll([e]);
    assert GroupAll([e][..0]) == EmptyDict();
    assert g1 == AddToGroup(EmptyDict(), e);
    assert [] + [e] == [e] && [] + [errorKey] == [errorKey];
    assert g1 == Dict([errorKey], map[errorKey := Group(e.theType, e.raw.message, [e])]);
    var g2 := GroupAll([e, e]);
    assert g2 == AddToGroup(g1, e);
    assert [e] + [e] == [e, e];
    assert g2 == Dict([errorKey], map[errorKey := Group(e.theType, e.raw.message, [e, e])]);
    assert GroupAll(ms) == AddToGroup(g2, i);
    assert [] + [i] == [i];
  }

  /** Hiding the errors' type empties the errors' group, counting both as
      hidden, and leaves the other group whole. */
  lemma TwoErrorsAndAnInfoEntries(e: Message, i: Message)
    requires e.theType != i.theType
    ensures var fs := HideType(InitialFilterState, e.theType);
      && FilterGroup(Group(e.theType, e.raw.message, [e, e]), fs)
         == FilteredGroup(e.theType, e.raw.message, [e, e], [], 2)
      && FilterGroup(Group(i.theType, i.raw.message, [i]), fs)
         == FilteredGroup(i.theType, i.raw.message, [i], [i], 0)
  {
    var fs := HideType(InitialFilterState, e.theType);
    assert !ShownBy(fs)(e) && ShownBy(fs)(i);
    assert [e, e][1..] == [e] && [e][1..] == [] && [i][1..] == [];
    assert Filter([e], ShownBy(fs)) == [];
    assert Filter([e, e], ShownBy(fs)) == [];
    assert Filter([i], ShownBy(fs)) == [i];
  }

  /** Of two groups, only the second has a visible message: only it is
      displayed. */
  lemma OnlySecondDisplayed(k1: JsString, k2: JsString, g1: FilteredGroup, g2: FilteredGroup)
    requires k1 != k2 && g1.filteredMessages == [] && g2.filteredMessages != []
    ensures WellFormed(Dict([k1, k2], map[k1 := g1, k2 := g2]))
    ensures Displayed(Dict([k1, k2], map[k1 := g1, k2 := g2])) == [g2]
  {
    var d := Dict([k1, k2], map[k1 := g1, k2 := g2]);
    var values := Values(d);
    assert values == [g1, g2];
    assert values[1..] == [g2] && values[1..][1..] == [];
  }

  /** Hiding the errors' type in those groups hides both errors, leaves the
      other group alone, and only the other group is displayed. */
  lemma TwoErrorsAndAnInfoFiltered(e: Message, i: Message)
    requires e.theType != i.theType
    requires GroupKey(e) != GroupKey(i)
    ensures var fs := HideType(InitialFilterState, e.theType);
      var filtered := FilterAll(GroupAll([e, e, i]), fs);
      && filtered == Dict([GroupKey(e), GroupKey(i)],
           map[GroupKey(e) := FilteredGroup(e.theType, e.raw.message, [e, e], [], 2),
               GroupKey(i) := FilteredGroup(i.theType, i.raw.message, [i], [i], 0)])
      && WellFormed(filtered)
      && Displayed(filtered) == [FilteredGroup(i.theType, i.raw.message, [i], [i], 0)]
  {
    var errorKey, infoKey := GroupKey(e), GroupKey(i);
    var fs := HideType(InitialFilterState, e.theType);
    TwoErrorsAndAnInfoGrouped(e, i);
    TwoErrorsAndAnInfoEntries(e, i);
    var errors := FilteredGroup(e.theType, e.raw.message, [e, e], [], 2);
    var infos := FilteredGroup(i.theType, i.raw.message, [i], [i], 0);
    var filtered := FilterAll(GroupAll([e, e, i]), fs);
    assert filtered.entries == map[errorKey := errors, infoKey := infos];
    OnlySecondDisplayed(errorKey, infoKey, errors, infos);
  }

  /** A one-line document `before + marked + after` with a message on line 1
      whose first column is just after `before` and whose highlight is as long
      as `marked` (as for `<div><spn></div>` with an error at column 6, four
      code units long) is shown as one line with exactly `marked`
      highlighted. */
  lemma OneLineHighlight(before: JsString, marked: JsString, after: JsString, m: Message)
    requires LineFeed !in before + marked + after
    requires m.raw.firstColumn == Some(|before| + 1)
    requires m.raw.hiliteLength == |marked| && m.raw.lastLine == 1
    ensures InContext(before + marked + after, m) == [Marked(Highlight(before, marked, after))]
  {
    var doc := before + marked + after;
    assert Split(doc, LineFeed) == [doc] by {
      SplitJoin([doc], LineFeed);
    }
    HighlightReassembles(doc, |before|, |marked|);
    assert doc[..|before|] == before;
    assert doc[|before|..|before| + |marked|] == marked;
    assert doc[|before| + |marked|..] == after;
  }
}
