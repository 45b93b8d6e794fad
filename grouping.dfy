/** Grouping of normalised messages by the key `theType + message`. The key is
    the plain concatenation of the two strings, so two different (type,
    message) pairs whose concatenations agree share one group. */
module Grouping {
  import opened Js
  import opened Messages

  /** `message.theType + message.message`. */
  function GroupKey(m: Message): JsString
  {
    m.theType + m.raw.message
  }

  /** The test "has group key `k`", as a JavaScript predicate. */
  function HasKey(k: JsString): Message -> bool
  {
    m => GroupKey(m) == k
  }

  /** `{ theType, message, messages }`. */
  datatype Group = Group(theType: JsString, message: JsString, messages: seq<Message>)

  /** One step of the reduce: the group under the message's key, created from
      this message when the key is new, gets the message appended. */
  function AddToGroup(grouped: Dict<Group>, m: Message): Dict<Group>
  {
    var key := GroupKey(m);
    var group := if key in grouped.entries then grouped.entries[key]
                 else Group(m.theType, m.raw.message, []);
    Put(grouped, key, group.(messages := group.messages + [m]))
  }

  /** The dictionary the reduce has built after the messages `ms`. */
  function GroupAll(ms: seq<Message>): Dict<Group>
    decreases |ms|
  {
    if ms == [] then EmptyDict()
    else AddToGroup(GroupAll(ms[..|ms| - 1]), ms[|ms| - 1])
  }

  /** The messages stored under `k`, none when there is no such group. */
  function MessagesUnder(grouped: Dict<Group>, k: JsString): seq<Message>
  {
    if k in grouped.entries then grouped.entries[k].messages else []
  }

  /** The keys of the messages in `ms`. */
  function KeysOf(ms: seq<Message>): set<JsString>
  {
    set i | 0 <= i < |ms| :: GroupKey(ms[i])
  }

  /** Each group is stored under its own key, is not empty, and takes its
      `theType` and `message` from its first message. */
  predicate GroupsConsistent(grouped: Dict<Group>)
  {
    forall k :: k in grouped.entries ==>
      var g := grouped.entries[k];
      && g.messages != []
      && g.theType == g.messages[0].theType
      && g.message == g.messages[0].raw.message
      && g.theType + g.message == k
  }

  /** `parsedRes.messages.map(...).reduce(...)`, with the dictionary updated
      in place. The group object stays shared between the dictionary and
      `messageGroup`, so appending to it is writing it back under its key. */
  method GroupMessages(ms: seq<Message>) returns (grouped: Dict<Group>)
    ensures grouped == GroupAll(ms)
    ensures WellFormed(grouped) && GroupsConsistent(grouped)
    ensures forall k :: MessagesUnder(grouped, k) == Filter(ms, HasKey(k))
    ensures forall i, j :: 0 <= i < j < |grouped.keys| ==>
              FirstIndex(ms, grouped.keys[i]) < FirstIndex(ms, grouped.keys[j])
  {
    grouped := EmptyDict();
    var i := 0;
    while i < |ms|
      invariant 0 <= i <= |ms|
      invariant grouped == GroupAll(ms[..i])
    {
      var message := ms[i];
      var key := message.theType + message.raw.message;
      var messageGroup := if key in grouped.entries then grouped.entries[key]
                          else Group(message.theType, message.raw.message, []);
      messageGroup := messageGroup.(messages := messageGroup.messages + [message]);
      grouped := Put(grouped, key, messageGroup);
      assert ms[..i + 1][..i] == ms[..i];
      i := i + 1;
    }
    assert ms[..i] == ms;
    GroupAllWellFormed(ms);
    GroupAllContents(ms);
    GroupAllFirstArrival(ms);
  }

  /** The grouped dictionary lists each key once and each group is consistent
      with its key and its first message. */
  lemma {:induction false} GroupAllWellFormed(ms: seq<Message>)
    ensures WellFormed(GroupAll(ms)) && GroupsConsistent(GroupAll(ms))
    decreases |ms|
  {
    if ms != [] {
      var init := ms[..|ms| - 1];
      GroupAllWellFormed(init);
      var g := GroupAll(init);
      var m := ms[|ms| - 1];
      var key := GroupKey(m);
      var r := AddToGroup(g, m);
      forall k | k in r.entries
        ensures var h := r.entries[k];
          h.messages != [] && h.theType == h.messages[0].theType &&
          h.message == h.messages[0].raw.message && h.theType + h.message == k
      {
        if k == key && key in g.entries {
          var old_ := g.entries[k];
          assert r.entries[k].messages == old_.messages + [m];
        }
      }
    }
  }

  /** One reduce step appends the message to its own key's group only. */
  lemma AddToGroupUnder(grouped: Dict<Group>, m: Message, k: JsString)
    ensures MessagesUnder(AddToGroup(grouped, m), k)
         == MessagesUnder(grouped, k) + Filter([m], HasKey(k))
  {
    assert [m][1..] == [];
  }

  /** Each group holds exactly the input messages with its key, in input
      order. */
  lemma {:induction false} GroupAllContents(ms: seq<Message>)
    ensures forall k :: MessagesUnder(GroupAll(ms), k) == Filter(ms, HasKey(k))
    decreases |ms|
  {
    if ms != [] {
      var init := ms[..|ms| - 1];
      var m := ms[|ms| - 1];
      assert ms == init + [m];
      GroupAllContents(init);
      forall k ensures MessagesUnder(GroupAll(ms), k) == Filter(ms, HasKey(k)) {
        AddToGroupUnder(GroupAll(init), m, k);
        FilterAppend(init, [m], HasKey(k));
      }
    }
  }

  /** A key has a group exactly when some input message has that key. */
  lemma GroupAllKeys(ms: seq<Message>)
    ensures forall k :: k in GroupAll(ms).entries <==> k in KeysOf(ms)
  {
    GroupAllContents(ms);
    GroupAllWellFormed(ms);
    forall k ensures k in GroupAll(ms).entries <==> k in KeysOf(ms) {
      var under := Filter(ms, HasKey(k));
      FilterMembers(ms, HasKey(k));
      if k in KeysOf(ms) {
        var i :| 0 <= i < |ms| && GroupKey(ms[i]) == k;
        assert ms[i] in ms;
        assert ms[i] in under;
      }
      if k in GroupAll(ms).entries {
        assert under != [];
        assert under[0] in under;
        assert GroupKey(under[0]) == k;
        var i :| 0 <= i < |ms| && ms[i] == under[0];
      }
    }
  }

  /** The index of the first message with key `k`; `|ms|` when there is
      none. */
  function FirstIndex(ms: seq<Message>, k: JsString): (n: nat)
    ensures n <= |ms|
    ensures n < |ms| ==> GroupKey(ms[n]) == k
    ensures forall p :: 0 <= p < n ==> GroupKey(ms[p]) != k
  {
    if ms == [] then 0
    else if GroupKey(ms[0]) == k then 0
    else 1 + FirstIndex(ms[1..], k)
  }

  /** Appending a message does not move a key's first index when the key
      already occurs; otherwise the new message is its first occurrence or
      there is still none. */
  lemma {:induction false} FirstIndexAppend(ms: seq<Message>, m: Message, k: JsString)
    ensures FirstIndex(ms + [m], k)
         == if FirstIndex(ms, k) < |ms| then FirstIndex(ms, k)
            else if GroupKey(m) == k then |ms| else |ms| + 1
    decreases |ms|
  {
    if ms != [] {
      assert (ms + [m])[1..] == ms[1..] + [m];
      FirstIndexAppend(ms[1..], m, k);
    }
  }

  /** Every key of `keys` has a first message in `ms`, and the keys are
      listed in the order of their first messages. */
  predicate InArrivalOrder(keys: seq<JsString>, ms: seq<Message>)
  {
    && (forall k :: k in keys ==> FirstIndex(ms, k) < |ms|)
    && (forall i, j :: 0 <= i < j < |keys| ==> FirstIndex(ms, keys[i]) < FirstIndex(ms, keys[j]))
  }

  /** Appending a message keeps keys that already had a first message in
      order. */
  lemma ArrivalOrderKept(keys: seq<JsString>, ms: seq<Message>, m: Message)
    requires InArrivalOrder(keys, ms)
    ensures InArrivalOrder(keys, ms + [m])
    ensures forall k :: k in keys ==> FirstIndex(ms + [m], k) == FirstIndex(ms, k)
  {
    forall k | k in keys ensures FirstIndex(ms + [m], k) == FirstIndex(ms, k) {
      FirstIndexAppend(ms, m, k);
    }
  }

  /** A message whose key had no message before comes after every listed
      key. */
  lemma ArrivalOrderExtended(keys: seq<JsString>, ms: seq<Message>, m: Message)
    requires InArrivalOrder(keys, ms)
    requires FirstIndex(ms, GroupKey(m)) == |ms|
    ensures InArrivalOrder(keys + [GroupKey(m)], ms + [m])
  {
    var key := GroupKey(m);
    var after := keys + [key];
    ArrivalOrderKept(keys, ms, m);
    FirstIndexAppend(ms, m, key);
    forall i, j | 0 <= i < j < |after|
      ensures FirstIndex(ms + [m], after[i]) < FirstIndex(ms + [m], after[j])
    {
      assert after[i] == keys[i] && after[i] in keys;
      if j < |keys| {
        assert after[j] == keys[j];
      }
    }
  }

  /** Groups come in the order their first message arrives, and each group's
      key has a first message. */
  lemma {:induction false} GroupAllFirstArrival(ms: seq<Message>)
    ensures forall k :: k in GroupAll(ms).keys ==> FirstIndex(ms, k) < |ms|
    ensures forall i, j :: 0 <= i < j < |GroupAll(ms).keys| ==>
              FirstIndex(ms, GroupAll(ms).keys[i]) < FirstIndex(ms, GroupAll(ms).keys[j])
    decreases |ms|
  {
    if ms != [] {
      var init := ms[..|ms| - 1];
      var m := ms[|ms| - 1];
      assert ms == init + [m];
      GroupAllFirstArrival(init);
      var before := GroupAll(init).keys;
      var key := GroupKey(m);
      if key in GroupAll(init).entries {
        ArrivalOrderKept(before, init, m);
      } else {
        NewKeyFirstIndex(init, key);
        ArrivalOrderExtended(before, init, m);
      }
    }
  }

  /** A key without a group has no message yet. */
  lemma NewKeyFirstIndex(ms: seq<Message>, k: JsString)
    requires k !in GroupAll(ms).entries
    ensures FirstIndex(ms, k) == |ms|
  {
    GroupAllKeys(ms);
    assert forall p :: 0 <= p < |ms| ==> GroupKey(ms[p]) in KeysOf(ms);
  }

  /** A message lands in the group of its own key and in no other. */
  lemma MessageInOwnGroup(ms: seq<Message>, i: nat, k: JsString)
    requires i < |ms|
    ensures ms[i] in MessagesUnder(GroupAll(ms), k) <==> GroupKey(ms[i]) == k
  {
    GroupAllContents(ms);
    FilterMembers(ms, HasKey(k));
    assert ms[i] in ms;
  }

  /** There is one group per distinct key of the input. */
  lemma GroupCount(ms: seq<Message>)
    ensures |GroupAll(ms).keys| == |KeysOf(ms)|
  {
    GroupAllWellFormed(ms);
    GroupAllKeys(ms);
    var keys := GroupAll(ms).keys;
    assert forall k :: k in keys <==> k in KeysOf(ms);
    DistinctLength(keys, KeysOf(ms));
  }

  /** A sequence without repetitions is as long as the set of its elements. */
  lemma {:induction false} DistinctLength(keys: seq<JsString>, s: set<JsString>)
    requires forall i, j :: 0 <= i < j < |keys| ==> keys[i] != keys[j]
    requires forall k :: k in keys <==> k in s
    ensures |keys| == |s|
    decreases |keys|
  {
    if keys != [] {
      var last := keys[|keys| - 1];
      var init := keys[..|keys| - 1];
      assert last !in init;
      assert forall k :: k in init <==> k in s - {last} by {
        assert keys == init + [last];
      }
      DistinctLength(init, s - {last});
    }
  }

  /** Counting a class of messages group by group, over the grouped
      dictionary's keys, counts it over the whole input: no message is lost
      or counted twice. */
  lemma {:induction false} GroupAllConserves(ms: seq<Message>, p: Message -> bool)
    ensures forall k :: k in GroupAll(ms).keys ==> k in GroupAll(ms).entries
    ensures SumOver(GroupAll(ms).keys, GroupAll(ms).entries, CountIn(p)) == |Filter(ms, p)|
    decreases |ms|
  {
    GroupAllWellFormed(ms);
    if ms != [] {
      var init := ms[..|ms| - 1];
      var m := ms[|ms| - 1];
      assert ms == init + [m];
      FilterAppend(init, [m], p);
      GroupAllConserves(init, p);
      GroupAllWellFormed(init);
      AddToGroupCount(GroupAll(init), m, p);
    }
  }

  /** One reduce step adds the new message to the count and nothing else. */
  lemma AddToGroupCount(g: Dict<Group>, m: Message, p: Message -> bool)
    requires WellFormed(g)
    ensures WellFormed(AddToGroup(g, m))
    ensures SumOver(AddToGroup(g, m).keys, AddToGroup(g, m).entries, CountIn(p))
         == SumOver(g.keys, g.entries, CountIn(p)) + |Filter([m], p)|
  {
    var key := GroupKey(m);
    var w := CountIn(p);
    var r := AddToGroup(g, m);
    if key in g.entries {
      var grp := g.entries[key];
      var grp' := grp.(messages := grp.messages + [m]);
      assert r.keys == g.keys && r.entries == g.entries[key := grp'];
      FilterAppend(grp.messages, [m], p);
      assert w(grp') == w(grp) + |Filter([m], p)|;
      SumOverUpdate(g.keys, g.entries, key, grp', w);
    } else {
      var grp' := Group(m.theType, m.raw.message, [m]);
      assert [] + [m] == [m];
      assert r.keys == g.keys + [key] && r.entries == g.entries[key := grp'];
      assert r.keys[..|r.keys| - 1] == g.keys;
      assert w(grp') == |Filter([m], p)|;
      SumOverOther(g.keys, g.entries, key, grp', w);
    }
  }

  /** The number of a group's messages that satisfy `p`. */
  function CountIn(p: Message -> bool): Group -> int
  {
    (g: Group) => |Filter(g.messages, p)|
  }

  /** The number of messages in a group. */
  function GroupSize(g: Group): int
  {
    |g.messages|
  }

  /** Together the groups hold as many messages as the input. */
  lemma GroupSizesSum(ms: seq<Message>)
    ensures forall k :: k in GroupAll(ms).keys ==> k in GroupAll(ms).entries
    ensures SumOver(GroupAll(ms).keys, GroupAll(ms).entries, GroupSize) == |ms|
  {
    var grouped := GroupAll(ms);
    GroupAllConserves(ms, Always());
    FilterTrue(ms, Always());
    forall k | k in grouped.keys
      ensures GroupSize(grouped.entries[k]) == CountIn(Always())(grouped.entries[k])
    {
      FilterTrue(grouped.entries[k].messages, Always());
    }
    SumOverSameWeights(grouped.keys, grouped.entries, GroupSize, CountIn(Always()));
  }
}
