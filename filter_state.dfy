/** The user's filter state: the types and the message texts whose messages
    are hidden, the buttons that change it, and its restoration from storage.
    Hiding appends to a list without looking for the entry first; un-hiding
    removes every occurrence of the entry. */
module FilterStates {
  import opened Js
  import opened Messages

  /** `{ messages, types }`, both in the order the entries were added. */
  datatype FilterState = FilterState(messages: seq<JsString>, types: seq<JsString>)

  /** `initialFilterState`. */
  const InitialFilterState: FilterState := FilterState([], [])

  /** A message stays visible when neither its text nor its type is hidden. */
  predicate Shown(fs: FilterState, m: Message)
  {
    m.raw.message !in fs.messages && m.theType !in fs.types
  }

  /** The callback given to `messages.filter` by the filtering reduce. */
  function ShownBy(fs: FilterState): Message -> bool
  {
    m => Shown(fs, m)
  }

  /** The "Hide <type>" button of a group. */
  function HideType(fs: FilterState, t: JsString): (r: FilterState)
    ensures r.types == fs.types + [t] && r.messages == fs.messages
  {
    fs.(types := fs.types + [t])
  }

  /** The "Hide message" button of a group. */
  function HideMessage(fs: FilterState, text: JsString): (r: FilterState)
    ensures r.messages == fs.messages + [text] && r.types == fs.types
  {
    fs.(messages := fs.messages + [text])
  }

  /** A type filter chip: drops the type, wherever and however often it
      occurs, and keeps the other entries in order. */
  function UnhideType(fs: FilterState, t: JsString): (r: FilterState)
    ensures t !in r.types && r.messages == fs.messages
    ensures multiset(r.types) == multiset(fs.types)[t := 0]
    ensures IsSubsequence(r.types, fs.types)
  {
    fs.(types := RemoveAll(fs.types, t))
  }

  /** A message filter chip: drops the text, wherever and however often it
      occurs, and keeps the other entries in order. */
  function UnhideMessage(fs: FilterState, text: JsString): (r: FilterState)
    ensures text !in r.messages && r.types == fs.types
    ensures multiset(r.messages) == multiset(fs.messages)[text := 0]
    ensures IsSubsequence(r.messages, fs.messages)
  {
    fs.(messages := RemoveAll(fs.messages, text))
  }

  /** Hiding a type hides exactly the messages of that type in addition. */
  lemma HideTypeHides(fs: FilterState, t: JsString, m: Message)
    ensures Shown(HideType(fs, t), m) <==> Shown(fs, m) && m.theType != t
  {
  }

  /** Hiding a message text hides exactly the messages with that text in
      addition. */
  lemma HideMessageHides(fs: FilterState, text: JsString, m: Message)
    ensures Shown(HideMessage(fs, text), m) <==> Shown(fs, m) && m.raw.message != text
  {
  }

  /** Un-hiding a type shows again the messages of that type whose text is not
      hidden, and changes nothing for any other message. */
  lemma UnhideTypeShows(fs: FilterState, t: JsString, m: Message)
    ensures m.theType == t ==> (Shown(UnhideType(fs, t), m) <==> m.raw.message !in fs.messages)
    ensures m.theType != t ==> (Shown(UnhideType(fs, t), m) <==> Shown(fs, m))
  {
    var r := UnhideType(fs, t);
    assert m.theType in r.types <==> multiset(r.types)[m.theType] > 0;
  }

  /** Un-hiding a message text shows again the messages with that text whose
      type is not hidden, and changes nothing for any other message. */
  lemma UnhideMessageShows(fs: FilterState, text: JsString, m: Message)
    ensures m.raw.message == text ==> (Shown(UnhideMessage(fs, text), m) <==> m.theType !in fs.types)
    ensures m.raw.message != text ==> (Shown(UnhideMessage(fs, text), m) <==> Shown(fs, m))
  {
    var r := UnhideMessage(fs, text);
    assert m.raw.message in r.messages <==> multiset(r.messages)[m.raw.message] > 0;
  }

  /** Hiding is not idempotent on the state (the entry is listed twice), only
      on what is shown. */
  lemma HideTypeTwice(fs: FilterState, t: JsString, m: Message)
    ensures HideType(HideType(fs, t), t) != HideType(fs, t)
    ensures |HideType(HideType(fs, t), t).types| == |fs.types| + 2
    ensures Shown(HideType(HideType(fs, t), t), m) <==> Shown(HideType(fs, t), m)
  {
    assert |HideType(HideType(fs, t), t).types| != |HideType(fs, t).types|;
  }

  /** Un-hiding a type right after hiding it is un-hiding it alone; when the
      type was not hidden before, the state is back where it started. */
  lemma UnhideAfterHideType(fs: FilterState, t: JsString)
    ensures UnhideType(HideType(fs, t), t) == UnhideType(fs, t)
    ensures t !in fs.types ==> UnhideType(HideType(fs, t), t) == fs
  {
    RemoveAppended(fs.types, t);
    if t !in fs.types {
      RemoveAbsent(fs.types, t);
    }
  }

  /** The same for message texts. */
  lemma UnhideAfterHideMessage(fs: FilterState, text: JsString)
    ensures UnhideMessage(HideMessage(fs, text), text) == UnhideMessage(fs, text)
    ensures text !in fs.messages ==> UnhideMessage(HideMessage(fs, text), text) == fs
  {
    RemoveAppended(fs.messages, text);
    if text !in fs.messages {
      RemoveAbsent(fs.messages, text);
    }
  }

  // ---------------------------------------------------------------------
  // Restoring the stored state
  // ---------------------------------------------------------------------

  /** What `JSON.parse` makes of the stored text: a filter state, or an
      exception. */
  datatype ParseResult = Parsed(state: FilterState) | Malformed

  /** `getStoredFilterState()`: `stored` is what `localStorage.getItem`
      returned (`None` for `null`) and `parse` stands for `JSON.parse`. A
      missing or empty value and a value that does not parse give the
      initial state; anything else gives what was parsed. */
  function StoredFilterState(stored: Option<JsString>, parse: JsString -> ParseResult): (r: FilterState)
    ensures (stored.None? || stored.value == []) ==> r == InitialFilterState
    ensures stored.Some? && stored.value != [] && parse(stored.value).Malformed? ==> r == InitialFilterState
    ensures stored.Some? && stored.value != [] && parse(stored.value).Parsed? ==>
              r == parse(stored.value).state
  {
    if !Truthy(stored) then InitialFilterState
    else match parse(stored.value)
      case Parsed(state) => state
      case Malformed => InitialFilterState
  }

  /** Saving and restoring: when `parse` reads back what `serialize` wrote
      (as `JSON.parse` does with `JSON.stringify`, whose output for an object
      is never empty), the restored state is the saved one. */
  lemma StoreRoundTrip(fs: FilterState, serialize: FilterState -> JsString,
                       parse: JsString -> ParseResult)
    requires serialize(fs) != []
    requires parse(serialize(fs)) == Parsed(fs)
    ensures StoredFilterState(Some(serialize(fs)), parse) == fs
  {
  }
}
