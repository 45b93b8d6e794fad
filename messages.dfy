/** The diagnostics of the Nu HTML Checker's `out=json` response, and the
    normalisation the widget applies to each before grouping: the message is
    kept as it is and gains a `theType` field, its sub-type when that is a
    non-empty string and its type otherwise. */
module Messages {
  import opened Js

  /** One element of the response's `messages` array. Absent optional fields
      are `None`; `messageType` is the JSON field `type`. */
  datatype RawMessage = RawMessage(
    messageType: JsString,
    subType: Option<JsString>,
    message: JsString,
    extract: Option<JsString>,
    firstColumn: Option<int>,
    lastColumn: int,
    lastLine: int,
    hiliteStart: int,
    hiliteLength: int)

  /** `{ ...raw, theType }`: every field of the raw message plus `theType`. */
  datatype Message = Message(raw: RawMessage, theType: JsString)

  /** JavaScript truthiness of an optional string: present and non-empty. */
  predicate Truthy(s: Option<JsString>)
  {
    s.Some? && s.value != []
  }

  /** `message.subType || message.type`. */
  function TheType(m: RawMessage): (t: JsString)
    ensures Truthy(m.subType) ==> t == m.subType.value
    ensures !Truthy(m.subType) ==> t == m.messageType
    ensures t == [] <==> !Truthy(m.subType) && m.messageType == []
  {
    if Truthy(m.subType) then m.subType.value else m.messageType
  }

  /** The mapping applied to one message; nothing of the raw message is lost. */
  function Normalize(m: RawMessage): (r: Message)
    ensures r.raw == m
    ensures Truthy(m.subType) ==> r.theType == m.subType.value
    ensures !Truthy(m.subType) ==> r.theType == m.messageType
  {
    Message(m, TheType(m))
  }

  /** `parsedRes.messages.map(...)`: one normalised message per raw message,
      in the same order. */
  function NormalizeAll(ms: seq<RawMessage>): (r: seq<Message>)
    ensures |r| == |ms|
    ensures forall i :: 0 <= i < |r| ==> r[i].raw == ms[i]
    ensures forall i :: 0 <= i < |r| ==> r[i].theType == TheType(ms[i])
  {
    seq(|ms|, i requires 0 <= i < |ms| => Normalize(ms[i]))
  }

  /** The raw messages a list of normalised ones came from. */
  function Raws(ms: seq<Message>): (r: seq<RawMessage>)
    ensures |r| == |ms|
  {
    seq(|ms|, i requires 0 <= i < |ms| => ms[i].raw)
  }

  /** Normalisation only adds a field: stripping it gives back the input. */
  lemma NormalizeAllKeepsMessages(ms: seq<RawMessage>)
    ensures Raws(NormalizeAll(ms)) == ms
  {
  }
}
