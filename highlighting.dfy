/** Highlighting the offending fragment of a message: `highlightText` cuts a
    string in three with `substr`, and the in-context view cuts the validated
    document into lines and highlights the message's last line. */
module Highlighting {
  import opened Js
  import opened Messages

  /** The three spans `highlightText` renders: before, highlighted, after. */
  datatype Highlight = Highlight(before: JsString, marked: JsString, after: JsString)

  /** `highlightText(text, start, length)`. */
  function HighlightText(text: JsString, start: int, length: int): Highlight
  {
    Highlight(Substr(text, 0, Some(start)), Substr(text, start, Some(length)),
              Substr(text, start + length, None))
  }

  /** The text a highlight shows, spans in order. */
  function Reassembled(h: Highlight): JsString
  {
    h.before + h.marked + h.after
  }

  /** With a start and a length that are not negative, the three spans put
      back together are the text, however far they reach past its end; when
      they stay inside it, the spans are the slices before, at and after
      `[start, start + length)`; from a start inside the text, the highlighted
      span is `length` long exactly when it stays inside. */
  lemma HighlightReassembles(text: JsString, start: int, length: int)
    requires 0 <= start && 0 <= length
    ensures Reassembled(HighlightText(text, start, length)) == text
    ensures start + length <= |text| ==>
      && HighlightText(text, start, length).before == text[..start]
      && HighlightText(text, start, length).marked == text[start..start + length]
      && HighlightText(text, start, length).after == text[start + length..]
    ensures start <= |text| ==>
      (|HighlightText(text, start, length).marked| == length <==> start + length <= |text|)
  {
    var h := HighlightText(text, start, length);
    if start + length <= |text| {
      assert text == text[..start] + text[start..start + length] + text[start + length..];
    } else if start <= |text| {
      assert h.marked == text[start..];
      assert text == text[..start] + text[start..];
    } else {
      assert h.marked == [];
    }
  }

  /** A negative length highlights nothing and repeats part of the text:
      what the spans show is no longer the line. */
  lemma NegativeLengthRepeats(text: JsString, start: int, length: int)
    requires 0 <= start < |text| && length < 0 && 0 <= start + length
    ensures HighlightText(text, start, length).marked == []
    ensures |Reassembled(HighlightText(text, start, length))| == |text| + Min(start, |text|) - (start + length)
  {
  }

  // ---------------------------------------------------------------------
  // The in-context view
  // ---------------------------------------------------------------------

  /** Where the highlight starts on its line: `firstColumn - 1` when
      `firstColumn` is truthy (present and not 0), else
      `lastColumn - hiliteLength`. */
  function HighlightStart(m: RawMessage): (start: int)
    ensures m.firstColumn.Some? && m.firstColumn.value != 0 ==> start + 1 == m.firstColumn.value
    ensures (m.firstColumn.None? || m.firstColumn.value == 0) ==> start + m.hiliteLength == m.lastColumn
  {
    match m.firstColumn
    case Some(column) => if column != 0 then column - 1 else m.lastColumn - m.hiliteLength
    case None => m.lastColumn - m.hiliteLength
  }

  /** One `<pre>` of the in-context view: a line as it is, or highlighted. */
  datatype Line = Plain(text: JsString) | Marked(parts: Highlight)

  function LineText(l: Line): JsString
  {
    match l
    case Plain(text) => text
    case Marked(parts) => Reassembled(parts)
  }

  /** `validatedHtml.split('\n').map(...)` in `InContext`: the line whose
      1-based number is `lastLine` is highlighted, every other line is kept. */
  function InContext(validatedHtml: JsString, m: Message): seq<Line>
  {
    var lines := Split(validatedHtml, LineFeed);
    seq(|lines|, i requires 0 <= i < |lines| =>
      if m.raw.lastLine == i + 1
      then Marked(HighlightText(lines[i], HighlightStart(m.raw), m.raw.hiliteLength))
      else Plain(lines[i]))
  }

  /** The view has one entry per line of the document; only line `lastLine`
      is highlighted, and none when `lastLine` names no line. */
  lemma InContextLines(validatedHtml: JsString, m: Message)
    ensures var view := InContext(validatedHtml, m);
      var lines := Split(validatedHtml, LineFeed);
      && |view| == |lines| == multiset(validatedHtml)[LineFeed] + 1
      && (forall i :: 0 <= i < |view| && i + 1 != m.raw.lastLine ==> view[i] == Plain(lines[i]))
      && (1 <= m.raw.lastLine <= |lines| ==>
            view[m.raw.lastLine - 1]
            == Marked(HighlightText(lines[m.raw.lastLine - 1], HighlightStart(m.raw), m.raw.hiliteLength)))
      && (!(1 <= m.raw.lastLine <= |lines|) ==> forall i :: 0 <= i < |view| ==> view[i].Plain?)
  {
  }

  /** With a first column `c` and a highlight that fits on line `lastLine`,
      that line is cut before column `c`, after `hiliteLength` code units, and
      the part between is highlighted. */
  lemma InContextHighlightsColumns(validatedHtml: JsString, m: Message, c: int)
    requires m.raw.firstColumn == Some(c) && c >= 1 && m.raw.hiliteLength >= 0
    requires 1 <= m.raw.lastLine <= |Split(validatedHtml, LineFeed)|
    requires c - 1 + m.raw.hiliteLength <= |Split(validatedHtml, LineFeed)[m.raw.lastLine - 1]|
    ensures var line := Split(validatedHtml, LineFeed)[m.raw.lastLine - 1];
      var end := c - 1 + m.raw.hiliteLength;
      InContext(validatedHtml, m)[m.raw.lastLine - 1]
        == Marked(Highlight(line[..c - 1], line[c - 1..end], line[end..]))
  {
    var line := Split(validatedHtml, LineFeed)[m.raw.lastLine - 1];
    InContextLines(validatedHtml, m);
    HighlightReassembles(line, c - 1, m.raw.hiliteLength);
  }

  /** When the highlight's start and length are not negative, the view shows
      the whole document: its lines, joined by line feeds, are the
      document. */
  lemma {:induction false} InContextShowsDocument(validatedHtml: JsString, m: Message)
    requires HighlightStart(m.raw) >= 0 && m.raw.hiliteLength >= 0
    ensures var view := InContext(validatedHtml, m);
      && |view| >= 1
      && Join(seq(|view|, i requires 0 <= i < |view| => LineText(view[i])), LineFeed) == validatedHtml
  {
    var view := InContext(validatedHtml, m);
    var lines := Split(validatedHtml, LineFeed);
    var texts := seq(|view|, i requires 0 <= i < |view| => LineText(view[i]));
    forall i | 0 <= i < |view| ensures texts[i] == lines[i] {
      if m.raw.lastLine == i + 1 {
        HighlightReassembles(lines[i], HighlightStart(m.raw), m.raw.hiliteLength);
      }
    }
    assert texts == lines;
    JoinSplit(validatedHtml, LineFeed);
  }
}
