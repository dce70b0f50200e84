/**
 * The rich-text renderer: one forward pass over the post text that turns `###…###` into a
 * marquee header, `![url]` into an image, newlines into line breaks and everything else into
 * escaped literal text.
 */
module RichText {
  import opened Texts
  import opened Cursors

  /**
   * A piece of markup the renderer inserts verbatim. The pieces are kept symbolic so the proofs
   * never compare long literals; `Markup` gives the exact text of each.
   */
  datatype Fragment =
    | Hashes                 // "###" of a header that is not one
    | ImageOpenText          // "![" of an image that is not one
    | MarqueeOpen
    | MarqueeClose
    | LineBreak
    | ImageTag(url: Text)    // the image element for an accepted `url`

  /**
   * One call on the output content: `Html` is `AppendHtml` (inserted verbatim), `Lit` is
   * `Append` (HTML-escaped by the framework when the content is written out).
   */
  datatype Event = Html(fragment: Fragment) | Lit(text: Text)

  /** "###": opens and closes a header. */
  const HeaderMarker: Text := [0x23, 0x23, 0x23]
  /** "![": opens an image. */
  const ImageOpen: Text := [0x21, 0x5B]
  /** "]": closes an image. */
  const ImageClose: Text := [0x5D]

  /** The text of a fragment, as `AppendHtml` receives it. */
  function Markup(f: Fragment): Text
  {
    match f
    case Hashes => HeaderMarker
    case ImageOpenText => ImageOpen
    case MarqueeOpen => Units("<h2 class=\"display-6\"><marquee>")
    case MarqueeClose => Units("</marquee></h2>")
    case LineBreak => Units("<br/>")
    case ImageTag(url) => Units("<img alt=\"Attached image\" src=\"") + url + Units("\"/>")
  }

  /**
   * The content the events add up to, given the encoder `escape` that the framework applies
   * to literal text: markup is copied as it is, literal text is escaped.
   */
  function Written(events: seq<Event>, escape: Text -> Text): Text
  {
    if events == [] then []
    else
      var first := match events[0] case Html(f) => Markup(f) case Lit(s) => escape(s);
      first + Written(events[1..], escape)
  }

  /** The offset after at most one newline at offset `i`. */
  function SkipNewLine(t: Text, i: nat): (j: nat)
    requires i <= |t|
    ensures i <= j <= |t|
  {
    i + NewLineLength(t, i)
  }

  /**
   * The header branch at a "###" at offset `i`: the span up to the next "###" becomes a
   * marquee; an empty span or a missing closing marker leaves the opening marker as it is.
   */
  ghost function HeaderToken(t: Text, i: nat): (step: (seq<Event>, nat))
    requires OccursAt(t, i, HeaderMarker)
    ensures i < step.1 <= |t|
  {
    HeaderResult(t, i, Skipped(t, i + 3, HeaderMarker))
  }

  /** The header branch once the search for the closing "###" has skipped `n` units. */
  ghost function HeaderResult(t: Text, i: nat, n: nat): (step: (seq<Event>, nat))
    requires i + 3 + n <= |t| && (n > 0 ==> i + 3 + n + 3 <= |t|)
    ensures i + 3 <= step.1 <= |t|
  {
    if n == 0 then
      ([Html(Hashes)], i + 3)
    else
      ([Html(MarqueeOpen), Lit(t[i + 3..i + 3 + n]), Html(MarqueeClose)], SkipNewLine(t, i + 3 + n + 3))
  }

  /**
   * The image branch at a "![" at offset `i`: the span up to the next "]" is the URL. An accepted
   * URL becomes an image element; otherwise "![" and the span are emitted and the scan resumes on
   * the "]", if there is one. `wellFormed` stands for
   * `Uri.IsWellFormedUriString(url, UriKind.RelativeOrAbsolute)`.
   */
  ghost function ImageToken(t: Text, i: nat, wellFormed: Text -> bool): (step: (seq<Event>, nat))
    requires OccursAt(t, i, ImageOpen)
    ensures i < step.1 <= |t|
  {
    ImageResult(t, i, wellFormed, Skipped(t, i + 2, ImageClose))
  }

  /** The image branch once the search for the closing "]" has skipped `n` units. */
  ghost function ImageResult(t: Text, i: nat, wellFormed: Text -> bool, n: nat): (step: (seq<Event>, nat))
    requires i + 2 + n <= |t| && (n > 0 ==> i + 2 + n + 1 <= |t|)
    ensures i + 2 <= step.1 <= |t|
  {
    var url := t[i + 2..i + 2 + n];
    if n == 0 || !wellFormed(url) then
      ([Html(ImageOpenText), Lit(url)], i + 2 + n)
    else
      ([Html(ImageTag(url))], SkipNewLine(t, i + 2 + n + 1))
  }

  /**
   * One iteration of the render loop at offset `i` of `t`: the events it emits and the offset
   * it resumes at. The branches are tried in order: header, image, newline, single unit.
   */
  ghost function Token(t: Text, i: nat, wellFormed: Text -> bool): (step: (seq<Event>, nat))
    requires i < |t|
    ensures i < step.1 <= |t|
  {
    if OccursAt(t, i, HeaderMarker) then HeaderToken(t, i)
    else if OccursAt(t, i, ImageOpen) then ImageToken(t, i, wellFormed)
    else if NewLineLength(t, i) > 0 then ([Html(LineBreak)], SkipNewLine(t, i))
    else ([Lit([t[i]])], i + 1)
  }

  /**
   * The events the renderer emits for `t` from offset `i` on. A non-recursive name for `Scan`,
   * so that a goal about it does not unfold the recursion unless a proof asks for it.
   */
  ghost function RenderFrom(t: Text, i: nat, wellFormed: Text -> bool): seq<Event>
    requires i <= |t|
  {
    Scan(t, i, wellFormed)
  }

  /**
   * `RenderFrom`, as the recursion it is: the loop ends at the end of the text; otherwise one
   * iteration runs and the rest follows.
   */
  ghost function Scan(t: Text, i: nat, wellFormed: Text -> bool): seq<Event>
    requires i <= |t|
    decreases |t| - i, 1
  {
    if i == |t| then [] else Resume(t, i, wellFormed)
  }

  /** The events of the iteration that starts at offset `i`, then the events from where it resumes. */
  ghost function Resume(t: Text, i: nat, wellFormed: Text -> bool): seq<Event>
    requires i < |t|
    decreases |t| - i, 0
  {
    var step := Token(t, i, wellFormed);
    step.0 + Scan(t, step.1, wellFormed)
  }

  /** At the end of the text nothing more is emitted. */
  lemma RenderFromEnd(t: Text, wellFormed: Text -> bool)
    ensures RenderFrom(t, |t|, wellFormed) == []
  {
  }

  /** Unfolds one iteration of the loop. */
  lemma RenderFromStep(t: Text, i: nat, wellFormed: Text -> bool)
    requires i < |t|
    ensures RenderFrom(t, i, wellFormed) ==
      Token(t, i, wellFormed).0 + RenderFrom(t, Token(t, i, wellFormed).1, wellFormed)
  {
    assert Scan(t, i, wellFormed) == Resume(t, i, wellFormed);
  }

  /** The events the renderer emits for the post text `t`. */
  ghost function Render(t: Text, wellFormed: Text -> bool): seq<Event>
  {
    RenderFrom(t, 0, wellFormed)
  }

  /** An empty or unterminated header: "###" is emitted verbatim and the scan resumes right after it. */
  lemma PlainMarkerToken(t: Text, i: nat)
    requires OccursAt(t, i, HeaderMarker) && SkipsTo(t, i + 3, HeaderMarker, 0)
    ensures HeaderToken(t, i) == ([Html(Hashes)], i + 3)
  {
    SkipsToUnique(t, i + 3, HeaderMarker, 0, Skipped(t, i + 3, HeaderMarker));
  }

  /** A header with a non-empty span becomes a marquee; the closing marker and one newline after it are dropped. */
  lemma MarqueeToken(t: Text, i: nat, n: nat)
    requires OccursAt(t, i, HeaderMarker) && SkipsTo(t, i + 3, HeaderMarker, n) && n > 0
    ensures i + 3 + n + 3 <= |t|
    ensures HeaderToken(t, i) ==
      ([Html(MarqueeOpen), Lit(t[i + 3..i + 3 + n]), Html(MarqueeClose)], SkipNewLine(t, i + 3 + n + 3))
  {
    SkipsToUnique(t, i + 3, HeaderMarker, n, Skipped(t, i + 3, HeaderMarker));
  }

  /** A rejected image: "![" and the span are emitted and the scan resumes at the end of the span. */
  lemma RejectedImageToken(t: Text, i: nat, wellFormed: Text -> bool, n: nat)
    requires OccursAt(t, i, ImageOpen) && SkipsTo(t, i + 2, ImageClose, n)
    requires n == 0 || !wellFormed(t[i + 2..i + 2 + n])
    ensures ImageToken(t, i, wellFormed) == ([Html(ImageOpenText), Lit(t[i + 2..i + 2 + n])], i + 2 + n)
  {
    SkipsToUnique(t, i + 2, ImageClose, n, Skipped(t, i + 2, ImageClose));
  }

  /** An accepted image becomes an image element; the "]" and one newline after it are dropped. */
  lemma AcceptedImageToken(t: Text, i: nat, wellFormed: Text -> bool, n: nat)
    requires OccursAt(t, i, ImageOpen) && SkipsTo(t, i + 2, ImageClose, n)
    requires n > 0 && wellFormed(t[i + 2..i + 2 + n])
    ensures i + 2 + n + 1 <= |t|
    ensures ImageToken(t, i, wellFormed) == ([Html(ImageTag(t[i + 2..i + 2 + n]))], SkipNewLine(t, i + 2 + n + 1))
  {
    SkipsToUnique(t, i + 2, ImageClose, n, Skipped(t, i + 2, ImageClose));
  }

  /** The body of the header branch, entered with the cursor just past an opening "###". */
  method HeaderBranch(cursor: Cursor) returns (emitted: seq<Event>)
    requires cursor.Valid() && 3 <= cursor.index && OccursAt(cursor.text, cursor.index - 3, HeaderMarker)
    modifies cursor
    ensures cursor.Valid()
    ensures (emitted, cursor.index) == HeaderToken(cursor.text, old(cursor.index) - 3)
  {
    ghost var i := cursor.index - 3;
    var content := cursor.ConsumeUntil(HeaderMarker);
    if content == [] {
      PlainMarkerToken(cursor.text, i);
      emitted := [Html(Hashes)];
    } else {
      MarqueeToken(cursor.text, i, |content|);
      emitted := [Html(MarqueeOpen), Lit(content), Html(MarqueeClose)];
      cursor.Advance(3);
      ghost var j := cursor.index;
      var _ := cursor.TryConsumeNewLine();
      assert cursor.index == SkipNewLine(cursor.text, j);
    }
  }

  /** The body of the image branch, entered with the cursor just past an opening "![". */
  method ImageBranch(cursor: Cursor, wellFormed: Text -> bool) returns (emitted: seq<Event>)
    requires cursor.Valid() && 2 <= cursor.index && OccursAt(cursor.text, cursor.index - 2, ImageOpen)
    modifies cursor
    ensures cursor.Valid()
    ensures (emitted, cursor.index) == ImageToken(cursor.text, old(cursor.index) - 2, wellFormed)
  {
    ghost var i := cursor.index - 2;
    var url := cursor.ConsumeUntil(ImageClose);
    if |url| == 0 || !wellFormed(url) {
      RejectedImageToken(cursor.text, i, wellFormed, |url|);
      emitted := [Html(ImageOpenText), Lit(url)];
    } else {
      AcceptedImageToken(cursor.text, i, wellFormed, |url|);
      emitted := [Html(ImageTag(url))];
      cursor.Advance(1);
      ghost var j := cursor.index;
      var _ := cursor.TryConsumeNewLine();
      assert cursor.index == SkipNewLine(cursor.text, j);
    }
  }

  /**
   * One pass of the render loop: tries the branches in the order of the loop body and leaves
   * the cursor where the next pass starts.
   */
  method Step(cursor: Cursor, wellFormed: Text -> bool) returns (emitted: seq<Event>)
    requires cursor.Valid() && !cursor.IsDone()
    modifies cursor
    ensures cursor.Valid() && old(cursor.index) < cursor.index
    ensures (emitted, cursor.index) == Token(cursor.text, old(cursor.index), wellFormed)
  {
    var header := cursor.TryConsume(HeaderMarker);
    if header {
      emitted := HeaderBranch(cursor);
      return;
    }
    var image := cursor.TryConsume(ImageOpen);
    if image {
      emitted := ImageBranch(cursor, wellFormed);
      return;
    }
    var newLine := cursor.TryConsumeNewLine();
    if newLine {
      emitted := [Html(LineBreak)];
    } else {
      emitted := [Lit([cursor.CurrentChar()])];
      cursor.Advance(1);
    }
  }

  /** The render loop of the tag helper, driving a `Cursor` over `text`. */
  method Process(text: Text, wellFormed: Text -> bool) returns (events: seq<Event>)
    ensures events == Render(text, wellFormed)
  {
    var cursor := new Cursor(text);
    events := [];
    while !cursor.IsDone()
      invariant cursor.Valid() && cursor.text == text
      invariant events + RenderFrom(text, cursor.index, wellFormed) == Render(text, wellFormed)
      decreases |text| - cursor.index
    {
      ghost var before := events;
      ghost var i := cursor.index;
      var emitted := Step(cursor, wellFormed);
      events := events + emitted;
      RenderFromStep(text, i, wellFormed);
      assert RenderFrom(text, i, wellFormed) == emitted + RenderFrom(text, cursor.index, wellFormed);
      assert events + RenderFrom(text, cursor.index, wellFormed) == before + (emitted + RenderFrom(text, cursor.index, wellFormed));
    }
    RenderFromEnd(text, wellFormed);
  }
}
