/**
 * The renderer's documented behaviour on the posts of its unit tests, read off the general
 * properties. HTML encoding stays abstract: each lemma names only what it needs the encoder
 * to do to the literal parts of its post.
 */
module RichTextExamples {
  import opened Texts
  import opened RichText
  import opened RichTextProperties

  /** The expected content of a marquee header around the (already encoded) `content`. */
  function HtmlMarquee(content: Text): Text
  {
    Units("<h2 class=\"display-6\"><marquee>") + content + Units("</marquee></h2>")
  }

  /** The expected content of an image element for `url`. */
  function HtmlImage(url: Text): Text
  {
    Units("<img alt=\"Attached image\" src=\"") + url + Units("\"/>")
  }

  /** No unit of `a` starts a header, an image or a newline, or closes an image. */
  predicate PlainText(a: Text)
  {
    forall k :: 0 <= k < |a| ==> a[k] != LF && a[k] != CR && a[k] != 0x23 && a[k] != 0x21 && a[k] != 0x5D
  }

  // The words of the test posts.
  const One: Text := Units("one")
  const Two: Text := Units("two")
  const SomeText: Text := Units("some text")
  const Marquee: Text := Units("Marquee")
  const MarqueeLt3: Text := Units("Marquee<3")
  /** "Marquee<3" as the HTML encoder writes it. */
  const MarqueeLt3Encoded: Text := Units("Marquee&lt;3")
  const HeadingTag: Text := Units("<h1>test</h1>")
  /** "<h1>test</h1>" as the HTML encoder writes it. */
  const HeadingTagEncoded: Text := Units("&lt;h1&gt;test&lt;/h1&gt;")
  // The pieces of the heading post, between and around its angle brackets.
  const LessThan: Text := Units("<")
  const GreaterThan: Text := Units(">")
  const LessThanEncoded: Text := Units("&lt;")
  const GreaterThanEncoded: Text := Units("&gt;")
  const H1: Text := Units("h1")
  const TestWord: Text := Units("test")
  const SlashH1: Text := Units("/h1")
  const ImageUrl: Text := Units("https://example.com/image.png")
  const Quote: Text := Units("\"")
  /** A double quote as the HTML encoder writes it. */
  const QuoteEncoded: Text := Units("&quot;")

  /** The short words of the tests hold no markup. */
  lemma WordsArePlain()
    ensures PlainText(One) && PlainText(Two) && PlainText(Marquee) && PlainText(MarqueeLt3) && PlainText(Quote)
  {
  }

  /** The longer texts of the tests hold no markup. */
  lemma PhrasesArePlain()
    ensures PlainText(SomeText) && PlainText(HeadingTag)
  {
  }

  /** The URL of the image tests holds no markup. */
  lemma ImageUrlIsPlain()
    ensures PlainText(ImageUrl)
  {
  }

  /** Plain texts joined are plain. */
  lemma PlainTextAppend(a: Text, b: Text)
    requires PlainText(a) && PlainText(b)
    ensures PlainText(a + b)
  {
    forall k | 0 <= k < |a + b|
      ensures (a + b)[k] == if k < |a| then a[k] else b[k - |a|]
    {
    }
  }

  /** Plain units are plain wherever they stand, whatever follows them. */
  lemma PlainUnits(a: Text, r: Text)
    requires PlainText(a)
    ensures forall j :: 0 <= j < |a| ==> PlainAt(a + r, j)
  {
    forall j | 0 <= j < |a|
      ensures PlainAt(a + r, j)
    {
      assert (a + r)[j] == a[j];
    }
  }

  /** `s` cannot start inside a text that lacks the first unit of `s`. */
  lemma Lacks(x: Text, s: Text)
    requires |s| > 0 && forall k :: 0 <= k < |x| ==> x[k] != s[0]
    ensures NoEarlierClose(x, s) && AbsentFrom(x, 0, s)
  {
    forall j | 0 <= j < |x|
      ensures !OccursAt(x + s, j, s) && !OccursAt(x, j, s)
    {
      assert (x + s)[j] == x[j];
      NotAt(x + s, j, s);
      NotAt(x, j, s);
    }
  }

  /** The three newline spellings the tests run with. */
  predicate NewLine(nl: Text)
  {
    nl == [LF] || nl == [CR] || nl == CrLf
  }

  /** A newline followed by text that does not start with "\n" is one line break. */
  lemma RenderTestNewLine(nl: Text, r: Text, wellFormed: Text -> bool)
    requires NewLine(nl) && r != [] && r[0] != LF
    ensures Render(nl + r, wellFormed) == [Html(LineBreak)] + Render(r, wellFormed)
    ensures DropNewLine(nl + r) == r
  {
    RenderNewLine(nl, r, wellFormed);
    var t := nl + r;
    assert t[0] == nl[0];
    if nl == CrLf {
      assert t[..2] == CrLf;
    } else if |t| > 1 {
      assert t[1] == r[0];
      assert t[0..2][1] == t[1];
    }
    assert t[|nl|..] == r;
  }

  /** The heading post, piece by piece. */
  lemma HeadingTagPieces()
    ensures HeadingTag == LessThan + (H1 + (GreaterThan + (TestWord + (LessThan + (SlashH1 + GreaterThan)))))
  {
  }

  /** The encoded heading post, piece by piece. */
  lemma HeadingTagEncodedPieces()
    ensures HeadingTagEncoded ==
      LessThanEncoded + (H1 + (GreaterThanEncoded + (TestWord + (LessThanEncoded + (SlashH1 + GreaterThanEncoded)))))
  {
  }

  /**
   * Text without markup keeps its units, one literal event each, and the encoder alone decides
   * how they are written (test `TextGetsHtmlEncoded`).
   */
  lemma TextIsLiteral(escape: Text -> Text, wellFormed: Text -> bool)
    requires escape(LessThan) == LessThanEncoded && escape(GreaterThan) == GreaterThanEncoded
    requires KeepsUnits(escape, H1) && KeepsUnits(escape, TestWord) && KeepsUnits(escape, SlashH1)
    ensures Render(HeadingTag, wellFormed) == Lits(HeadingTag)
    ensures Written(Render(HeadingTag, wellFormed), escape) == HeadingTagEncoded
  {
    PhrasesArePlain();
    RenderPlainWord(HeadingTag, wellFormed);
    HeadingTagPieces();
    HeadingTagEncodedPieces();
    WrittenUnit(LessThan, escape);
    WrittenUnit(GreaterThan, escape);
    LitsSpellInput(H1, escape);
    LitsSpellInput(TestWord, escape);
    LitsSpellInput(SlashH1, escape);
    WrittenLitsAppend(SlashH1, GreaterThan, escape);
    WrittenLitsAppend(LessThan, SlashH1 + GreaterThan, escape);
    WrittenLitsAppend(TestWord, LessThan + (SlashH1 + GreaterThan), escape);
    WrittenLitsAppend(GreaterThan, TestWord + (LessThan + (SlashH1 + GreaterThan)), escape);
    WrittenLitsAppend(H1, GreaterThan + (TestWord + (LessThan + (SlashH1 + GreaterThan))), escape);
    WrittenLitsAppend(LessThan, H1 + (GreaterThan + (TestWord + (LessThan + (SlashH1 + GreaterThan)))), escape);
  }

  /** A single unit is written as the encoder writes it. */
  lemma WrittenUnit(a: Text, escape: Text -> Text)
    requires |a| == 1
    ensures Written(Lits(a), escape) == escape(a)
  {
    assert Lits(a) == [Lit([a[0]])];
    assert [a[0]] == a;
  }

  /** The literals of joined texts are written as those of the first, then those of the second. */
  lemma WrittenLitsAppend(a: Text, b: Text, escape: Text -> Text)
    ensures Written(Lits(a + b), escape) == Written(Lits(a), escape) + Written(Lits(b), escape)
  {
    LitsAppend(a, b);
    WrittenAppend(Lits(a), Lits(b), escape);
  }

  /** The literals of joined texts are those of the first, then those of the second. */
  lemma LitsAppend(a: Text, b: Text)
    ensures Lits(a + b) == Lits(a) + Lits(b)
  {
    forall k | 0 <= k < |a + b|
      ensures Lits(a + b)[k] == (Lits(a) + Lits(b))[k]
    {
      if k < |a| {
        assert (a + b)[k] == a[k];
      } else {
        assert (a + b)[k] == b[k - |a|];
      }
    }
  }

  /**
   * A surrogate pair is two units, and each becomes a literal of its own
   * (test `SurrogatePairsAreHandledCorrectly`).
   */
  lemma SurrogateHalvesAreSeparateLiterals(wellFormed: Text -> bool)
    ensures Render([0xD835, 0xDD4F, 0xD835, 0xDD50], wellFormed) ==
      [Lit([0xD835]), Lit([0xDD4F]), Lit([0xD835]), Lit([0xDD50])]
  {
    var a: Text := [0xD835, 0xDD4F, 0xD835, 0xDD50];
    assert PlainText(a);
    RenderPlainWord(a, wellFormed);
  }

  /** A plain text renders as one literal per unit. */
  lemma RenderPlainWord(a: Text, wellFormed: Text -> bool)
    requires PlainText(a)
    ensures Render(a, wellFormed) == Lits(a)
  {
    PlainUnits(a, []);
    assert a + [] == a;
    RenderPlain(a, wellFormed);
  }

  /** The events of a marquee header write the expected marquee element. */
  lemma WrittenMarquee(x: Text, escape: Text -> Text)
    ensures Written([Html(MarqueeOpen), Lit(x), Html(MarqueeClose)], escape) == HtmlMarquee(escape(x))
  {
    assert [Html(MarqueeOpen), Lit(x), Html(MarqueeClose)] == [Html(MarqueeOpen)] + [Lit(x)] + [Html(MarqueeClose)];
    WrittenAppend([Html(MarqueeOpen)], [Lit(x)], escape);
    WrittenAppend([Html(MarqueeOpen)] + [Lit(x)], [Html(MarqueeClose)], escape);
  }

  // ---------------------------------------------------------------------------------------
  // The tests' cases, for any plain words in place of the tests' own.

  /** The events of line breaks around two plain words: one line break per newline, one literal per unit. */
  lemma NewLinesAroundWordsEvents(nl: Text, a: Text, b: Text, wellFormed: Text -> bool)
    requires NewLine(nl) && a != [] && b != [] && PlainText(a) && PlainText(b)
    ensures var br := [Html(LineBreak)];
      Render(nl + (a + (nl + (b + nl))), wellFormed) == br + (Lits(a) + (br + (Lits(b) + br)))
  {
    RenderNewLine(nl, [], wellFormed);
    assert nl + [] == nl;
    assert Render([], wellFormed) == [];
    PlainUnits(b, nl);
    RenderPlainThen(b, nl, wellFormed);
    assert (b + nl)[0] == b[0];
    RenderTestNewLine(nl, b + nl, wellFormed);
    PlainUnits(a, nl + (b + nl));
    RenderPlainThen(a, nl + (b + nl), wellFormed);
    assert (a + (nl + (b + nl)))[0] == a[0];
    RenderTestNewLine(nl, a + (nl + (b + nl)), wellFormed);
  }

  /** The content of those events: the words as they are between the line breaks. */
  lemma WrittenNewLinesAroundWords(a: Text, b: Text, escape: Text -> Text)
    requires KeepsUnits(escape, a) && KeepsUnits(escape, b)
    ensures var br, m := [Html(LineBreak)], Markup(LineBreak);
      Written(br + (Lits(a) + (br + (Lits(b) + br))), escape) == m + (a + (m + (b + m)))
  {
    LitsSpellInput(a, escape);
    LitsSpellInput(b, escape);
    var br := [Html(LineBreak)];
    var m := Markup(LineBreak);
    WrittenAppend(Lits(b), br, escape);
    WrittenAppend(br, Lits(b) + br, escape);
    WrittenAppend(Lits(a), br + (Lits(b) + br), escape);
    WrittenAppend(br, Lits(a) + (br + (Lits(b) + br)), escape);
  }

  /** Line breaks around two plain words: one line break per newline, the words as they are. */
  lemma NewLinesAroundWords(nl: Text, a: Text, b: Text, escape: Text -> Text, wellFormed: Text -> bool)
    requires NewLine(nl) && a != [] && b != [] && PlainText(a) && PlainText(b)
    requires KeepsUnits(escape, a) && KeepsUnits(escape, b)
    ensures var m := Markup(LineBreak);
      Written(Render(nl + a + nl + b + nl, wellFormed), escape) == m + (a + (m + (b + m)))
  {
    assert nl + a + nl + b + nl == nl + (a + (nl + (b + nl)));
    NewLinesAroundWordsEvents(nl, a, b, wellFormed);
    WrittenNewLinesAroundWords(a, b, escape);
  }

  /** The expected content of the newline test, piece by piece. */
  lemma BreaksAroundWords()
    ensures Units("<br/>one<br/>two<br/>") == Markup(LineBreak) + (One + (Markup(LineBreak) + (Two + Markup(LineBreak))))
  {
  }

  /** A closed header around a plain word is a marquee around the encoded word. */
  lemma HeaderAroundWord(x: Text, escape: Text -> Text, wellFormed: Text -> bool)
    requires x != [] && PlainText(x)
    ensures Written(Render(HeaderMarker + x + HeaderMarker, wellFormed), escape) == HtmlMarquee(escape(x))
  {
    Lacks(x, HeaderMarker);
    RenderHeader(x, [], wellFormed);
    assert HeaderMarker + x + HeaderMarker + [] == HeaderMarker + x + HeaderMarker;
    assert DropNewLine([]) == [];
    assert Render([], wellFormed) == [];
    var e := [Html(MarqueeOpen), Lit(x), Html(MarqueeClose)];
    assert Render(HeaderMarker + x + HeaderMarker, wellFormed) == e + [];
    assert e + [] == e;
    WrittenMarquee(x, escape);
  }

  /** An unclosed header before a plain word is left as it is. */
  lemma UnclosedHeaderBeforeWord(x: Text, escape: Text -> Text, wellFormed: Text -> bool)
    requires PlainText(x) && KeepsUnits(escape, x)
    ensures Written(Render(HeaderMarker + x, wellFormed), escape) == HeaderMarker + x
  {
    Lacks(x, HeaderMarker);
    RenderUnclosedHeader(x, wellFormed);
    RenderPlainWord(x, wellFormed);
    LitsSpellInput(x, escape);
    WrittenAppend([Html(Hashes)], Lits(x), escape);
  }

  /** A header, a newline and a plain word: the newline is swallowed. */
  lemma HeaderLine(x: Text, nl: Text, w: Text, escape: Text -> Text, wellFormed: Text -> bool)
    requires x != [] && PlainText(x) && NewLine(nl) && w != [] && PlainText(w) && KeepsUnits(escape, w)
    ensures Written(Render(HeaderMarker + x + HeaderMarker + nl + w, wellFormed), escape) == HtmlMarquee(escape(x)) + w
  {
    var r := nl + w;
    assert HeaderMarker + x + HeaderMarker + nl + w == HeaderMarker + x + HeaderMarker + r;
    Lacks(x, HeaderMarker);
    RenderHeader(x, r, wellFormed);
    RenderTestNewLine(nl, w, wellFormed);
    RenderPlainWord(w, wellFormed);
    var e := [Html(MarqueeOpen), Lit(x), Html(MarqueeClose)];
    assert Render(HeaderMarker + x + HeaderMarker + r, wellFormed) == e + Lits(w);
    WrittenMarquee(x, escape);
    LitsSpellInput(w, escape);
    WrittenAppend(e, Lits(w), escape);
  }

  /** An accepted plain URL in brackets is an image element. */
  lemma ImageOfWord(u: Text, escape: Text -> Text, wellFormed: Text -> bool)
    requires u != [] && PlainText(u) && wellFormed(u)
    ensures Written(Render(ImageOpen + u + ImageClose, wellFormed), escape) == HtmlImage(u)
  {
    Lacks(u, ImageClose);
    RenderImage(u, [], wellFormed);
    assert ImageOpen + u + ImageClose + [] == ImageOpen + u + ImageClose;
    assert DropNewLine([]) == [];
    assert Render([], wellFormed) == [];
    assert Render(ImageOpen + u + ImageClose, wellFormed) == [Html(ImageTag(u))] + [];
    assert [Html(ImageTag(u))] + [] == [Html(ImageTag(u))];
  }

  /** An image, a newline and a plain word: the newline is swallowed. */
  lemma ImageLine(u: Text, nl: Text, w: Text, escape: Text -> Text, wellFormed: Text -> bool)
    requires u != [] && PlainText(u) && wellFormed(u) && NewLine(nl) && w != [] && PlainText(w) && KeepsUnits(escape, w)
    ensures Written(Render(ImageOpen + u + ImageClose + nl + w, wellFormed), escape) == HtmlImage(u) + w
  {
    var r := nl + w;
    assert ImageOpen + u + ImageClose + nl + w == ImageOpen + u + ImageClose + r;
    Lacks(u, ImageClose);
    RenderImage(u, r, wellFormed);
    RenderTestNewLine(nl, w, wellFormed);
    RenderPlainWord(w, wellFormed);
    assert Render(ImageOpen + u + ImageClose + r, wellFormed) == [Html(ImageTag(u))] + Lits(w);
    LitsSpellInput(w, escape);
    WrittenAppend([Html(ImageTag(u))], Lits(w), escape);
  }

  /** An unclosed image before a plain word is left as it is. */
  lemma UnclosedImageBeforeWord(u: Text, escape: Text -> Text, wellFormed: Text -> bool)
    requires PlainText(u) && escape([]) == [] && KeepsUnits(escape, u)
    ensures Written(Render(ImageOpen + u, wellFormed), escape) == ImageOpen + u
  {
    Lacks(u, ImageClose);
    RenderUnclosedImage(u, wellFormed);
    RenderPlainWord(u, wellFormed);
    LitsSpellInput(u, escape);
    var front := [Html(ImageOpenText), Lit([])];
    assert Written(front, escape) == ImageOpen + [] + [];
    assert ImageOpen + [] + [] == ImageOpen;
    WrittenAppend(front, Lits(u), escape);
  }

  /** A rejected plain URL in brackets is left as it is, with the URL encoded. */
  lemma RejectedImageOfWord(u: Text, escape: Text -> Text, wellFormed: Text -> bool)
    requires PlainText(u) && !wellFormed(u) && escape(ImageClose) == ImageClose
    ensures Written(Render(ImageOpen + u + ImageClose, wellFormed), escape) == ImageOpen + escape(u) + ImageClose
  {
    Lacks(u, ImageClose);
    RenderRejectedImage(u, [], wellFormed);
    assert ImageOpen + u + ImageClose + [] == ImageOpen + u + ImageClose;
    assert Render([], wellFormed) == [];
    var e := [Html(ImageOpenText), Lit(u), Lit(ImageClose)];
    assert Render(ImageOpen + u + ImageClose, wellFormed) == e + [];
    assert e + [] == e;
    assert e == [Html(ImageOpenText)] + [Lit(u)] + [Lit(ImageClose)];
    WrittenAppend([Html(ImageOpenText)], [Lit(u)], escape);
    WrittenAppend([Html(ImageOpenText)] + [Lit(u)], [Lit(ImageClose)], escape);
  }

  // ---------------------------------------------------------------------------------------
  // The tests themselves.

  /** Every newline spelling becomes one line break (test `NewLinesAreReplacedWithBr`). */
  lemma NewLinesAreReplacedWithBr(nl: Text, escape: Text -> Text, wellFormed: Text -> bool)
    requires NewLine(nl)
    requires KeepsUnits(escape, One) && KeepsUnits(escape, Two)
    ensures Written(Render(nl + One + nl + Two + nl, wellFormed), escape) == Units("<br/>one<br/>two<br/>")
  {
    WordsArePlain();
    NewLinesAroundWords(nl, One, Two, escape, wellFormed);
    BreaksAroundWords();
  }

  /** A closed header becomes a marquee around its encoded text (test `Marquee_Works`). */
  lemma MarqueeWorks(escape: Text -> Text, wellFormed: Text -> bool)
    requires escape(MarqueeLt3) == MarqueeLt3Encoded
    ensures Written(Render(HeaderMarker + MarqueeLt3 + HeaderMarker, wellFormed), escape) ==
      HtmlMarquee(MarqueeLt3Encoded)
  {
    WordsArePlain();
    HeaderAroundWord(MarqueeLt3, escape, wellFormed);
  }

  /** An unclosed header is left as it is (test `Marquee_UnclosedIsLeftAsIs`). */
  lemma MarqueeUnclosedIsLeftAsIs(escape: Text -> Text, wellFormed: Text -> bool)
    requires KeepsUnits(escape, Marquee)
    ensures Written(Render(HeaderMarker + Marquee, wellFormed), escape) == HeaderMarker + Marquee
  {
    WordsArePlain();
    UnclosedHeaderBeforeWord(Marquee, escape, wellFormed);
  }

  /** The newline right after a header adds no line break (test `Marquee_NoExtraLineBreakAddedAfter`). */
  lemma MarqueeNoExtraLineBreak(nl: Text, escape: Text -> Text, wellFormed: Text -> bool)
    requires NewLine(nl)
    requires escape(Marquee) == Marquee && KeepsUnits(escape, SomeText)
    ensures Written(Render(HeaderMarker + Marquee + HeaderMarker + nl + SomeText, wellFormed), escape) ==
      HtmlMarquee(Marquee) + SomeText
  {
    WordsArePlain();
    PhrasesArePlain();
    HeaderLine(Marquee, nl, SomeText, escape, wellFormed);
  }

  /** An accepted URL becomes an image element (test `Image_Works`). */
  lemma ImageWorks(escape: Text -> Text, wellFormed: Text -> bool)
    requires wellFormed(ImageUrl)
    ensures Written(Render(ImageOpen + ImageUrl + ImageClose, wellFormed), escape) == HtmlImage(ImageUrl)
  {
    ImageUrlIsPlain();
    ImageOfWord(ImageUrl, escape, wellFormed);
  }

  /** The newline right after an image adds no line break either. */
  lemma ImageNoExtraLineBreak(nl: Text, escape: Text -> Text, wellFormed: Text -> bool)
    requires NewLine(nl) && wellFormed(ImageUrl) && KeepsUnits(escape, SomeText)
    ensures Written(Render(ImageOpen + ImageUrl + ImageClose + nl + SomeText, wellFormed), escape) ==
      HtmlImage(ImageUrl) + SomeText
  {
    ImageUrlIsPlain();
    PhrasesArePlain();
    ImageLine(ImageUrl, nl, SomeText, escape, wellFormed);
  }

  /** An unclosed image is left as it is (test `Image_UnclosedIsLeftAsIs`). */
  lemma ImageUnclosedIsLeftAsIs(escape: Text -> Text, wellFormed: Text -> bool)
    requires escape([]) == [] && KeepsUnits(escape, ImageUrl)
    ensures Written(Render(ImageOpen + ImageUrl, wellFormed), escape) == ImageOpen + ImageUrl
  {
    ImageUrlIsPlain();
    UnclosedImageBeforeWord(ImageUrl, escape, wellFormed);
  }

  /**
   * A rejected URL is left as it is, its encoded text between the "![" and the "]"
   * (test `Image_WithIncorrectUrlIsLeftAsIs`).
   */
  lemma ImageWithIncorrectUrlIsLeftAsIs(escape: Text -> Text, wellFormed: Text -> bool)
    requires !wellFormed(ImageUrl + Quote)
    requires escape(ImageUrl + Quote) == ImageUrl + QuoteEncoded && escape(ImageClose) == ImageClose
    ensures Written(Render(ImageOpen + (ImageUrl + Quote) + ImageClose, wellFormed), escape) ==
      ImageOpen + (ImageUrl + QuoteEncoded) + ImageClose
  {
    ImageUrlIsPlain();
    WordsArePlain();
    PlainTextAppend(ImageUrl, Quote);
    RejectedImageOfWord(ImageUrl + Quote, escape, wellFormed);
  }

  /** "######" is no header: both markers are emitted as they are. */
  lemma EmptyHeaderIsLeftAsIs(escape: Text -> Text, wellFormed: Text -> bool)
    ensures Render(HeaderMarker + HeaderMarker, wellFormed) == [Html(Hashes), Html(Hashes)]
    ensures Written(Render(HeaderMarker + HeaderMarker, wellFormed), escape) == HeaderMarker + HeaderMarker
  {
    RenderEmptyHeader([], wellFormed);
    assert HeaderMarker + HeaderMarker + [] == HeaderMarker + HeaderMarker;
    assert HeaderMarker + [] == HeaderMarker;
    Lacks([], HeaderMarker);
    RenderUnclosedHeader([], wellFormed);
    assert Render([], wellFormed) == [];
    assert Render(HeaderMarker + HeaderMarker, wellFormed) == [Html(Hashes)] + ([Html(Hashes)] + []);
    WrittenAppend([Html(Hashes)], [Html(Hashes)], escape);
  }
}
