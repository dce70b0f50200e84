# Rich-text renderer of the `Why` guestbook, in Dafny

The `rich-text` tag helper (`Why/TagHelpers/RichTextTagHelper.cs`) turns the text of a post
into HTML in a single forward pass. It does this with a `Cursor`: a read-only text plus a
read offset. The render loop tries four branches in a fixed order:

1. `###…###` becomes a marquee header.
2. `![url]` becomes an image, but only when the URI check accepts the URL.
3. A newline (`\r\n`, `\n` or `\r`) becomes `<br/>`.
4. Any other single code unit becomes escaped literal text.

Malformed or unclosed markup degrades to literal output. Nothing fails.

This project models that scanner and loop, and proves what they do.

- `texts.dfy` (module `Texts`):
  - Text is a sequence of UTF-16 code units (`CodeUnit`, 0..0xFFFF), because a .NET `char` may be half of a surrogate pair.
  - The ordinal search `IndexOf`.
  - The "skips to the first occurrence" relation behind `ConsumeUntil`.
  - The length of a newline.
- `cursor.dfy` (module `Cursors`): the `Cursor` as a class with an immutable `text` and a mutable `index`. Each method states how far it moves the index, and what it answers, in terms of the text.
- `rich_text.dfy` (module `RichText`):
  - The output is a sequence of events. `Html(fragment)` stands for `AppendHtml` and `Lit(text)` for `Append`.
  - `Fragment` names each fixed piece of markup the renderer inserts. `Markup` gives its exact text.
  - `Written(events, escape)` is the content those calls add up to, where `escape` is the framework's HTML encoder, taken as a parameter.
  - `Token` describes one iteration of the loop. `HeaderToken` and `ImageToken` describe the two markup branches.
  - `RenderFrom` / `Render` describe the whole pass. `Scan` and `Resume` are that pass as one mutually recursive pair of functions.
  - The imperative code is proved against these functions. `Process` is the `while (!cursor.IsDone)` loop, and its invariant says that the emitted events followed by `RenderFrom(text, cursor.index)` equal `Render(text)`. The loop body is split into `Step`, `HeaderBranch` and `ImageBranch`. An early `continue` becomes an early return from `Step`.
- `rich_text_properties.dfy` (module `RichTextProperties`):
  - Context independence: the output from an offset depends only on the text from there on.
  - What each kind of markup, or its absence, renders as.
  - The trust boundary: input text reaches the output unescaped only as the URL of an accepted image.
- `rich_text_examples.dfy` (module `RichTextExamples`):
  - The posts of `WhyTests/RichTextTagHelperTests.cs`, stated as lemmas about `Written(Render(post), escape)`. The surrogate-pair lemma stops at the events `Render(post)`, because the framework's encoding of the separate halves is not modelled (see "## Left out"). `TextIsLiteral` and `EmptyHeaderIsLeftAsIs` state the events as well as the content.
  - The lemmas' hypotheses say what the encoder does to that post's literal parts (for example, that `escape` maps "Marquee<3" to "Marquee&lt;3"). For the accepted and rejected image posts they also say what the URI check decides about the URL (`wellFormed(ImageUrl)`, `!wellFormed(ImageUrl + Quote)`).
  - Each test's case is first proved for any plain word in place of the test's own.

The Uri check `Uri.IsWellFormedUriString(url, UriKind.RelativeOrAbsolute)` is the parameter
`wellFormed`.

The model reproduces two quirks of the code rather than correcting them:

- `ConsumeUntil` answers the empty span both when the closing marker is missing and when it comes right away. So an empty or unclosed header emits its "###" as markup and continues right after it, and "######" renders as two "###" (`EmptyHeaderIsLeftAsIs`).
- A rejected image leaves the cursor on its "]". The single-unit branch then emits the "]" as a literal (`RenderRejectedImage`).

Where prose descriptions of the renderer differ from the code, the model follows the code:

- The "###" of a header that is not one, and the "![" of a rejected image, go through `AppendHtml` (lines 29 and 45). They are not escaped literals. The model emits them as `Html(Hashes)` and `Html(ImageOpenText)`.
- The fallback branch appends one `char` at a time (line 61). A surrogate pair therefore reaches the output as two separate literals (`SurrogateHalvesAreSeparateLiterals`).

The test `Image_NoExtraLineBreakAddedAfter` (tests, lines 79-85) repeats the marquee post of the test before it. `ImageNoExtraLineBreak` states the property its name announces, for an image.

## Model

| member | source | states |
|---|---|---|
| Texts.IndexOf | Why/TagHelpers/RichTextTagHelper.cs:138 | the distance found is -1 or leaves room for the whole of `s` after `from` |
| Texts.IndexOfFirst | Why/TagHelpers/RichTextTagHelper.cs:138-141 | a non-negative answer points at an occurrence with none before it; -1 only when `s` occurs nowhere from `from` on |
| Texts.SkipsToUnique | Why/TagHelpers/RichTextTagHelper.cs:131-135 | the span a search skips is determined uniquely, so the empty answer is one outcome shared by "absent" and "adjacent" |
| Texts.Skipped | Why/TagHelpers/RichTextTagHelper.cs:136-147 | the number of units `ConsumeUntil` skips: a span with no earlier occurrence that ends at the first occurrence, or 0 when there is none |
| Texts.NewLineLength | Why/TagHelpers/RichTextTagHelper.cs:112-129 | a newline at an offset spans 2, 1 or 0 units, never past the end of the text |
| Cursors.Cursor.constructor | Why/TagHelpers/RichTextTagHelper.cs:75-78 | a new cursor reads the given text from offset 0 |
| Cursors.Cursor.IsDone | Why/TagHelpers/RichTextTagHelper.cs:72 | true exactly when no unread text is left |
| Cursors.Cursor.CurrentChar | Why/TagHelpers/RichTextTagHelper.cs:73 | the unit at the read offset, as the one-unit slice there |
| Cursors.Cursor.Advance | Why/TagHelpers/RichTextTagHelper.cs:80-86 | the offset rises by exactly `amount` |
| Cursors.Cursor.TryConsume | Why/TagHelpers/RichTextTagHelper.cs:88-105 | answers true iff `s` occurs at the offset within the text; then the offset rises by `|s|`, otherwise it is unchanged |
| Cursors.Cursor.TryConsumeNewLine | Why/TagHelpers/RichTextTagHelper.cs:107-129 | answers true iff an unread "\n" or "\r" is next; "\r\n" is skipped as two units, a lone "\n" or "\r" as one, and otherwise nothing moves |
| Cursors.Cursor.ConsumeUntil | Why/TagHelpers/RichTextTagHelper.cs:131-147 | advances to the first occurrence of `closing` (not past it) and answers exactly the skipped slice; answers empty and stays put when there is none |
| RichText.SkipNewLine | Why/TagHelpers/RichTextTagHelper.cs:37-38 | skipping one optional newline stays within the text and never moves back |
| RichText.HeaderToken | Why/TagHelpers/RichTextTagHelper.cs:24-39 | the header branch always moves forward and stays within the text |
| RichText.HeaderResult | Why/TagHelpers/RichTextTagHelper.cs:26-38 | both outcomes of the header branch, empty span or marquee, resume within the text and at or after the end of the opening "###" |
| RichText.ImageToken | Why/TagHelpers/RichTextTagHelper.cs:40-54 | the image branch always moves forward and stays within the text |
| RichText.ImageResult | Why/TagHelpers/RichTextTagHelper.cs:42-53 | both outcomes of the image branch, rejected or accepted, resume within the text and at or after the end of the "![" |
| RichText.Token | Why/TagHelpers/RichTextTagHelper.cs:22-63 | every iteration of the loop advances by at least one unit and stays within the text, so the loop terminates |
| RichText.RenderFromEnd | Why/TagHelpers/RichTextTagHelper.cs:22 | at the end of the text the loop emits nothing more |
| RichText.RenderFromStep | Why/TagHelpers/RichTextTagHelper.cs:22-64 | the output from an offset is one iteration's events followed by the output from where that iteration resumes |
| RichText.PlainMarkerToken | Why/TagHelpers/RichTextTagHelper.cs:26-31 | when the search for the closing "###" skips nothing (absent or adjacent), "###" is emitted as markup and the scan resumes right after it |
| RichText.MarqueeToken | Why/TagHelpers/RichTextTagHelper.cs:33-38 | a non-empty span becomes marquee-open, the literal span, marquee-close; the closing "###" and one newline are skipped |
| RichText.RejectedImageToken | Why/TagHelpers/RichTextTagHelper.cs:43-48 | an empty or rejected URL emits "![" and the literal URL, and resumes at the end of the URL, on the "]" |
| RichText.AcceptedImageToken | Why/TagHelpers/RichTextTagHelper.cs:50-53 | an accepted non-empty URL becomes the image element; the "]" and one newline are skipped |
| RichText.HeaderBranch | Why/TagHelpers/RichTextTagHelper.cs:24-39 | the header branch's events and new cursor offset are exactly those of `HeaderToken` |
| RichText.ImageBranch | Why/TagHelpers/RichTextTagHelper.cs:40-54 | the image branch's events and new cursor offset are exactly those of `ImageToken` |
| RichText.Step | Why/TagHelpers/RichTextTagHelper.cs:22-63 | one pass of the loop body moves the cursor strictly forward and emits what `Token` prescribes |
| RichText.Process | Why/TagHelpers/RichTextTagHelper.cs:15-65 | the loop terminates on every text (the empty one included) and emits exactly `Render(text)` |
| RichTextProperties.OccursAtShift | Why/TagHelpers/RichTextTagHelper.cs:93-97 | the occurrence test reads only the text from the offset on |
| RichTextProperties.SkippedShift | Why/TagHelpers/RichTextTagHelper.cs:136-147 | a search skips the same span in a text and in any suffix holding its offset |
| RichTextProperties.HeaderTokenShift | Why/TagHelpers/RichTextTagHelper.cs:24-39 | the header branch behaves the same on a suffix, shifted by the suffix's offset |
| RichTextProperties.ImageTokenShift | Why/TagHelpers/RichTextTagHelper.cs:40-54 | the image branch behaves the same on a suffix, shifted by the suffix's offset |
| RichTextProperties.TokenShift | Why/TagHelpers/RichTextTagHelper.cs:22-63 | one iteration behaves the same on a suffix, shifted |
| RichTextProperties.RenderFromShift | Why/TagHelpers/RichTextTagHelper.cs:21-64 | the rest of the pass behaves the same on a suffix, by induction over the iterations |
| RichTextProperties.RenderFromSuffix | Why/TagHelpers/RichTextTagHelper.cs:21-64 | what the loop emits from an offset on is what it emits for the rest of the text rendered alone |
| RichTextProperties.Lits | Why/TagHelpers/RichTextTagHelper.cs:59-63 | one literal event per unit, in order |
| RichTextProperties.WrittenAppend | Why/TagHelpers/RichTextTagHelper.cs:29-61 | the content of consecutive appends is the concatenation of their contents |
| RichTextProperties.LitsSpellInput | Why/TagHelpers/RichTextTagHelper.cs:61 | per-unit literals, written by an encoder that keeps those units, spell the input again |
| RichTextProperties.PlainAtMeans | Why/TagHelpers/RichTextTagHelper.cs:24-63 | `PlainAt` holds exactly where neither marker nor a newline starts, so only the fallback branch applies |
| RichTextProperties.RenderPlainUnit | Why/TagHelpers/RichTextTagHelper.cs:59-63 | a unit where nothing else starts is emitted on its own and the scan moves on by one |
| RichTextProperties.RenderFromPlain | Why/TagHelpers/RichTextTagHelper.cs:59-63 | a run of plain units renders one literal per unit, then whatever follows |
| RichTextProperties.RenderPlainThen | Why/TagHelpers/RichTextTagHelper.cs:59-63 | plain text followed by `r` renders as the per-unit literals followed by `Render(r)` |
| RichTextProperties.RenderPlain | Why/TagHelpers/RichTextTagHelper.cs:59-63 | text with no "###", "![" or newline renders as exactly one literal per unit |
| RichTextProperties.RenderPlainSpellsInput | Why/TagHelpers/RichTextTagHelper.cs:59-63 | the content of such text, under an encoder that keeps its units, equals the input |
| RichTextProperties.RenderNewLine | Why/TagHelpers/RichTextTagHelper.cs:55-58 | each newline spelling ("\n", "\r\n", or "\r" not followed by "\n") is exactly one line break, then the rest renders on its own |
| RichTextProperties.HeaderSpan | Why/TagHelpers/RichTextTagHelper.cs:24-26 | in `###x###r` with no "###" in `x`, the search from after the opener skips exactly `x` |
| RichTextProperties.DropNewLineShift | Why/TagHelpers/RichTextTagHelper.cs:38 | skipping one optional newline leaves the rest after that newline |
| RichTextProperties.RenderAfterNewLine | Why/TagHelpers/RichTextTagHelper.cs:38 | after a closed header or image, at most one newline is dropped before the scan resumes |
| RichTextProperties.RenderHeader | Why/TagHelpers/RichTextTagHelper.cs:24-39 | `###x###r` with non-empty `x` free of "###" renders as marquee-open, `Lit(x)`, marquee-close, then `r` with one leading newline dropped |
| RichTextProperties.RenderHeaderAt | Why/TagHelpers/RichTextTagHelper.cs:33-38 | the same for any text laid out as `###x###` then `r` |
| RichTextProperties.RenderUnclosedHeader | Why/TagHelpers/RichTextTagHelper.cs:26-31 | "###" with no closing "###" after it is emitted as markup "###" and the rest renders on its own |
| RichTextProperties.RenderEmptyHeader | Why/TagHelpers/RichTextTagHelper.cs:26-31 | in "######r" the first "###" is emitted as it is and the scan resumes at the second |
| RichTextProperties.ImageSpan | Why/TagHelpers/RichTextTagHelper.cs:40-42 | in `![u]r` with no "]" in `u`, the search from after "![" skips exactly `u` |
| RichTextProperties.RenderImage | Why/TagHelpers/RichTextTagHelper.cs:40-54 | `![u]r` with non-empty accepted `u` free of "]" renders as the image element with `u` unescaped, then `r` with one leading newline dropped |
| RichTextProperties.RenderImageAt | Why/TagHelpers/RichTextTagHelper.cs:50-53 | the same for any text laid out as `![u]` then `r` |
| RichTextProperties.RenderRejectedImage | Why/TagHelpers/RichTextTagHelper.cs:43-48 | `![u]r` with empty or rejected `u` renders as "![", `Lit(u)`, `Lit("]")`, then `r` on its own |
| RichTextProperties.RenderRejectedImageAt | Why/TagHelpers/RichTextTagHelper.cs:43-48 | the same for any text laid out as `![u]` then `r` |
| RichTextProperties.RenderCloseBracket | Why/TagHelpers/RichTextTagHelper.cs:59-63 | a "]" the scan resumes on is emitted as a literal by the fallback branch |
| RichTextProperties.RenderUnclosedImage | Why/TagHelpers/RichTextTagHelper.cs:40-48 | "![" with no "]" after it renders as "![", an empty literal, then the rest on its own |
| RichTextProperties.RenderFromTrusted | Why/TagHelpers/RichTextTagHelper.cs:21-64 | from any offset, every image element emitted carries a non-empty URL that the URI check accepted |
| RichTextProperties.RenderTrusted | Why/TagHelpers/RichTextTagHelper.cs:43-50 | input reaches the output unescaped only as an accepted, non-empty image URL; all other markup is fixed text |
| RichTextExamples.TextIsLiteral | WhyTests/RichTextTagHelperTests.cs:15-21 | "<h1>test</h1>" holds no markup of the renderer and becomes one literal per unit; with an encoder that writes "<" as "&lt;", ">" as "&gt;" and keeps the other units, it writes "&lt;h1&gt;test&lt;/h1&gt;" |
| RichTextExamples.SurrogateHalvesAreSeparateLiterals | WhyTests/RichTextTagHelperTests.cs:23-29 | the two surrogate pairs become four one-unit literals |
| RichTextExamples.NewLinesAroundWords | Why/TagHelpers/RichTextTagHelper.cs:55-63 | newline, word, newline, word, newline writes as line break, word, line break, word, line break, for every spelling |
| RichTextExamples.NewLinesAreReplacedWithBr | WhyTests/RichTextTagHelperTests.cs:31-37 | for "\n", "\r" and "\r\n", the post "NL one NL two NL" writes "<br/>one<br/>two<br/>" |
| RichTextExamples.HeaderAroundWord | Why/TagHelpers/RichTextTagHelper.cs:24-39 | a closed header around a plain word writes the marquee element around the encoded word |
| RichTextExamples.MarqueeWorks | WhyTests/RichTextTagHelperTests.cs:39-45 | "###Marquee<3###" writes the marquee element around "Marquee&lt;3" |
| RichTextExamples.UnclosedHeaderBeforeWord | Why/TagHelpers/RichTextTagHelper.cs:26-31 | "###" before a plain word with no closing "###" writes itself unchanged |
| RichTextExamples.MarqueeUnclosedIsLeftAsIs | WhyTests/RichTextTagHelperTests.cs:47-53 | "###Marquee" writes "###Marquee" |
| RichTextExamples.HeaderLine | Why/TagHelpers/RichTextTagHelper.cs:33-38 | a header, a newline and a plain word write the marquee element directly followed by the word |
| RichTextExamples.MarqueeNoExtraLineBreak | WhyTests/RichTextTagHelperTests.cs:55-61 | "###Marquee###" + newline + "some text" writes the marquee element followed by "some text", no line break |
| RichTextExamples.ImageOfWord | Why/TagHelpers/RichTextTagHelper.cs:40-54 | an accepted plain URL in brackets writes the image element |
| RichTextExamples.ImageWorks | WhyTests/RichTextTagHelperTests.cs:63-69 | "![https://example.com/image.png]" writes the image element for that URL when the URI check accepts it |
| RichTextExamples.UnclosedImageBeforeWord | Why/TagHelpers/RichTextTagHelper.cs:40-48 | "![" before a plain word with no "]" writes itself unchanged |
| RichTextExamples.ImageUnclosedIsLeftAsIs | WhyTests/RichTextTagHelperTests.cs:71-77 | "![https://example.com/image.png" writes itself unchanged |
| RichTextExamples.ImageLine | Why/TagHelpers/RichTextTagHelper.cs:50-53 | an image, a newline and a plain word write the image element directly followed by the word |
| RichTextExamples.ImageNoExtraLineBreak | Why/TagHelpers/RichTextTagHelper.cs:50-53 | "![url]" + newline + "some text" writes the image element followed by "some text", no line break |
| RichTextExamples.RejectedImageOfWord | Why/TagHelpers/RichTextTagHelper.cs:43-48 | a rejected plain URL in brackets writes "![", the encoded URL, "]" |
| RichTextExamples.ImageWithIncorrectUrlIsLeftAsIs | WhyTests/RichTextTagHelperTests.cs:87-93 | a URL ending in a quote, rejected by the URI check, writes "![", the URL with the quote encoded, "]" |
| RichTextExamples.EmptyHeaderIsLeftAsIs | Why/TagHelpers/RichTextTagHelper.cs:26-31 | "######" renders as two "###" markup events and writes "######" |

## Left out

- HTML encoding by `TagHelperContent.Append` is the encoder parameter `escape` of `Written`. `Written` applies it to each literal event on its own. Whether the framework encodes each appended piece separately, or joins adjacent pieces first, is not modelled. The surrogate-pair test (tests, lines 23-29) expects one character reference per pair, which depends on that framework behaviour.
- `Uri.IsWellFormedUriString` is a library check. It is the parameter `wellFormed`, with nothing assumed about it.
- The output wrapper (lines 17-19): the tag becomes `div` with `class="lead"`. The tests check the tag name (tests, line 116); no test checks the class set at line 19. It sets properties on the framework's output object and is not modelled.
- `TagHelperContext` and `TagHelperOutput` are framework objects. The output content is modelled as the sequence of events appended to it.
- `Cursors.Cursor.Advance`: does not check its argument, just as the source does not; the rest of the model only calls it with amounts it has seen in the text, and `Step` proves the offset stays within the text.
- `Texts.Units` (fixed markup text from string literals) covers Basic Multilingual Plane characters only, which is all the fixed markup uses.
- The `Text` property setter and the Razor attribute binding of the tag helper (line 13) are framework plumbing.
- The other files of the repository are not part of this model: `Why/Pages/Index.cshtml.cs`, `Why/Program.cs`, `Why/Data/SeedData.cs` and `Why/Data/ApplicationDbContext.cs` (hosting, routing, identity, persistence), `Why/Models/Post.cs` (data annotations) and `Why/wwwroot/js/site.js` (browser scripting).
- The plain-text lemmas use a sufficient condition. `RenderPlain` and its relatives ask that no "###", "![" or newline start anywhere in the text. They do not cover plain text interleaved with markup, which the general lemmas combine piece by piece instead.
