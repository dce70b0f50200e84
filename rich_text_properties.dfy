/**
 * What the renderer does to whole posts: its output from any offset depends only on the rest
 * of the text, and each kind of markup (or its absence) renders as documented.
 */
module RichTextProperties {
  import opened Texts
  import opened RichText

  // ---------------------------------------------------------------------------------------
  // Context independence: a branch looks only at the text from its own offset on.

  /** `u` is what `t` holds from offset `d` on. */
  ghost predicate SuffixAt(t: Text, d: nat, u: Text)
  {
    |t| == d + |u| && forall k :: 0 <= k < |u| ==> t[d + k] == u[k]
  }

  /** An occurrence test gives the same answer on a suffix, at the matching offset. */
  lemma OccursAtShift(t: Text, d: nat, u: Text, j: nat, s: Text)
    requires SuffixAt(t, d, u) && j <= |u|
    ensures OccursAt(t, d + j, s) == OccursAt(u, j, s)
  {
    if j + |s| <= |u| {
      SliceShift(t, d, u, j, j + |s|);
    }
  }

  /** An occurrence test that fits inside `u` is not affected by what follows `u`. */
  lemma OccursAtPrefix(u: Text, v: Text, i: nat, s: Text)
    requires i + |s| <= |u|
    ensures OccursAt(u + v, i, s) == OccursAt(u, i, s)
  {
    assert (u + v)[i..i + |s|] == u[i..i + |s|];
  }

  /** A search from an offset skips the same span on a suffix, at the matching offset. */
  lemma SkippedShift(t: Text, d: nat, u: Text, j: nat, s: Text)
    requires SuffixAt(t, d, u) && j <= |u|
    ensures Skipped(t, d + j, s) == Skipped(u, j, s)
  {
    var n := Skipped(u, j, s);
    forall k | j <= k <= |u|
      ensures OccursAt(t, d + k, s) == OccursAt(u, k, s)
    {
      OccursAtShift(t, d, u, k, s);
    }
    assert SkipsTo(t, d + j, s, n) by {
      forall k | d + j <= k <= |t|
        ensures OccursAt(t, k, s) == OccursAt(u, k - d, s)
      {
        OccursAtShift(t, d, u, k - d, s);
      }
    }
    SkipsToUnique(t, d + j, s, n, Skipped(t, d + j, s));
  }

  /** The newline test gives the same answer on a suffix. */
  lemma NewLineLengthShift(t: Text, d: nat, u: Text, j: nat)
    requires SuffixAt(t, d, u) && j <= |u|
    ensures NewLineLength(t, d + j) == NewLineLength(u, j)
  {
    OccursAtShift(t, d, u, j, CrLf);
    if j < |u| {
      assert t[d + j] == u[j];
    }
  }

  /** A slice of a suffix is the matching slice of the whole text. */
  lemma SliceShift(t: Text, d: nat, u: Text, a: nat, b: nat)
    requires SuffixAt(t, d, u) && a <= b <= |u|
    ensures t[d + a..d + b] == u[a..b]
  {
    assert forall k :: 0 <= k < b - a ==> t[d + a..d + b][k] == u[a..b][k];
  }

  /** The header branch does the same on a suffix, only shifted. */
  lemma HeaderTokenShift(t: Text, d: nat, u: Text, j: nat)
    requires SuffixAt(t, d, u) && OccursAt(u, j, HeaderMarker)
    ensures OccursAt(t, d + j, HeaderMarker)
    ensures HeaderToken(t, d + j) == (HeaderToken(u, j).0, d + HeaderToken(u, j).1)
  {
    OccursAtShift(t, d, u, j, HeaderMarker);
    SkippedShift(t, d, u, j + 3, HeaderMarker);
    HeaderResultShift(t, d, u, j, Skipped(u, j + 3, HeaderMarker));
  }

  /** ... once the search has skipped the same span in both. */
  lemma HeaderResultShift(t: Text, d: nat, u: Text, j: nat, n: nat)
    requires SuffixAt(t, d, u) && j + 3 + n <= |u| && (n > 0 ==> j + 3 + n + 3 <= |u|)
    ensures HeaderResult(t, d + j, n) == (HeaderResult(u, j, n).0, d + HeaderResult(u, j, n).1)
  {
    if n > 0 {
      SliceShift(t, d, u, j + 3, j + 3 + n);
      NewLineLengthShift(t, d, u, j + 3 + n + 3);
    }
  }

  /** The image branch does the same on a suffix, only shifted. */
  lemma ImageTokenShift(t: Text, d: nat, u: Text, j: nat, wellFormed: Text -> bool)
    requires SuffixAt(t, d, u) && OccursAt(u, j, ImageOpen)
    ensures OccursAt(t, d + j, ImageOpen)
    ensures ImageToken(t, d + j, wellFormed) ==
      (ImageToken(u, j, wellFormed).0, d + ImageToken(u, j, wellFormed).1)
  {
    OccursAtShift(t, d, u, j, ImageOpen);
    SkippedShift(t, d, u, j + 2, ImageClose);
    ImageResultShift(t, d, u, j, wellFormed, Skipped(u, j + 2, ImageClose));
  }

  /** ... once the search has skipped the same span in both. */
  lemma ImageResultShift(t: Text, d: nat, u: Text, j: nat, wellFormed: Text -> bool, n: nat)
    requires SuffixAt(t, d, u) && j + 2 + n <= |u| && (n > 0 ==> j + 2 + n + 1 <= |u|)
    ensures ImageResult(t, d + j, wellFormed, n) ==
      (ImageResult(u, j, wellFormed, n).0, d + ImageResult(u, j, wellFormed, n).1)
  {
    SliceShift(t, d, u, j + 2, j + 2 + n);
    if n > 0 {
      NewLineLengthShift(t, d, u, j + 2 + n + 1);
    }
  }

  /** One loop iteration does the same on a suffix, only shifted. */
  lemma TokenShift(t: Text, d: nat, u: Text, j: nat, wellFormed: Text -> bool)
    requires SuffixAt(t, d, u) && j < |u|
    ensures Token(t, d + j, wellFormed) == (Token(u, j, wellFormed).0, d + Token(u, j, wellFormed).1)
  {
    OccursAtShift(t, d, u, j, HeaderMarker);
    OccursAtShift(t, d, u, j, ImageOpen);
    if OccursAt(u, j, HeaderMarker) {
      HeaderTokenShift(t, d, u, j);
    } else if OccursAt(u, j, ImageOpen) {
      ImageTokenShift(t, d, u, j, wellFormed);
    } else {
      NewLineLengthShift(t, d, u, j);
      assert t[d + j] == u[j];
    }
  }

  /** The whole scan from an offset does the same on a suffix, from the matching offset. */
  lemma {:induction false} RenderFromShift(t: Text, d: nat, u: Text, j: nat, wellFormed: Text -> bool)
    requires SuffixAt(t, d, u) && j <= |u|
    ensures RenderFrom(t, d + j, wellFormed) == RenderFrom(u, j, wellFormed)
    decreases |u| - j
  {
    if j < |u| {
      var step := Token(u, j, wellFormed);
      TokenShift(t, d, u, j, wellFormed);
      var shifted := Token(t, d + j, wellFormed);
      assert shifted.0 == step.0 && shifted.1 == d + step.1;
      RenderFromShift(t, d, u, step.1, wellFormed);
      RenderFromStep(t, d + j, wellFormed);
      RenderFromStep(u, j, wellFormed);
    } else {
      RenderFromEnd(t, wellFormed);
      RenderFromEnd(u, wellFormed);
    }
  }

  /** What the renderer emits from offset `i` on is what it emits for the rest of the text alone. */
  lemma RenderFromSuffix(t: Text, i: nat, wellFormed: Text -> bool)
    requires i <= |t|
    ensures RenderFrom(t, i, wellFormed) == Render(t[i..], wellFormed)
  {
    RenderFromShift(t, i, t[i..], 0, wellFormed);
  }

  // ---------------------------------------------------------------------------------------
  // Plain text and newlines.

  /** One literal event per unit of `a`, in order. */
  function Lits(a: Text): (events: seq<Event>)
    ensures |events| == |a|
    ensures forall k :: 0 <= k < |a| ==> events[k] == Lit([a[k]])
  {
    if a == [] then [] else [Lit([a[0]])] + Lits(a[1..])
  }

  /** `escape` writes each unit of `a`, taken on its own, as that unit again. */
  ghost predicate KeepsUnits(escape: Text -> Text, a: Text)
  {
    forall k :: 0 <= k < |a| ==> escape([a[k]]) == [a[k]]
  }

  /** The content of two runs of events is the content of the first, then that of the second. */
  lemma {:induction false} WrittenAppend(a: seq<Event>, b: seq<Event>, escape: Text -> Text)
    ensures Written(a + b, escape) == Written(a, escape) + Written(b, escape)
    decreases |a|
  {
    if a != [] {
      WrittenAppend(a[1..], b, escape);
      assert (a + b)[1..] == a[1..] + b;
      assert (a + b)[0] == a[0];
    } else {
      assert a + b == b;
    }
  }

  /** The units of `a`, written with an encoder that keeps them, spell `a` again. */
  lemma {:induction false} LitsSpellInput(a: Text, escape: Text -> Text)
    requires KeepsUnits(escape, a)
    ensures Written(Lits(a), escape) == a
    decreases |a|
  {
    if a != [] {
      assert escape([a[0]]) == [a[0]];
      assert KeepsUnits(escape, a[1..]) by {
        forall k | 0 <= k < |a[1..]|
          ensures escape([a[1..][k]]) == [a[1..][k]]
        {
          assert a[1..][k] == a[k + 1];
          assert escape([a[k + 1]]) == [a[k + 1]];
        }
      }
      LitsSpellInput(a[1..], escape);
      assert Lits(a)[1..] == Lits(a[1..]);
      assert [a[0]] + a[1..] == a;
    }
  }

  /** `s` does not occur at an offset whose unit differs from the first unit of `s`. */
  lemma NotAt(t: Text, i: nat, s: Text)
    requires i < |t| && |s| > 0 && t[i] != s[0]
    ensures !OccursAt(t, i, s)
  {
    if i + |s| <= |t| {
      assert t[i..i + |s|][0] == t[i];
    }
  }

  /** No branch other than the single-unit one can start at offset `j` of `t`. */
  predicate PlainAt(t: Text, j: nat)
  {
    j < |t| && t[j] != LF && t[j] != CR &&
    !(j + 3 <= |t| && t[j] == 0x23 && t[j + 1] == 0x23 && t[j + 2] == 0x23) &&
    !(j + 2 <= |t| && t[j] == 0x21 && t[j + 1] == 0x5B)
  }

  /** `PlainAt` holds exactly where neither marker nor a newline starts. */
  lemma PlainAtMeans(t: Text, j: nat)
    requires j < |t|
    ensures PlainAt(t, j) <==>
      !OccursAt(t, j, HeaderMarker) && !OccursAt(t, j, ImageOpen) && NewLineLength(t, j) == 0
  {
    if j + 3 <= |t| {
      assert t[j..j + 3] == HeaderMarker <==> t[j] == 0x23 && t[j + 1] == 0x23 && t[j + 2] == 0x23 by {
        if t[j] == 0x23 && t[j + 1] == 0x23 && t[j + 2] == 0x23 {
          assert t[j..j + 3] == [t[j], t[j + 1], t[j + 2]];
        }
      }
    }
    if j + 2 <= |t| {
      assert t[j..j + 2] == ImageOpen <==> t[j] == 0x21 && t[j + 1] == 0x5B by {
        if t[j] == 0x21 && t[j + 1] == 0x5B {
          assert t[j..j + 2] == [t[j], t[j + 1]];
        }
      }
      assert t[j..j + 2][0] == t[j];
    }
  }

  /** A unit at which no other branch starts is emitted on its own. */
  lemma RenderPlainUnit(t: Text, i: nat, wellFormed: Text -> bool)
    requires PlainAt(t, i)
    ensures RenderFrom(t, i, wellFormed) == [Lit([t[i]])] + RenderFrom(t, i + 1, wellFormed)
  {
    PlainAtMeans(t, i);
    RenderFromStep(t, i, wellFormed);
  }

  /** Plain units spelling `a` from offset `i` of `t` on render one literal each. */
  lemma {:induction false} RenderFromPlain(t: Text, i: nat, a: Text, wellFormed: Text -> bool)
    requires i + |a| <= |t|
    requires PlainFrom(t, i, a)
    ensures RenderFrom(t, i, wellFormed) == Lits(a) + RenderFrom(t, i + |a|, wellFormed)
    decreases |a|
  {
    if a == [] {
      assert Lits(a) == [];
    } else {
      PlainFromTail(t, i, a);
      RenderFromPlain(t, i + 1, a[1..], wellFormed);
      RenderPlainUnit(t, i, wellFormed);
      var rest := RenderFrom(t, i + |a|, wellFormed);
      var first := [Lit([a[0]])];
      var more := Lits(a[1..]);
      assert RenderFrom(t, i, wellFormed) == first + (more + rest);
      assert Lits(a) == first + more;
      assert first + (more + rest) == (first + more) + rest;
    }
  }

  /** The units of `a` are plain and spell `a`, read from offset `i` of `t`. */
  ghost predicate PlainFrom(t: Text, i: nat, a: Text)
  {
    i + |a| <= |t| && forall k :: 0 <= k < |a| ==> t[i + k] == a[k] && PlainAt(t, i + k)
  }

  /** Peels the first unit off a plain run. */
  lemma PlainFromTail(t: Text, i: nat, a: Text)
    requires PlainFrom(t, i, a) && a != []
    ensures t[i] == a[0] && PlainAt(t, i) && PlainFrom(t, i + 1, a[1..])
  {
    assert t[i + 0] == a[0] && PlainAt(t, i + 0);
    forall k | 0 <= k < |a| - 1
      ensures t[i + 1 + k] == a[1..][k] && PlainAt(t, i + 1 + k)
    {
      assert t[i + (k + 1)] == a[k + 1] && PlainAt(t, i + (k + 1));
    }
  }

  /** Plain units at the front of `a + r` form a plain run from offset 0. */
  lemma PlainFromPrefix(a: Text, r: Text)
    requires forall j :: 0 <= j < |a| ==> PlainAt(a + r, j)
    ensures PlainFrom(a + r, 0, a)
  {
    forall k | 0 <= k < |a|
      ensures (a + r)[0 + k] == a[k] && PlainAt(a + r, 0 + k)
    {
      assert PlainAt(a + r, k);
    }
  }

  /**
   * Text in which no header, image or newline starts renders one literal unit at a time, up to
   * where the rest `r` begins.
   */
  lemma RenderPlainThen(a: Text, r: Text, wellFormed: Text -> bool)
    requires forall j :: 0 <= j < |a| ==> PlainAt(a + r, j)
    ensures Render(a + r, wellFormed) == Lits(a) + Render(r, wellFormed)
  {
    var t := a + r;
    PlainFromPrefix(a, r);
    RenderFromPlain(t, 0, a, wellFormed);
    RenderFromSuffix(t, |a|, wellFormed);
    assert t[|a|..] == r;
  }

  /** Text without "###", "![" or a newline renders as one literal per unit. */
  lemma RenderPlain(a: Text, wellFormed: Text -> bool)
    requires forall j :: 0 <= j < |a| ==> PlainAt(a, j)
    ensures Render(a, wellFormed) == Lits(a)
  {
    assert a + [] == a;
    RenderPlainThen(a, [], wellFormed);
    assert Render([], wellFormed) == [];
  }

  /** ... and those literals, written with an encoder that keeps them, spell the input again. */
  lemma RenderPlainSpellsInput(a: Text, escape: Text -> Text, wellFormed: Text -> bool)
    requires forall j :: 0 <= j < |a| ==> PlainAt(a, j)
    requires KeepsUnits(escape, a)
    ensures Written(Render(a, wellFormed), escape) == a
  {
    RenderPlain(a, wellFormed);
    LitsSpellInput(a, escape);
  }

  /** Each newline spelling outside any markup becomes exactly one line break. */
  lemma RenderNewLine(nl: Text, r: Text, wellFormed: Text -> bool)
    requires nl == [LF] || nl == CrLf || (nl == [CR] && (r == [] || r[0] != LF))
    ensures Render(nl + r, wellFormed) == [Html(LineBreak)] + Render(r, wellFormed)
  {
    var t := nl + r;
    assert t[0] == nl[0];
    NotAt(t, 0, HeaderMarker);
    NotAt(t, 0, ImageOpen);
    if nl == CrLf {
      assert t[..2] == CrLf;
    } else if nl == [LF] {
      NotAt(t, 0, CrLf);
    } else if |t| > 1 {
      assert t[1] == r[0];
      assert t[0..2][1] == t[1];
    }
    RenderFromStep(t, 0, wellFormed);
    RenderFromSuffix(t, |nl|, wellFormed);
    assert t[|nl|..] == r;
  }

  // ---------------------------------------------------------------------------------------
  // Headers.

  /** `closing` does not start anywhere inside `x + closing` before the end of `x`. */
  predicate NoEarlierClose(x: Text, closing: Text)
  {
    forall j :: 0 <= j < |x| ==> !OccursAt(x + closing, j, closing)
  }

  /** The rest of `r` once at most one leading newline is dropped. */
  function DropNewLine(r: Text): Text
  {
    r[NewLineLength(r, 0)..]
  }

  /** Where `###x###` followed by `r` puts its markers, when `x` holds no "###" of its own. */
  lemma HeaderSpan(x: Text, r: Text)
    requires NoEarlierClose(x, HeaderMarker)
    ensures var t := HeaderMarker + x + HeaderMarker + r;
      OccursAt(t, 0, HeaderMarker) && SkipsTo(t, 3, HeaderMarker, |x|) &&
      t[3..3 + |x|] == x && t[3 + |x| + 3..] == r
  {
    var t := HeaderMarker + x + HeaderMarker + r;
    assert t[..3] == HeaderMarker;
    assert SuffixAt(t, 3, x + HeaderMarker + r);
    forall j | 3 <= j < 3 + |x|
      ensures !OccursAt(t, j, HeaderMarker)
    {
      OccursAtShift(t, 3, x + HeaderMarker + r, j - 3, HeaderMarker);
      OccursAtPrefix(x + HeaderMarker, r, j - 3, HeaderMarker);
    }
    assert t[3 + |x|..3 + |x| + 3] == HeaderMarker;
    assert t[3..3 + |x|] == x;
    assert t[3 + |x| + 3..] == r;
  }

  /** Resuming after one optional newline at offset `m`, where `r` starts, renders `DropNewLine(r)`. */
  lemma RenderAfterNewLine(t: Text, m: nat, r: Text, wellFormed: Text -> bool)
    requires m <= |t| && t[m..] == r
    ensures RenderFrom(t, SkipNewLine(t, m), wellFormed) == Render(DropNewLine(r), wellFormed)
  {
    DropNewLineShift(t, m, r);
    RenderFromSuffix(t, SkipNewLine(t, m), wellFormed);
  }

  /** Skipping one optional newline at offset `m`, where `r` starts, leaves `DropNewLine(r)`. */
  lemma DropNewLineShift(t: Text, m: nat, r: Text)
    requires m <= |t| && t[m..] == r
    ensures SkipNewLine(t, m) <= |t| && t[SkipNewLine(t, m)..] == DropNewLine(r)
  {
    assert SuffixAt(t, m, r);
    NewLineLengthShift(t, m, r, 0);
  }

  /**
   * `###x###` with a non-empty `x` that holds no "###" of its own becomes a marquee around the
   * literal `x`; one newline right after the closing marker is swallowed.
   */
  lemma RenderHeader(x: Text, r: Text, wellFormed: Text -> bool)
    requires x != [] && NoEarlierClose(x, HeaderMarker)
    ensures Render(HeaderMarker + x + HeaderMarker + r, wellFormed) ==
      [Html(MarqueeOpen), Lit(x), Html(MarqueeClose)] + Render(DropNewLine(r), wellFormed)
  {
    HeaderSpan(x, r);
    RenderHeaderAt(HeaderMarker + x + HeaderMarker + r, x, r, wellFormed);
  }

  /** `RenderHeader`, for any `t` laid out as `###x###` followed by `r`. */
  lemma RenderHeaderAt(t: Text, x: Text, r: Text, wellFormed: Text -> bool)
    requires x != [] && OccursAt(t, 0, HeaderMarker) && SkipsTo(t, 3, HeaderMarker, |x|)
    requires t[3..3 + |x|] == x && t[3 + |x| + 3..] == r
    ensures Render(t, wellFormed) == [Html(MarqueeOpen), Lit(x), Html(MarqueeClose)] + Render(DropNewLine(r), wellFormed)
  {
    var m := 3 + |x| + 3;
    MarqueeToken(t, 0, |x|);
    RenderFromStep(t, 0, wellFormed);
    RenderAfterNewLine(t, m, r, wellFormed);
  }

  /** A "###" with no closing "###" after it is emitted as it is, and the scan goes on after it. */
  lemma RenderUnclosedHeader(x: Text, wellFormed: Text -> bool)
    requires AbsentFrom(x, 0, HeaderMarker)
    ensures Render(HeaderMarker + x, wellFormed) == [Html(Hashes)] + Render(x, wellFormed)
  {
    var t := HeaderMarker + x;
    assert OccursAt(t, 0, HeaderMarker) by { assert t[..3] == HeaderMarker; }
    assert SuffixAt(t, 3, x);
    forall j | 3 <= j <= |t|
      ensures !OccursAt(t, j, HeaderMarker)
    {
      OccursAtShift(t, 3, x, j - 3, HeaderMarker);
    }
    PlainMarkerToken(t, 0);
    RenderFromStep(t, 0, wellFormed);
    RenderFromSuffix(t, 3, wellFormed);
    assert t[3..] == x;
  }

  /** An empty header "######" is not one: its first "###" is emitted as it is. */
  lemma RenderEmptyHeader(r: Text, wellFormed: Text -> bool)
    ensures Render(HeaderMarker + HeaderMarker + r, wellFormed) ==
      [Html(Hashes)] + Render(HeaderMarker + r, wellFormed)
  {
    var t := HeaderMarker + HeaderMarker + r;
    assert OccursAt(t, 0, HeaderMarker) by { assert t[..3] == HeaderMarker; }
    assert OccursAt(t, 3, HeaderMarker) by { assert t[3..6] == HeaderMarker; }
    PlainMarkerToken(t, 0);
    RenderFromStep(t, 0, wellFormed);
    RenderFromSuffix(t, 3, wellFormed);
    assert t[3..] == HeaderMarker + r;
  }

  // ---------------------------------------------------------------------------------------
  // Images.

  /** Where `![u]` followed by `r` puts its markers, when `u` holds no "]". */
  lemma ImageSpan(u: Text, r: Text)
    requires NoEarlierClose(u, ImageClose)
    ensures var t := ImageOpen + u + ImageClose + r;
      !OccursAt(t, 0, HeaderMarker) && OccursAt(t, 0, ImageOpen) && SkipsTo(t, 2, ImageClose, |u|) &&
      t[2..2 + |u|] == u && t[2 + |u|] == 0x5D && t[2 + |u| + 1..] == r
  {
    var t := ImageOpen + u + ImageClose + r;
    assert t[1] == 0x5B;
    assert t[..2] == ImageOpen;
    assert SuffixAt(t, 2, u + ImageClose + r);
    forall j | 2 <= j < 2 + |u|
      ensures !OccursAt(t, j, ImageClose)
    {
      OccursAtShift(t, 2, u + ImageClose + r, j - 2, ImageClose);
      OccursAtPrefix(u + ImageClose, r, j - 2, ImageClose);
    }
    assert t[2 + |u|..2 + |u| + 1] == ImageClose;
    assert t[2..2 + |u|] == u;
    assert t[2 + |u| + 1..] == r;
  }

  /**
   * `![u]` with a non-empty `u` that holds no "]" and that the URI check accepts becomes an
   * image element around the unescaped `u`; one newline right after the "]" is swallowed.
   */
  lemma RenderImage(u: Text, r: Text, wellFormed: Text -> bool)
    requires u != [] && NoEarlierClose(u, ImageClose) && wellFormed(u)
    ensures Render(ImageOpen + u + ImageClose + r, wellFormed) ==
      [Html(ImageTag(u))] + Render(DropNewLine(r), wellFormed)
  {
    ImageSpan(u, r);
    RenderImageAt(ImageOpen + u + ImageClose + r, u, r, wellFormed);
  }

  /** `RenderImage`, for any `t` laid out as `![u]` followed by `r`. */
  lemma RenderImageAt(t: Text, u: Text, r: Text, wellFormed: Text -> bool)
    requires u != [] && wellFormed(u)
    requires !OccursAt(t, 0, HeaderMarker) && OccursAt(t, 0, ImageOpen) && SkipsTo(t, 2, ImageClose, |u|)
    requires t[2..2 + |u|] == u && t[2 + |u| + 1..] == r
    ensures Render(t, wellFormed) == [Html(ImageTag(u))] + Render(DropNewLine(r), wellFormed)
  {
    var m := 2 + |u| + 1;
    AcceptedImageToken(t, 0, wellFormed, |u|);
    RenderFromStep(t, 0, wellFormed);
    RenderAfterNewLine(t, m, r, wellFormed);
  }

  /**
   * `![u]` whose `u` is empty or rejected by the URI check is emitted as "![", the literal `u`
   * and then the "]" as literal text of its own.
   */
  lemma RenderRejectedImage(u: Text, r: Text, wellFormed: Text -> bool)
    requires NoEarlierClose(u, ImageClose) && (u == [] || !wellFormed(u))
    ensures Render(ImageOpen + u + ImageClose + r, wellFormed) ==
      [Html(ImageOpenText), Lit(u), Lit(ImageClose)] + Render(r, wellFormed)
  {
    ImageSpan(u, r);
    RenderRejectedImageAt(ImageOpen + u + ImageClose + r, u, r, wellFormed);
  }

  /** `RenderRejectedImage`, for any `t` laid out as `![u]` followed by `r`. */
  lemma RenderRejectedImageAt(t: Text, u: Text, r: Text, wellFormed: Text -> bool)
    requires (u == [] || !wellFormed(u)) && 2 + |u| < |t|
    requires !OccursAt(t, 0, HeaderMarker) && OccursAt(t, 0, ImageOpen) && SkipsTo(t, 2, ImageClose, |u|)
    requires t[2..2 + |u|] == u && t[2 + |u|] == 0x5D && t[2 + |u| + 1..] == r
    ensures Render(t, wellFormed) == [Html(ImageOpenText), Lit(u), Lit(ImageClose)] + Render(r, wellFormed)
  {
    var m := 2 + |u|;
    RejectedImageToken(t, 0, wellFormed, |u|);
    RenderFromStep(t, 0, wellFormed);
    var front := [Html(ImageOpenText), Lit(u)];
    assert Render(t, wellFormed) == front + RenderFrom(t, m, wellFormed);
    // the scan resumes on the "]", which only the single-unit branch accepts
    RenderCloseBracket(t, m, wellFormed);
    RenderFromSuffix(t, m + 1, wellFormed);
    assert RenderFrom(t, m, wellFormed) == [Lit(ImageClose)] + Render(r, wellFormed);
    assert front + ([Lit(ImageClose)] + Render(r, wellFormed)) ==
      [Html(ImageOpenText), Lit(u), Lit(ImageClose)] + Render(r, wellFormed);
  }

  /** A "]" that no image claims is literal text. */
  lemma RenderCloseBracket(t: Text, m: nat, wellFormed: Text -> bool)
    requires m < |t| && t[m] == 0x5D
    ensures RenderFrom(t, m, wellFormed) == [Lit(ImageClose)] + RenderFrom(t, m + 1, wellFormed)
  {
    if m + 3 <= |t| {
      assert t[m..m + 3][0] == t[m];
    }
    if m + 2 <= |t| {
      assert t[m..m + 2][0] == t[m];
    }
    assert !OccursAt(t, m, CrLf);
    RenderFromStep(t, m, wellFormed);
  }

  /** An "![" with no "]" after it is emitted as it is, with an empty literal, and the scan goes on after it. */
  lemma RenderUnclosedImage(u: Text, wellFormed: Text -> bool)
    requires AbsentFrom(u, 0, ImageClose)
    ensures Render(ImageOpen + u, wellFormed) == [Html(ImageOpenText), Lit([])] + Render(u, wellFormed)
  {
    var t := ImageOpen + u;
    assert !OccursAt(t, 0, HeaderMarker) by { assert t[1] == 0x5B; }
    assert OccursAt(t, 0, ImageOpen) by { assert t[..2] == ImageOpen; }
    assert SuffixAt(t, 2, u);
    forall j | 2 <= j <= |t|
      ensures !OccursAt(t, j, ImageClose)
    {
      OccursAtShift(t, 2, u, j - 2, ImageClose);
    }
    assert SkipsTo(t, 2, ImageClose, 0);
    RejectedImageToken(t, 0, wellFormed, 0);
    assert t[2..2] == [];
    assert Token(t, 0, wellFormed) == ([Html(ImageOpenText), Lit([])], 2);
    RenderFromStep(t, 0, wellFormed);
    RenderFromSuffix(t, 2, wellFormed);
    assert t[2..] == u;
    assert Render(t, wellFormed) == [Html(ImageOpenText), Lit([])] + RenderFrom(t, 2, wellFormed);
  }

  // ---------------------------------------------------------------------------------------
  // The trust boundary.

  /** An event that inserts markup depending on the input does so only for an accepted URL. */
  predicate Trusted(e: Event, wellFormed: Text -> bool)
  {
    e.Html? && e.fragment.ImageTag? ==> e.fragment.url != [] && wellFormed(e.fragment.url)
  }

  /** `RenderTrusted`, for the scan from any offset. */
  lemma {:induction false} RenderFromTrusted(t: Text, i: nat, wellFormed: Text -> bool)
    requires i <= |t|
    ensures forall k :: 0 <= k < |RenderFrom(t, i, wellFormed)| ==> Trusted(RenderFrom(t, i, wellFormed)[k], wellFormed)
    decreases |t| - i
  {
    if i < |t| {
      var step := Token(t, i, wellFormed);
      RenderFromStep(t, i, wellFormed);
      RenderFromTrusted(t, step.1, wellFormed);
      var rest := RenderFrom(t, step.1, wellFormed);
      assert RenderFrom(t, i, wellFormed) == step.0 + rest;
      assert forall k :: 0 <= k < |step.0| ==> Trusted(step.0[k], wellFormed);
      assert forall k :: 0 <= k < |rest| ==> Trusted(rest[k], wellFormed);
      forall k | 0 <= k < |step.0 + rest|
        ensures Trusted((step.0 + rest)[k], wellFormed)
      {
        if k >= |step.0| {
          assert (step.0 + rest)[k] == rest[k - |step.0|];
        }
      }
    }
  }

  /**
   * Text of the post reaches the output unescaped only as the URL of an image that the URI
   * check accepted; every other markup event is one of the fixed fragments.
   */
  lemma RenderTrusted(t: Text, wellFormed: Text -> bool)
    ensures forall k :: 0 <= k < |Render(t, wellFormed)| ==> Trusted(Render(t, wellFormed)[k], wellFormed)
  {
    RenderFromTrusted(t, 0, wellFormed);
  }
}
