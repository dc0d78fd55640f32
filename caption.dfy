/**
 * `draw_caption`: greedy word wrap of the caption to `screen_width - 40` pixels, then a block of
 * lines anchored 20 pixels above the bottom of the screen, each line over a dark backing box.
 * The font is abstract: `measure` is `font.size(s)[0]`, `render` the size of `font.render(s)`,
 * `height` is `font.get_height()`.
 */
module Caption {
  import opened Text

  /** Lines wrap at `screen_width - WrapMargin` pixels. */
  const WrapMargin: int := 40
  /** Vertical space added to the font height for every line. */
  const LineGap: int := 5
  /** The block ends this far above the bottom edge. */
  const BottomMargin: int := 20
  /** Left edge of each backing box, and of each text. */
  const BackingX: int := 10
  const TextX: int := 20
  /** Backing boxes are the rendered text plus this padding. */
  const BackingPadWidth: int := 20
  const BackingPadHeight: int := 10
  /** Each text starts this far below the top of its backing box. */
  const TextInset: int := 5

  datatype Font = Font(measure: string -> nat, render: string -> (nat, nat), height: nat)

  datatype Rect = Rect(x: int, y: int, width: int, height: int)

  /** One caption line as drawn: the backing box, then the text at (`textX`, `textY`). */
  datatype LineBlit = LineBlit(text: string, backing: Rect, textX: int, textY: int)

  /** `IMG_DESCR.get(name, name)`: the stored description, or the file name itself. */
  function CaptionFor(descr: map<string, string>, name: string): (caption: string)
    ensures name in descr ==> caption == descr[name]
    ensures name !in descr ==> caption == name
  {
    if name in descr then descr[name] else name
  }

  /** The lines that are not empty, in order. */
  function NonEmpty(lines: seq<string>): (r: seq<string>)
    ensures forall i :: 0 <= i < |r| ==> r[i] != ""
  {
    if lines == [] then []
    else NonEmpty(lines[..|lines| - 1]) + (if lines[|lines| - 1] == "" then [] else [lines[|lines| - 1]])
  }

  lemma NonEmptySnoc(lines: seq<string>, line: string)
    ensures NonEmpty(lines + [line]) == NonEmpty(lines) + (if line == "" then [] else [line])
  {
    assert (lines + [line])[..|lines|] == lines;
  }

  /**
   * What `f"{line} {word}".strip()` is for a line built from words (see `StripJoin`): the word
   * alone on an empty line, else the line, a space and the word.
   */
  function Joined(line: string, word: string): string {
    if line == "" then word else line + " " + word
  }

  /** The line break before `next` was forced: `prev` with `next`'s first word was too wide. */
  predicate BreakForced(measure: string -> nat, maxWidth: int, prev: string, next: string) {
    measure(Joined(prev, TakeWord(next))) > maxWidth
  }

  /**
   * Every prefix of `l` that ends where a word ends and holds at least two words fits: each
   * `test_line` that put a second or later word on this line was accepted by the width test.
   */
  predicate PrefixesFit(measure: string -> nat, maxWidth: int, l: string) {
    forall j :: 0 < j <= |l| && (j == |l| || l[j] == ' ') && ' ' in l[..j] ==> measure(l[..j]) <= maxWidth
  }

  /** A single word has no such prefix. */
  lemma WordPrefixesFit(measure: string -> nat, maxWidth: int, w: string)
    requires NoSpace(w)
    ensures PrefixesFit(measure, maxWidth, w)
  {
    forall j | 0 < j <= |w|
      ensures ' ' !in w[..j]
    {
      assert forall c :: c in w[..j] ==> !IsSpace(c);
    }
  }

  /** Adding a word that fits keeps the prefixes of the line fitting. */
  lemma GrownPrefixesFit(measure: string -> nat, maxWidth: int, line: string, w: string)
    requires PrefixesFit(measure, maxWidth, line) && NoSpace(w)
    requires measure(line + " " + w) <= maxWidth
    ensures PrefixesFit(measure, maxWidth, line + " " + w)
  {
    var l := line + " " + w;
    forall j | 0 < j <= |l| && (j == |l| || l[j] == ' ') && ' ' in l[..j]
      ensures measure(l[..j]) <= maxWidth
    {
      if j == |l| {
        assert l[..j] == l;
      } else if j <= |line| {
        assert l[..j] == line[..j];
        assert j < |line| ==> l[j] == line[j];
      }
    }
  }

  /** `f"{line} {word}".strip()` for a line built from words is `Joined(line, word)`. */
  lemma StripJoin(line: string, word: string)
    requires Trimmed(line) && word != [] && NoSpace(word)
    ensures Strip(line + " " + word) == Joined(line, word)
  {
    if line == "" {
      var s := line + " " + word;
      assert s[1..] == word;
      assert LeadingSpace(s) == 1;
      assert s[1..|s|] == word;
    } else {
      var s := line + " " + word;
      assert s[0] == line[0] && s[|s| - 1] == word[|word| - 1];
      assert Trimmed(s);
    }
  }

  /** Adding a word to the current line keeps the joined words. */
  lemma FitKeepsWords(lines: seq<string>, line: string, word: string, done: seq<string>)
    requires JoinSpace(NonEmpty(lines + [line])) == JoinSpace(done)
    requires line == "" <==> done == []
    requires done == [] ==> lines == []
    requires word != ""
    ensures JoinSpace(NonEmpty(lines + [Joined(line, word)])) == JoinSpace(done + [word])
  {
    JoinSpaceSnoc(done, word);
    if line == "" {
      assert lines + [word] == [] + [word];
      NonEmptySnoc([], word);
    } else {
      LongerKeepsWords(lines, line, word, JoinSpace(done));
    }
  }

  /** The non-empty-line case of `FitKeepsWords`, over the joined text `s` of the words so far. */
  lemma LongerKeepsWords(lines: seq<string>, line: string, word: string, s: string)
    requires JoinSpace(NonEmpty(lines + [line])) == s
    requires line != "" && word != ""
    ensures JoinSpace(NonEmpty(lines + [line + " " + word])) == s + " " + word
  {
    var p := NonEmpty(lines);
    var longer := line + " " + word;
    NonEmptySnoc(lines, line);
    NonEmptySnoc(lines, longer);
    assert NonEmpty(lines + [line]) == p + [line];
    assert NonEmpty(lines + [longer]) == p + [longer];
    JoinSpaceSnoc(p, line);
    JoinSpaceSnoc(p, longer);
    if p != [] {
      SpaceAssoc(JoinSpace(p), line, word);
    }
  }

  /** Regrouping a space-separated concatenation of three strings. */
  lemma SpaceAssoc(a: string, line: string, word: string)
    ensures a + " " + (line + " " + word) == (a + " " + line) + " " + word
  {
  }

  /** Closing the current line and starting a new one with the word keeps the joined words. */
  lemma BreakKeepsWords(lines: seq<string>, line: string, word: string, done: seq<string>)
    requires JoinSpace(NonEmpty(lines + [line])) == JoinSpace(done)
    requires line == "" <==> done == []
    requires done == [] ==> lines == []
    requires word != ""
    ensures JoinSpace(NonEmpty(lines + [line] + [word])) == JoinSpace(done + [word])
  {
    JoinSpaceSnoc(done, word);
    var q := lines + [line];
    NonEmptySnoc(q, word);
    JoinSpaceSnoc(NonEmpty(q), word);
    if line == "" {
      assert q == [] + [""];
      NonEmptySnoc([], "");
    } else {
      NonEmptySnoc(lines, line);
    }
  }

  // The state of the wrap loop after the first `k` words, as four predicates over the closed
  // `lines` and the open `line`, each kept by its own lemmas.

  /** Which lines are empty: only the first closed one, and only when the first word is too wide. */
  predicate WrapShape(words: seq<string>, measure: string -> nat, maxWidth: int,
                      k: int, lines: seq<string>, line: string)
  {
    && 0 <= k <= |words|
    && (line == "" <==> k == 0)
    && (k == 0 ==> lines == [])
    && Trimmed(line)
    && (forall i :: 0 < i < |lines| ==> lines[i] != "")
    && (|lines| > 0 ==> (lines[0] == "" <==> measure(words[0]) > maxWidth))
    && (k > 0 && measure(words[0]) > maxWidth ==> |lines| > 0)
  }

  /** Every line is empty, fits, or is a single word. */
  predicate WrapFits(words: seq<string>, measure: string -> nat, maxWidth: int,
                     lines: seq<string>, line: string)
  {
    && (forall i :: 0 <= i < |lines| ==>
          lines[i] == "" || measure(lines[i]) <= maxWidth || lines[i] in words)
    && (line == "" || measure(line) <= maxWidth || line in words)
  }

  /** Every break, including the one before the open line, was forced. */
  predicate WrapForced(measure: string -> nat, maxWidth: int, lines: seq<string>, line: string) {
    && (forall i :: 0 < i < |lines| ==> BreakForced(measure, maxWidth, lines[i - 1], lines[i]))
    && (|lines| > 0 ==> BreakForced(measure, maxWidth, lines[|lines| - 1], line))
  }

  /** The lines hold exactly the first `k` words. */
  predicate WrapKeeps(words: seq<string>, k: int, lines: seq<string>, line: string)
    requires 0 <= k <= |words|
  {
    JoinSpace(NonEmpty(lines + [line])) == JoinSpace(words[..k])
  }

  /** Every line, closed or open, grew only by words that fitted. */
  predicate WrapGreedy(measure: string -> nat, maxWidth: int, lines: seq<string>, line: string) {
    && (forall i :: 0 <= i < |lines| ==> PrefixesFit(measure, maxWidth, lines[i]))
    && PrefixesFit(measure, maxWidth, line)
  }

  /**
   * What `draw_caption`'s wrap loop gives for the words of a caption: at least one line; only
   * the first may be empty, and it is empty exactly when there are no words or the first word
   * alone is too wide; every line fits or is a single word; every break was forced; every line
   * grew only by words that fitted; and the non-empty lines, joined with spaces, are the words.
   */
  predicate Wrapped(words: seq<string>, measure: string -> nat, maxWidth: int, lines: seq<string>) {
    && |lines| >= 1
    && (forall i :: 0 < i < |lines| ==> lines[i] != "")
    && (lines[0] == "" <==> words == [] || measure(words[0]) > maxWidth)
    && (forall i :: 0 <= i < |lines| ==> lines[i] == "" || measure(lines[i]) <= maxWidth || lines[i] in words)
    && (forall i :: 0 < i < |lines| ==> BreakForced(measure, maxWidth, lines[i - 1], lines[i]))
    && (forall i :: 0 <= i < |lines| ==> PrefixesFit(measure, maxWidth, lines[i]))
    && JoinSpace(NonEmpty(lines)) == JoinSpace(words)
    && Words(JoinSpace(NonEmpty(lines))) == words
  }

  /** A joined line has no whitespace at its ends. */
  lemma JoinedTrimmed(line: string, word: string)
    requires Trimmed(line) && word != [] && NoSpace(word)
    ensures Trimmed(Joined(line, word))
  {
    StripJoin(line, word);
  }

  lemma FitShape(words: seq<string>, measure: string -> nat, maxWidth: int,
                 k: int, lines: seq<string>, line: string)
    requires AreWords(words) && WrapShape(words, measure, maxWidth, k, lines, line) && k < |words|
    requires measure(Joined(line, words[k])) <= maxWidth
    ensures WrapShape(words, measure, maxWidth, k + 1, lines, Joined(line, words[k]))
  {
    JoinedTrimmed(line, words[k]);
  }

  /** Text after a space does not change the first word of a line. */
  lemma FirstWordKept(line: string, word: string)
    requires line != ""
    ensures TakeWord(Joined(line, word)) == TakeWord(line)
  {
    var t := " " + word;
    assert t[0] == ' ';
    TakeWordPrefix(line, t);
    assert line + " " + word == line + t;
  }

  lemma FitForced(measure: string -> nat, maxWidth: int, lines: seq<string>, line: string, word: string)
    requires WrapForced(measure, maxWidth, lines, line)
    requires |lines| > 0 ==> line != ""
    ensures WrapForced(measure, maxWidth, lines, Joined(line, word))
  {
    if |lines| > 0 {
      FirstWordKept(line, word);
    }
  }

  lemma BreakShape(words: seq<string>, measure: string -> nat, maxWidth: int,
                   k: int, lines: seq<string>, line: string)
    requires AreWords(words) && WrapShape(words, measure, maxWidth, k, lines, line) && k < |words|
    requires measure(Joined(line, words[k])) > maxWidth
    ensures WrapShape(words, measure, maxWidth, k + 1, lines + [line], words[k])
  {
    assert Trimmed(words[k]);
  }

  lemma BreakForcedStep(measure: string -> nat, maxWidth: int, lines: seq<string>, line: string, word: string)
    requires WrapForced(measure, maxWidth, lines, line)
    requires NoSpace(word)
    requires measure(Joined(line, word)) > maxWidth
    ensures WrapForced(measure, maxWidth, lines + [line], word)
  {
    TakeWordOfWord(word, []);
    assert word + [] == word;
  }

  /** Before the first word: no closed lines and an empty open line. */
  lemma WrapStart(words: seq<string>, measure: string -> nat, maxWidth: int)
    ensures WrapShape(words, measure, maxWidth, 0, [], "") && WrapFits(words, measure, maxWidth, [], "")
    ensures WrapForced(measure, maxWidth, [], "") && WrapKeeps(words, 0, [], "")
    ensures WrapGreedy(measure, maxWidth, [], "")
  {
    assert [] + [""] == [""];
  }

  /** Placing word `k` on the open line keeps the loop state. */
  lemma FitStep(words: seq<string>, measure: string -> nat, maxWidth: int, k: int, lines: seq<string>, line: string)
    requires AreWords(words) && 0 <= k < |words|
    requires WrapShape(words, measure, maxWidth, k, lines, line) && WrapFits(words, measure, maxWidth, lines, line)
    requires WrapForced(measure, maxWidth, lines, line) && WrapKeeps(words, k, lines, line)
    requires WrapGreedy(measure, maxWidth, lines, line)
    requires measure(Joined(line, words[k])) <= maxWidth
    ensures var next := Joined(line, words[k]);
            && WrapShape(words, measure, maxWidth, k + 1, lines, next) && WrapFits(words, measure, maxWidth, lines, next)
            && WrapForced(measure, maxWidth, lines, next) && WrapKeeps(words, k + 1, lines, next)
            && WrapGreedy(measure, maxWidth, lines, next)
  {
    var word := words[k];
    assert words[..k + 1] == words[..k] + [word];
    FitShape(words, measure, maxWidth, k, lines, line);
    FitForced(measure, maxWidth, lines, line, word);
    FitKeepsWords(lines, line, word, words[..k]);
    if line == "" {
      WordPrefixesFit(measure, maxWidth, word);
    } else {
      GrownPrefixesFit(measure, maxWidth, line, word);
    }
  }

  /** Closing the open line and starting a new one with word `k` keeps the loop state. */
  lemma BreakStep(words: seq<string>, measure: string -> nat, maxWidth: int, k: int, lines: seq<string>, line: string)
    requires AreWords(words) && 0 <= k < |words|
    requires WrapShape(words, measure, maxWidth, k, lines, line) && WrapFits(words, measure, maxWidth, lines, line)
    requires WrapForced(measure, maxWidth, lines, line) && WrapKeeps(words, k, lines, line)
    requires WrapGreedy(measure, maxWidth, lines, line)
    requires measure(Joined(line, words[k])) > maxWidth
    ensures var next := lines + [line];
            && WrapShape(words, measure, maxWidth, k + 1, next, words[k]) && WrapFits(words, measure, maxWidth, next, words[k])
            && WrapForced(measure, maxWidth, next, words[k]) && WrapKeeps(words, k + 1, next, words[k])
            && WrapGreedy(measure, maxWidth, next, words[k])
  {
    var word := words[k];
    assert words[..k + 1] == words[..k] + [word];
    BreakShape(words, measure, maxWidth, k, lines, line);
    BreakForcedStep(measure, maxWidth, lines, line, word);
    BreakKeepsWords(lines, line, word, words[..k]);
    assert word in words;
    WordPrefixesFit(measure, maxWidth, word);
  }

  // Once every word is placed, closing the open line gives the promised result, one
  // property at a time.

  lemma DoneShape(words: seq<string>, measure: string -> nat, maxWidth: int, lines: seq<string>, line: string)
    requires WrapShape(words, measure, maxWidth, |words|, lines, line)
    ensures forall i :: 0 < i < |lines + [line]| ==> (lines + [line])[i] != ""
    ensures (lines + [line])[0] == "" <==> words == [] || measure(words[0]) > maxWidth
  {
  }

  lemma DoneFits(words: seq<string>, measure: string -> nat, maxWidth: int, lines: seq<string>, line: string)
    requires WrapFits(words, measure, maxWidth, lines, line)
    ensures forall i :: 0 <= i < |lines + [line]| ==>
              var l := (lines + [line])[i]; l == "" || measure(l) <= maxWidth || l in words
  {
  }

  lemma DoneForced(measure: string -> nat, maxWidth: int, lines: seq<string>, line: string)
    requires WrapForced(measure, maxWidth, lines, line)
    ensures forall i :: 0 < i < |lines + [line]| ==>
              BreakForced(measure, maxWidth, (lines + [line])[i - 1], (lines + [line])[i])
  {
    var all := lines + [line];
    forall i | 0 < i < |all|
      ensures BreakForced(measure, maxWidth, all[i - 1], all[i])
    {
      if i < |lines| {
        assert all[i - 1] == lines[i - 1] && all[i] == lines[i];
      } else {
        assert all[i - 1] == lines[|lines| - 1] && all[i] == line;
      }
    }
  }

  lemma DoneGreedy(measure: string -> nat, maxWidth: int, lines: seq<string>, line: string)
    requires WrapGreedy(measure, maxWidth, lines, line)
    ensures forall i :: 0 <= i < |lines + [line]| ==> PrefixesFit(measure, maxWidth, (lines + [line])[i])
  {
  }

  lemma DoneKeeps(words: seq<string>, lines: seq<string>, line: string)
    requires AreWords(words) && WrapKeeps(words, |words|, lines, line)
    ensures JoinSpace(NonEmpty(lines + [line])) == JoinSpace(words)
    ensures Words(JoinSpace(NonEmpty(lines + [line]))) == words
  {
    assert words[..|words|] == words;
    WordsOfJoin(words);
  }

  /** The wrap loop of `draw_caption`: greedy, word by word, as `Wrapped` describes. */
  method WrapLines(text: string, measure: string -> nat, maxWidth: int) returns (lines: seq<string>)
    ensures Wrapped(Words(text), measure, maxWidth, lines)
  {
    var words := Words(text);
    lines := [];
    var line := "";
    var k := 0;
    WrapStart(words, measure, maxWidth);
    while k < |words|
      invariant WrapShape(words, measure, maxWidth, k, lines, line)
      invariant WrapFits(words, measure, maxWidth, lines, line)
      invariant WrapForced(measure, maxWidth, lines, line)
      invariant WrapKeeps(words, k, lines, line)
      invariant WrapGreedy(measure, maxWidth, lines, line)
      decreases |words| - k
    {
      var testLine := Strip(line + " " + words[k]);
      StripJoin(line, words[k]);
      if measure(testLine) > maxWidth {
        BreakStep(words, measure, maxWidth, k, lines, line);
        lines := lines + [line];
        line := words[k];
      } else {
        FitStep(words, measure, maxWidth, k, lines, line);
        line := testLine;
      }
      k := k + 1;
    }
    DoneShape(words, measure, maxWidth, lines, line);
    DoneFits(words, measure, maxWidth, lines, line);
    DoneForced(measure, maxWidth, lines, line);
    DoneGreedy(measure, maxWidth, lines, line);
    DoneKeeps(words, lines, line);
    lines := lines + [line];
  }

  /** The top of line `i` of `count`: the block is `count` line slots ending `BottomMargin` above the bottom. */
  function LineTop(screenHeight: int, lineHeight: int, count: int, i: int): (y: int)
    ensures y + (count - i) * (lineHeight + LineGap) == screenHeight - BottomMargin
  {
    screenHeight - count * (lineHeight + LineGap) - BottomMargin + i * (lineHeight + LineGap)
  }

  /** How line `i` of `count` is drawn. */
  function Placed(font: Font, screenHeight: int, count: int, i: int, line: string): LineBlit {
    var y := LineTop(screenHeight, font.height, count, i);
    var size := font.render(line);
    LineBlit(line, Rect(BackingX, y, size.0 + BackingPadWidth, size.1 + BackingPadHeight), TextX, y + TextInset)
  }

  /**
   * The drawing loop of `draw_caption`: line `i` has its backing box at x = 10 and y = LineTop,
   * sized to the rendered text plus (20, 10), and its text at (20, y + 5).
   */
  method LayoutLines(lines: seq<string>, screenHeight: int, font: Font) returns (blits: seq<LineBlit>)
    ensures |blits| == |lines|
    ensures forall i :: 0 <= i < |lines| ==> blits[i] == Placed(font, screenHeight, |lines|, i, lines[i])
  {
    var totalHeight := |lines| * (font.height + LineGap);
    var y := screenHeight - totalHeight - BottomMargin;
    blits := [];
    for i := 0 to |lines|
      invariant |blits| == i
      invariant y == LineTop(screenHeight, font.height, |lines|, i)
      invariant forall j :: 0 <= j < i ==> blits[j] == Placed(font, screenHeight, |lines|, j, lines[j])
    {
      var size := font.render(lines[i]);
      var backing := Rect(BackingX, y, size.0 + BackingPadWidth, size.1 + BackingPadHeight);
      blits := blits + [LineBlit(lines[i], backing, TextX, y + TextInset)];
      assert (i + 1) * (font.height + LineGap) == i * (font.height + LineGap) + font.height + LineGap;
      y := y + font.height + LineGap;
    }
  }

  function Texts(blits: seq<LineBlit>): (r: seq<string>)
    ensures |r| == |blits| && forall i :: 0 <= i < |blits| ==> r[i] == blits[i].text
  {
    seq(|blits|, i requires 0 <= i < |blits| => blits[i].text)
  }

  /**
   * What `draw_caption(text)` draws on a screen of the given size: the caption wrapped to
   * `screenWidth - WrapMargin`, one blit per line, each placed as `Placed` says.
   */
  predicate CaptionDrawn(text: string, font: Font, screenWidth: int, screenHeight: int, blits: seq<LineBlit>) {
    && Wrapped(Words(text), font.measure, screenWidth - WrapMargin, Texts(blits))
    && forall i :: 0 <= i < |blits| ==> blits[i] == Placed(font, screenHeight, |blits|, i, blits[i].text)
  }

  /** `draw_caption(text)` on a screen of the given size. */
  method DrawCaption(text: string, font: Font, screenWidth: int, screenHeight: int) returns (blits: seq<LineBlit>)
    ensures CaptionDrawn(text, font, screenWidth, screenHeight, blits)
  {
    var lines := WrapLines(text, font.measure, screenWidth - WrapMargin);
    blits := LayoutLines(lines, screenHeight, font);
    assert Texts(blits) == lines;
  }
}
