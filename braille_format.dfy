/** The Braille line formatter `texte_braille_pdf`: a paragraph of Braille cells, whose words
    are separated by the blank cell U+2800, is packed greedily into lines whose width is
    measured by the renderer against a budget. The measuring function is a parameter; it is
    assumed deterministic and nothing else (no additivity, no monotonicity). */
module BrailleFormat {
  import opened PyStr

  /** The Braille blank cell, standing in for a space between words. */
  const BLANK: char := '\U{2800}'

  /** The three blank cells that open every formatted paragraph. */
  const INDENT: string := [BLANK, BLANK, BLANK]

  /** The formatter's two accumulators: `texte_formate` (what is already laid out) and
      `ligne_actuelle` (the line being filled). */
  datatype Buffers = Buffers(formatted: string, line: string)

  /** One pass of the loop body for `word`. The candidate is the line with the word appended,
      and it is what gets measured. If it fits, it is kept and followed by one blank cell.
      Otherwise the candidate itself, right-stripped, is flushed with a newline, and the word
      alone starts the next line. */
  function Step(b: Buffers, word: string, maxWidth: real, measure: string -> real): (r: Buffers)
    ensures b.formatted <= r.formatted
    ensures r.formatted == b.formatted <==> measure(b.line + word) <= maxWidth
    ensures r.line != [] && r.line[|r.line| - 1] == BLANK
  {
    var candidate := b.line + word;
    if measure(candidate) <= maxWidth then Buffers(b.formatted, candidate + [BLANK])
    else Buffers(b.formatted + RStrip(candidate) + "\n", word + [BLANK])
  }

  /** The accumulators after the loop has consumed `words`, starting from the indent and an
      empty line. */
  function Run(words: seq<string>, maxWidth: real, measure: string -> real): (b: Buffers)
    ensures INDENT <= b.formatted
    ensures words != [] ==> b.line != [] && b.line[|b.line| - 1] == BLANK
    decreases |words|
  {
    if words == [] then Buffers(INDENT, [])
    else Step(Run(words[..|words| - 1], maxWidth, measure), words[|words| - 1], maxWidth, measure)
  }

  /** The string handed to the measuring function in the iteration for `words[i]`. */
  function Measured(words: seq<string>, i: nat, maxWidth: real, measure: string -> real): string
    requires i < |words|
  {
    Run(words[..i], maxWidth, measure).line + words[i]
  }

  /** The final guard: a non-empty line is appended, right-stripped, without a newline. */
  function Flush(b: Buffers): (r: string)
    ensures b.formatted <= r
    ensures b.line != [] && b.line[|b.line| - 1] == BLANK ==> r == b.formatted + b.line
  {
    if b.line != [] then b.formatted + RStrip(b.line) else b.formatted
  }

  /** The words of a paragraph: its fields between blank cells, empty ones included. */
  function Words(text: string): (words: seq<string>)
    ensures |words| >= 1
    ensures forall w :: w in words ==> BLANK !in w
    ensures Join(words, [BLANK]) == text
  {
    JoinSplit(text, [BLANK]);
    SplitFieldsFree(text, BLANK);
    Split(text, [BLANK])
  }

  /** What `texte_braille_pdf(text, maxWidth, pdf)` returns. It opens with the three-cell
      indent; the final guard always fires, because the split yields at least one field, so the
      result ends with the blank cell that `rstrip` does not remove. */
  function Format(text: string, maxWidth: real, measure: string -> real): (r: string)
    ensures INDENT <= r && r[|r| - 1] == BLANK
  {
    Flush(Run(Words(text), maxWidth, measure))
  }

  /** The fields `words[j..k]` joined by blank cells, as they stand in the paragraph. */
  function JoinedFields(words: seq<string>, j: nat, k: nat): string
    requires j <= k <= |words|
  {
    Join(words[j..k], [BLANK])
  }

  /** Every non-empty prefix of the paragraph's fields, joined back, fits the budget. */
  predicate PrefixesFit(words: seq<string>, maxWidth: real, measure: string -> real)
  {
    forall k :: 1 <= k <= |words| ==> measure(JoinedFields(words, 0, k)) <= maxWidth
  }

  /** `texte_braille_pdf`, step by step over its two accumulators. */
  method FormatParagraph(text: string, maxWidth: real, measure: string -> real)
    returns (formatted: string)
    ensures formatted == Format(text, maxWidth, measure)
    ensures INDENT <= formatted && formatted[|formatted| - 1] == BLANK
  {
    formatted := INDENT;
    var words := Split(text, [BLANK]);
    var line := "";
    for i := 0 to |words|
      invariant Buffers(formatted, line) == Run(words[..i], maxWidth, measure)
    {
      var word := words[i];
      line := line + word;
      var width := measure(line);
      if width <= maxWidth {
        line := line + [BLANK];
      } else {
        formatted := formatted + RStrip(line) + "\n";
        line := word + [BLANK];
      }
      assert words[..i + 1][..i] == words[..i];
    }
    assert words[..|words|] == words;
    if line != [] {
      formatted := formatted + RStrip(line);
    }
  }

  /** `rstrip` leaves a string that ends in a non-whitespace character alone. */
  lemma RStripKeepsNonSpaceEnd(s: string)
    requires s != [] && !IsSpace(s[|s| - 1])
    ensures RStrip(s) == s
  {
  }

  /** Right-stripping after a non-whitespace character only strips what follows it. */
  lemma {:induction false} RStripAfterNonSpace(x: string, y: string)
    requires x != [] && !IsSpace(x[|x| - 1])
    ensures RStrip(x + y) == x + RStrip(y)
    decreases |y|
  {
    if y == [] {
      assert x + y == x;
    } else if IsSpace(y[|y| - 1]) {
      assert (x + y)[..|x + y| - 1] == x + y[..|y| - 1];
      RStripAfterNonSpace(x, y[..|y| - 1]);
    }
  }

  /** One more field extends a joined run by a blank cell and that field. */
  lemma JoinedFieldsExtend(words: seq<string>, j: nat, k: nat)
    requires j <= k < |words|
    ensures JoinedFields(words, j, k + 1) == if j == k then words[k] else JoinedFields(words, j, k) + [BLANK] + words[k]
  {
    assert words[j..k + 1] == words[j..k] + [words[k]];
    if j < k {
      JoinAppend(words[j..k], [words[k]], [BLANK]);
    }
  }

  /** A joined run depends only on the fields inside it. */
  lemma JoinedFieldsOfPrefix(words: seq<string>, n: nat, j: nat, k: nat)
    requires j <= k <= n <= |words|
    ensures JoinedFields(words[..n], j, k) == JoinedFields(words, j, k)
  {
    assert words[..n][j..k] == words[j..k];
  }

  /** After at least one field, the line is a run of the last fields joined by blank cells,
      followed by one blank cell. */
  lemma {:induction false} LineIsFieldRun(words: seq<string>, maxWidth: real, measure: string -> real)
    requires words != []
    ensures exists j :: (0 <= j < |words|
      && Run(words, maxWidth, measure).line == JoinedFields(words, j, |words|) + [BLANK])
    decreases |words|
  {
    var n := |words|;
    var init := words[..n - 1];
    var w := words[n - 1];
    var prev := Run(init, maxWidth, measure);
    var line := Run(words, maxWidth, measure).line;
    assert Run(words, maxWidth, measure) == Step(prev, w, maxWidth, measure);
    JoinedFieldsExtend(words, n - 1, n - 1);
    if measure(prev.line + w) <= maxWidth && n > 1 {
      LineIsFieldRun(init, maxWidth, measure);
      var j :| 0 <= j < n - 1 && prev.line == JoinedFields(init, j, n - 1) + [BLANK];
      JoinedFieldsOfPrefix(words, n - 1, j, n - 1);
      JoinedFieldsExtend(words, j, n - 1);
      assert line == JoinedFields(words, j, n) + [BLANK];
    } else {
      assert line == JoinedFields(words, n - 1, n) + [BLANK];
    }
  }

  /** Every string handed to the measuring function is a run of consecutive fields ending with
      the current one, joined by blank cells. */
  lemma MeasuredIsFieldRun(words: seq<string>, i: nat, maxWidth: real, measure: string -> real)
    requires i < |words|
    ensures exists j {:trigger JoinedFields(words, j, i + 1)} ::
      0 <= j <= i && Measured(words, i, maxWidth, measure) == JoinedFields(words, j, i + 1)
  {
    JoinedFieldsExtend(words, i, i);
    if i > 0 {
      LineIsFieldRun(words[..i], maxWidth, measure);
      var j :| 0 <= j < i && Run(words[..i], maxWidth, measure).line == JoinedFields(words[..i], j, i) + [BLANK];
      JoinedFieldsOfPrefix(words, i, j, i);
      JoinedFieldsExtend(words, j, i);
      assert Measured(words, i, maxWidth, measure) == JoinedFields(words, j, i + 1);
    }
  }

  /** The indent is never measured: every measured string is a substring of the paragraph. */
  lemma MeasuredIsInfix(text: string, i: nat, maxWidth: real, measure: string -> real)
    requires i < |Words(text)|
    ensures exists a: nat, b: nat :: a <= b <= |text| && text[a..b] == Measured(Words(text), i, maxWidth, measure)
  {
    var words := Words(text);
    MeasuredIsFieldRun(words, i, maxWidth, measure);
    var j :| 0 <= j <= i && Measured(words, i, maxWidth, measure) == JoinedFields(words, j, i + 1);
    JoinRunInfix(words, j, i + 1, [BLANK]);
    JoinSplit(text, [BLANK]);
  }

  /** A candidate that fits becomes the line, followed by exactly one blank cell, and nothing
      is laid out in that iteration. */
  lemma FitStep(words: seq<string>, i: nat, maxWidth: real, measure: string -> real)
    requires i < |words|
    requires measure(Measured(words, i, maxWidth, measure)) <= maxWidth
    ensures Run(words[..i + 1], maxWidth, measure).formatted == Run(words[..i], maxWidth, measure).formatted
    ensures Run(words[..i + 1], maxWidth, measure).line == Measured(words, i, maxWidth, measure) + [BLANK]
  {
    assert words[..i + 1][..i] == words[..i];
  }

  /** On overflow, the rejected candidate, which ends with the current word, is flushed
      (right-stripped, with a newline), and the same word starts the next line; past the first
      field the flushed text is the old line, blank cell included, plus the stripped word, so
      the word is laid out twice. */
  lemma OverflowStep(words: seq<string>, i: nat, maxWidth: real, measure: string -> real)
    requires i < |words|
    requires measure(Measured(words, i, maxWidth, measure)) > maxWidth
    ensures var before := Run(words[..i], maxWidth, measure);
      var after := Run(words[..i + 1], maxWidth, measure);
      var c := Measured(words, i, maxWidth, measure);
      && c[|c| - |words[i]|..] == words[i]
      && after.formatted == before.formatted + RStrip(c) + "\n"
      && after.line == words[i] + [BLANK]
      && (i > 0 ==> before.line[|before.line| - 1] == BLANK && RStrip(c) == before.line + RStrip(words[i]))
  {
    assert words[..i + 1][..i] == words[..i];
    var before := Run(words[..i], maxWidth, measure);
    if i > 0 {
      RStripAfterNonSpace(before.line, words[i]);
    }
  }

  /** While every prefix of the fields fits, nothing is laid out and the line holds all the
      fields read so far, each followed by one blank cell. */
  lemma {:induction false} UnbrokenRun(words: seq<string>, maxWidth: real, measure: string -> real)
    requires PrefixesFit(words, maxWidth, measure)
    ensures Run(words, maxWidth, measure).formatted == INDENT
    ensures words != [] ==> Run(words, maxWidth, measure).line == JoinedFields(words, 0, |words|) + [BLANK]
    decreases |words|
  {
    if words != [] {
      var n := |words|;
      var init := words[..n - 1];
      var w := words[n - 1];
      forall k | 1 <= k <= |init| ensures measure(JoinedFields(init, 0, k)) <= maxWidth {
        JoinedFieldsOfPrefix(words, n - 1, 0, k);
      }
      UnbrokenRun(init, maxWidth, measure);
      var prev := Run(init, maxWidth, measure);
      assert Run(words, maxWidth, measure) == Step(prev, w, maxWidth, measure);
      JoinedFieldsExtend(words, 0, n - 1);
      if n > 1 {
        JoinedFieldsOfPrefix(words, n - 1, 0, n - 1);
      }
      assert prev.line + w == JoinedFields(words, 0, n);
    }
  }

  /** If nothing has been laid out, no candidate overflowed: every prefix fits. */
  lemma {:induction false} BrokenRun(words: seq<string>, maxWidth: real, measure: string -> real)
    requires Run(words, maxWidth, measure).formatted == INDENT
    ensures PrefixesFit(words, maxWidth, measure)
    decreases |words|
  {
    if words != [] {
      var n := |words|;
      var init := words[..n - 1];
      var w := words[n - 1];
      var prev := Run(init, maxWidth, measure);
      assert Run(words, maxWidth, measure) == Step(prev, w, maxWidth, measure);
      assert measure(prev.line + w) > maxWidth ==> |Run(words, maxWidth, measure).formatted| > |prev.formatted|;
      BrokenRun(init, maxWidth, measure);
      UnbrokenRun(init, maxWidth, measure);
      JoinedFieldsExtend(words, 0, n - 1);
      if n > 1 {
        JoinedFieldsOfPrefix(words, n - 1, 0, n - 1);
      }
      assert prev.line + w == JoinedFields(words, 0, n);
      forall k | 1 <= k <= n ensures measure(JoinedFields(words, 0, k)) <= maxWidth {
        if k < n {
          JoinedFieldsOfPrefix(words, n - 1, 0, k);
        }
      }
    }
  }

  /** Nothing is laid out before the final line exactly when every prefix of the fields fits. */
  lemma NoOverflowIff(words: seq<string>, maxWidth: real, measure: string -> real)
    ensures Run(words, maxWidth, measure).formatted == INDENT <==> PrefixesFit(words, maxWidth, measure)
  {
    if PrefixesFit(words, maxWidth, measure) {
      UnbrokenRun(words, maxWidth, measure);
    }
    if Run(words, maxWidth, measure).formatted == INDENT {
      BrokenRun(words, maxWidth, measure);
    }
  }

  /** A paragraph none of whose candidates overflows comes back as the indent, the paragraph
      unchanged, and one blank cell. */
  lemma UnbrokenParagraph(text: string, maxWidth: real, measure: string -> real)
    requires PrefixesFit(Words(text), maxWidth, measure)
    ensures Format(text, maxWidth, measure) == INDENT + text + [BLANK]
  {
    var words := Words(text);
    UnbrokenRun(words, maxWidth, measure);
    JoinSplit(text, [BLANK]);
    assert words[0..|words|] == words;
    RStripKeepsNonSpaceEnd(Run(words, maxWidth, measure).line);
  }

  /** The loop runs once per field: one more time than the paragraph has blank cells. */
  lemma IterationCount(text: string)
    ensures |Words(text)| == multiset(text)[BLANK] + 1
  {
    SplitCount(text, [BLANK]);
    CountChar(text, BLANK);
  }

  /** An empty paragraph is not dropped: its single empty field is measured, and the result is
      the indent and a blank cell, with a newline between them when even the empty string
      overflows. */
  lemma EmptyParagraph(maxWidth: real, measure: string -> real)
    ensures Format([], maxWidth, measure)
      == if measure([]) <= maxWidth then INDENT + [BLANK] else INDENT + "\n" + [BLANK]
  {
    var words: seq<string> := [[]];
    assert Words([]) == words;
    assert words[..0] == [];
    assert Run(words, maxWidth, measure) == Step(Run([], maxWidth, measure), [], maxWidth, measure);
  }

  /** The width of a string taken to be its number of cells, for the worked paragraph below. */
  function CellCount(s: string): real
  {
    |s| as real
  }

  /** The worked paragraph "ab⠀cd⠀ef" splits into its three words. */
  lemma ExampleWords()
    ensures Words("ab" + [BLANK] + "cd" + [BLANK] + "ef") == ["ab", "cd", "ef"]
  {
    var words := ["ab", "cd", "ef"];
    assert Join(words[1..], [BLANK]) == "cd" + [BLANK] + "ef" by {
      assert words[1..][1..] == ["ef"];
    }
    assert Join(words, [BLANK]) == "ab" + [BLANK] + "cd" + [BLANK] + "ef";
    assert forall f :: f in words ==> BLANK !in f;
    SplitJoin(words, BLANK);
  }

  /** The buffers after each word of the worked paragraph, with a budget of four cells. */
  lemma ExampleRun()
    ensures Run(["ab", "cd", "ef"], 4.0, CellCount)
      == Buffers(INDENT + "ab" + [BLANK] + "cd\ncd" + [BLANK] + "ef\n", "ef" + [BLANK])
  {
    var words := ["ab", "cd", "ef"];
    var b0 := Run([], 4.0, CellCount);
    var b1 := Run(["ab"], 4.0, CellCount);
    assert ["ab"][..0] == [];
    assert b1 == Step(b0, "ab", 4.0, CellCount);
    assert b1 == Buffers(INDENT, "ab" + [BLANK]);
    var b2 := Run(["ab", "cd"], 4.0, CellCount);
    assert ["ab", "cd"][..1] == ["ab"];
    assert b2 == Step(b1, "cd", 4.0, CellCount);
    assert RStrip("ab" + [BLANK] + "cd") == "ab" + [BLANK] + "cd";
    assert b2 == Buffers(INDENT + "ab" + [BLANK] + "cd\n", "cd" + [BLANK]);
    assert words[..2] == ["ab", "cd"];
    assert Run(words, 4.0, CellCount) == Step(b2, "ef", 4.0, CellCount);
    assert RStrip("cd" + [BLANK] + "ef") == "cd" + [BLANK] + "ef";
  }

  /** A worked paragraph, with the width taken to be the number of cells and a budget of four:
      the words "ab", "cd", "ef" come out as the lines "ab⠀cd", "cd⠀ef" and "ef⠀" (U+2800
      between and after the words), so both flushed lines are five cells wide and "cd" and "ef"
      are each laid out twice. */
  lemma DuplicatedWordExample()
    ensures Format("ab" + [BLANK] + "cd" + [BLANK] + "ef", 4.0, CellCount)
      == INDENT + "ab" + [BLANK] + "cd\ncd" + [BLANK] + "ef\nef" + [BLANK]
  {
    ExampleWords();
    ExampleRun();
    assert RStrip("ef" + [BLANK]) == "ef" + [BLANK];
  }
}
