# Braille press digest: line formatter model

The application assembles a press digest, a text made of recent news articles. It can
transliterate the digest into Braille Unicode cells and lay it out as a PDF. This project models
the part that does real text processing, in Dafny:

- **Newline collapse** (`NewlineCollapse`). Before an article body is transliterated,
  `re.sub(r'\n{3,}', '\n\n', contenu)` replaces every run of three or more newlines with two.
- **Paragraph driver** (`PressDigest`). The digest is cut with `split("\n\n")`. Each paragraph
  becomes one `multi_cell` block, followed by an `ln` gap:
  - in Braille: font size 17, line height 12, gap 1, and the text is formatted for a width of 180;
  - in French: font size 12, line height 10, gap 5, and the text is passed through unchanged.
- **Braille line formatter** (`BrailleFormat`), which is `texte_braille_pdf`:
  - the paragraph is split on the blank cell U+2800;
  - words are packed greedily into the buffer `ligne_actuelle`;
  - each candidate is measured with the renderer's width function against a budget;
  - lines are appended to `texte_formate`, which starts with a three-cell indent.
- **Python string semantics** (`PyStr`): `str.split` with an explicit separator and
  `str.rstrip()`, as the code above uses them, with `str.isspace`, which `rstrip` relies on.
  `str.count` and `str.join` are modelled too, only to state what `split` does.

The formatter is modelled twice. `FormatParagraph` is the imperative loop over the two
accumulators. `Format` is the same computation as functions (`Step`, `Run`, `Flush`). The
method is proved equal to the functions, and the properties are proved about the functions.

The model follows the code as written, including these quirks:
- The indent is never measured.
- On overflow, the line flushed is the rejected candidate, which was over budget before
  `rstrip()`. It already ends with the overflowing word. That word, less any trailing
  whitespace, appears again at the start of the next line (`OverflowStep`,
  `DuplicatedWordExample`).
- `rstrip()` does not remove U+2800, so every result ends in a blank cell.
- Empty words, from leading, trailing or doubled blank cells, are kept and measured.

So the code does not keep every multi-word line within the budget, does not avoid repeating a
word, and does not drop empty words. The model proves what the code does, not these
stronger behaviours.

## Model

| member | source | states |
|---|---|---|
| PyStr.IsSpace | app.py:37-42 | the whitespace `rstrip()` removes: space, tab, newline and carriage return are whitespace; no Braille cell U+2800..U+28FF is |
| PyStr.RStrip | app.py:37 | `rstrip()` removes exactly the longest whitespace suffix: the result is a prefix, everything removed is whitespace, and the result is empty or ends in non-whitespace |
| PyStr.Split | app.py:22 | `split(sep)` always yields at least one field |
| PyStr.SplitCount | app.py:22-25 | the number of fields is the number of non-overlapping separator occurrences plus one |
| PyStr.CountChar | app.py:22-25 | for a one-cell separator the occurrence count is the number of times the cell occurs |
| PyStr.JoinSplit | app.py:22 | joining the fields of a split with the same separator gives back the original string |
| PyStr.SplitFieldsFree | app.py:22 | no field of a split on one cell contains that cell |
| PyStr.SplitJoin | app.py:22 | for a one-cell separator, split undoes join when no field contains the cell |
| PyStr.JoinRunInfix | app.py:22 | the fields j..k-1 joined by the separator form a substring of the joined whole |
| NewlineCollapse.NewlineRun | app.py:151 | the length of the maximal run of newlines at the start of a string |
| NewlineCollapse.CollapseNewlines | app.py:151 | the substitution never lengthens the text |
| NewlineCollapse.CollapseRun | app.py:151 | a run of three or more newlines becomes exactly two newlines, a run of one or two is copied whole, and the scan resumes after the run |
| NewlineCollapse.CollapseLeavesNoTriple | app.py:151 | no three consecutive newlines remain after the substitution |
| NewlineCollapse.CollapseFixesClean | app.py:151 | text with no three consecutive newlines is unchanged |
| NewlineCollapse.CollapseIdempotent | app.py:151 | applying the substitution a second time changes nothing |
| NewlineCollapse.CollapseKeepsText | app.py:151 | every character other than a newline survives, in order |
| BrailleFormat.Words | app.py:22 | the words are the fields of the paragraph cut at U+2800: at least one, none containing U+2800, and joined by U+2800 they give back the paragraph |
| BrailleFormat.Step | app.py:25-38 | one loop iteration: `texte_formate` only grows; it grows exactly when the candidate `ligne_actuelle + mot` is over budget; afterwards `ligne_actuelle` ends with U+2800 |
| BrailleFormat.Run | app.py:19-38 | after the loop, `texte_formate` still starts with the three-cell indent; after at least one word, `ligne_actuelle` is non-empty and ends with U+2800 |
| BrailleFormat.FormatParagraph | app.py:18-44 | the loop over the two accumulators returns exactly `Format`: it starts with the indent and ends with U+2800 |
| BrailleFormat.Flush | app.py:41-42 | the final guard only appends to `texte_formate`; when the buffer ends with U+2800, which `rstrip()` keeps, the buffer is appended whole |
| BrailleFormat.Format | app.py:18-44 | the result begins with the three-cell indent; the final guard always fires, so the result ends with U+2800 |
| BrailleFormat.IterationCount | app.py:22-25 | the loop runs once per field, empty fields included: one more time than the paragraph has U+2800 cells |
| BrailleFormat.LineIsFieldRun | app.py:27-38 | after at least one word, the buffer is the last few fields joined by U+2800, followed by one U+2800 |
| BrailleFormat.MeasuredIsFieldRun | app.py:27-30 | each measured string is a run of consecutive fields ending with the current word, joined by U+2800 |
| BrailleFormat.MeasuredIsInfix | app.py:19-30 | each measured string is a substring of the paragraph, so the indent is never measured |
| BrailleFormat.FitStep | app.py:27-34 | when the candidate fits, the buffer becomes the candidate plus one U+2800 and nothing is appended to the result |
| BrailleFormat.OverflowStep | app.py:27-38 | on overflow: the rejected candidate ends with the current word; the result gains the candidate right-stripped plus a newline; the new buffer is the word plus U+2800; after the first word, the flushed text is the old buffer plus the word less trailing whitespace, so the word, stripped, appears on both lines |
| BrailleFormat.RStripAfterNonSpace | app.py:37 | right-stripping a buffer that ends in U+2800 followed by a word strips only within the word |
| BrailleFormat.UnbrokenRun | app.py:25-38 | if every prefix of the fields fits, nothing is laid out and the buffer holds all fields joined by U+2800, plus one U+2800 |
| BrailleFormat.BrokenRun | app.py:25-38 | if nothing was laid out, every prefix of the fields fits |
| BrailleFormat.NoOverflowIff | app.py:25-38 | nothing is appended before the final line if and only if every prefix of the fields fits |
| BrailleFormat.UnbrokenParagraph | app.py:19-42 | with no overflow, the result is the indent, then the paragraph unchanged, then one U+2800 |
| BrailleFormat.EmptyParagraph | app.py:19-44 | an empty paragraph is measured as one empty field; it gives the indent and U+2800, with a newline between them if even the empty string overflows |
| BrailleFormat.ExampleWords | app.py:22 | the paragraph "ab⠀cd⠀ef" splits into the words ab, cd, ef |
| BrailleFormat.ExampleRun | app.py:25-38 | with width = cell count and budget 4, the buffers after the loop over ab, cd, ef hold the two flushed lines "ab⠀cd" and "cd⠀ef" and the buffer "ef⠀" |
| BrailleFormat.DuplicatedWordExample | app.py:25-42 | with width = cell count and budget 4, the words ab, cd, ef give lines "ab⠀cd", "cd⠀ef", "ef⠀": flushed lines exceed the budget and words repeat |
| PressDigest.CellFor | app.py:171-180 | a French block holds its paragraph unchanged; a Braille block holds formatted text that starts with the indent and ends with U+2800 |
| PressDigest.LayOutParagraph | app.py:171-180 | one paragraph becomes the block of its language; Braille text goes through the formatter with width 180 |
| PressDigest.LayOut | app.py:170-180 | one block per paragraph, in order, each made from its own paragraph alone; the block count is the number of `"\n\n"` delimiters plus one; in French the blocks rejoin to the digest; in Braille every block starts with the indent and ends with U+2800 |
| PressDigest.FrenchCellsRejoin | app.py:177-179 | French blocks hold the paragraphs unchanged, so joining them with `"\n\n"` gives back the digest |
| PressDigest.BrailleCellsFramed | app.py:171-175 | every Braille block starts with the indent and ends with U+2800 |
| PressDigest.ParagraphsPartitionDigest | app.py:170 | `split("\n\n")` yields one more paragraph than there are non-overlapping delimiters, and rejoining the paragraphs gives back the digest |

## Left out

- Width measurement: `pdf.get_string_width` is float font metrics. It is the parameter
  `measure: string -> real`, assumed only to be deterministic. The model assumes no additivity
  and no monotonicity, and leaves out floating-point rounding.
- Renderer: the FPDF page, font registration, `multi_cell`'s own wrapping and the latin1 output
  encoding are left out. The driver records each block's font size, line height, text and gap
  as a `Cell` value and does not render it.
- The Streamlit interface is left out: title, duration and language pickers, buttons, error
  messages and the download button.
- Retrieval is left out: the NewsAPI requests with their per-source parameters, and article
  download and parsing through `newspaper`. They are network I/O into foreign libraries.
- `traduction` is not part of this model; it is an opaque transliteration. So are the header
  templates that wrap each article in the digest. Because of this, collapse and layout are
  modelled separately and not composed into one digest.
- The date window, which maps a duration choice to 1, 7 or 30 days, is library date arithmetic
  and is left out.
- The whitespace predicate lists the characters that Python 3's `str.isspace` accepts. A different Unicode
  database version could differ at the margins; U+2800 is not whitespace in any version.
- The newline collapse models the regular-expression engine for this one pattern
  only (greedy `\n{3,}` tried at each position, left to right), not regular expressions in
  general.
- A configuration error for a budget of zero or less is not modelled, because the code has no
  such check: any budget is accepted.
