# Function-input normaliser of the function analyser

The function analyser (a Tk desktop application) reads a function of `x`, such
as `2x^2 + 4`. It hands that text to the SymPy computer-algebra system. Before it
does, `limpiar_input` rewrites the user's shorthand into Python syntax, and
`parsear_funcion` refuses an entry that holds nothing. This project models those
two functions and proves what they guarantee.

`limpiar_input` runs five steps:

1. strip surrounding whitespace;
2. turn every `^` into `**`;
3. delete every space;
4. scan left to right, copying each character and appending a `*` when the
   character and the next one form an implicit product:
   - a digit or `)` followed by `x` or `(`;
   - `x` followed by a digit, `x` or `(`;
5. apply the replacement chain `**` → `^TEMP^`, `* *` → `*`, `^TEMP^` → `**`.

Files:

- `text.dfy` (module `Text`):
  - Python's `str.strip()`, over the complete `str.isspace` character set;
  - Python's `str.replace`, which scans left to right and never overlaps matches;
  - a character-substitution reference for one-character patterns, and lemmas
    about `str.replace`.
- `normalizer.dfy` (module `Normalizer`):
  - the two insertion rules;
  - the specification `Explicit` of step 4, and the method `InsertStars` that
    runs the loop of step 4;
  - the method `Normalize`, which models `limpiar_input` as a whole, and its
    specification `Normalized`;
  - the proofs listed below.
- `examples.dfy` (module `NormalizerExamples`): the normaliser evaluated on the
  inputs shown in the application's placeholder and help text.
- `parser.dfy` (module `Parser`): `parsear_funcion`, with the SymPy parser as a
  parameter.

Results proved:

- No `^` and no space survive.
- Neither end of the output is whitespace.
- The output is empty exactly when the input is blank.
- The output is the prepared string with one `*` inserted into each gap that
  needs one. Every original character keeps its order, and nothing else is
  added or lost.
- The two rules never fire on the same gap.
- Step 5 is the identity on everything step 4 can produce. So `2^x` keeps its
  `**`.
- Normalising twice gives the same result as normalising once.
- Past the guard, the parser is never handed an empty string.

## Model

| member | source | states |
|---|---|---|
| Text.AsciiSpaces | core.py:15 | on ASCII, `IsSpace` (the whitespace `strip()` removes, and the whitespace the guard on core.py:34 tests) is exactly tab, line feed, vertical tab, form feed, carriage return, the four separators `\x1c`-`\x1f` and the space |
| Text.LeadingSpaces | core.py:15 | the length of the leading whitespace run: every character before it is whitespace and the character at it, if any, is not |
| Text.TrailingSpaces | core.py:15 | the length of the trailing whitespace run: every character after it is whitespace and the character before it, if any, is not |
| Text.Strip | core.py:15 | the result is a slice `s[a..b]` of the input with only whitespace before `a` and after `b`; neither end of the result is whitespace; the result is empty exactly when the input is all whitespace; an input already free of whitespace at both ends is returned unchanged |
| Text.StartsWith | core.py:16-17 | the character-by-character prefix test used by the replacement agrees with sequence prefix |
| Text.ReplaceOneChar | core.py:16-17 | `Replace` (Python's `str.replace`): replacing a one-character pattern equals substituting every occurrence of that character and keeping every other character in place |
| Text.ReplaceFirst | core.py:16-17 | `Replace` of one character keeps everything before its first occurrence, puts the replacement in its place, and continues after it |
| Text.SubstOmits | core.py:16-17 | after substitution, a character occurs only if it was in the input (and not the one replaced) or in the replacement |
| Text.SubstConcat | core.py:16-17 | substitution distributes over concatenation: each character is rewritten on its own |
| Text.SubstEnds | core.py:16-17 | the substitution of a non-empty string splits into that of its first character and the rest, and into that of all but its last character and the last |
| Text.SubstOne | core.py:16-17 | a single character becomes the replacement if it is the replaced one and stays as it is otherwise |
| Text.ReplaceKeepsAbsent | core.py:27 | for `Replace`, a character in neither the subject nor the replacement is not in the result |
| Text.ReplaceWithoutMatch | core.py:27 | for `Replace`, a pattern holding a character the subject lacks leaves the subject unchanged |
| Text.ReplaceRoundTrip | core.py:27 | `Replace` of a pattern by a marker whose first character the subject lacks, and the marker back by the pattern, gives back the subject |
| Normalizer.NeedsStarTable | core.py:23-26 | `IsDigit`, `ClosesFactor` and `FollowsVariable` as character tables: a `*` is needed after a digit or `)` followed by `x` or `(`, and after `x` followed by a digit, `x` or `(`, and for no other pair |
| Normalizer.RulesDisjoint | core.py:23-26 | the two insertion rules never hold for the same pair of characters, so a gap receives at most one `*` |
| Normalizer.ScanLength | core.py:18-26 | for `Scan`, the state of the loop: after `i` iterations the output holds `i` copied characters plus one `*` per gap decided so far |
| Normalizer.ScanGrows | core.py:18-26 | each iteration only appends to the output |
| Normalizer.ScanOmits | core.py:18-26 | the scan adds no character other than `*` |
| Normalizer.ExplicitLength | core.py:18-26 | step 4 lengthens its input by exactly the number of gaps that need a `*` |
| Normalizer.ExplicitAt | core.py:18-26 | each input character appears in the output at its offset (its index plus the stars inserted before it) |
| Normalizer.ExplicitStarAt | core.py:23-26 | when a gap needs a `*`, the output holds `*` right after the character to its left |
| Normalizer.ExplicitLayout | core.py:18-26 | `Explicit`, the specification of step 4: the output is the input, in order, with a `*` in each gap that needs one: its length, where every input character sits, and where each inserted `*` sits |
| Normalizer.ScanCovers | core.py:18-26 | each position of the partial output is the offset of a character already copied or the `*` of a gap that needed one |
| Normalizer.ExplicitCovers | core.py:18-26 | each position of the output is an input character's offset or the inserted `*` after it, so nothing else is added |
| Normalizer.ScanLeavesNoGap | core.py:19-26 | no adjacent pair of the partial output still needs a `*`, and its last character is a `*` or the last copied character |
| Normalizer.ExplicitLeavesNoGap | core.py:19-26 | no adjacent pair of step 4's output needs a `*` |
| Normalizer.ScanFixesGapless | core.py:19-26 | a string in which no adjacent pair needs a `*` is copied unchanged by the scan |
| Normalizer.CaretsExpanded | core.py:16 | after `^` becomes `**` on a stripped string, no `^` is left, neither end is whitespace, and the result is empty only if the input was |
| Normalizer.SpacesDeleted | core.py:17 | after deleting spaces from a stripped string, no space is left, neither end is whitespace, and the result is empty only if the input was |
| Normalizer.PreparedShape | core.py:15-17 | `Prepare`, steps 1-3: afterwards there is no `^` and no space, neither end is whitespace, and the result is empty exactly when the input is blank |
| Normalizer.RepairIsIdentity | core.py:27 | `Repair`, the chain of step 5: on a string with no `^` and no space, the replacement chain returns its argument unchanged |
| Normalizer.NormalizedShape | core.py:15-27 | `Normalized`, the specification of the whole normaliser: its output has no `^`, no space, no whitespace at either end, and no adjacent pair that needs a `*` |
| Normalizer.InsertStars | core.py:18-26 | the loop of step 4 computes the specification `Explicit` of its input |
| Normalizer.Normalize | core.py:10-28 | `limpiar_input` returns `Normalized` of its input, free of `^` and spaces, stripped, with every implicit product made explicit |
| Normalizer.NormalFormFixed | core.py:12-27 | a string with no `^`, no space, no surrounding whitespace and no pair needing a `*` is its own normal form |
| Normalizer.NormalizeIdempotent | core.py:12-27 | normalising the normaliser's output returns it unchanged |
| Normalizer.NormalizedEmptyIffBlank | core.py:15-26 | the normaliser returns the empty string exactly for empty or all-whitespace input |
| NormalizerExamples.PlaceholderExample | ui.py:37 | `2x^2 + 4` normalises to `2*x**2+4` |
| NormalizerExamples.SquareExample | ui.py:102 | `x^2 - 4` normalises to `x**2-4` |
| NormalizerExamples.QuadraticExample | ui.py:102 | `2x^2+3x-1` normalises to `2*x**2+3*x-1` |
| NormalizerExamples.ReciprocalExample | ui.py:129 | `1/(x-2)` is left unchanged |
| NormalizerExamples.QuotientExample | ui.py:130 | `(x+1)/(x-1)` is left unchanged |
| NormalizerExamples.CubicExample | ui.py:131 | `2x^3 - x` normalises to `2*x**3-x` |
| NormalizerExamples.SineExample | ui.py:132 | `sin(x)` is left unchanged |
| NormalizerExamples.PowerExample | ui.py:120 | `2^x` normalises to `2**x`: the power operator survives the replacement chain |
| NormalizerExamples.NameEndingInXExample | core.py:25-26 | `max(x)` normalises to `max*(x)`: any name ending in `x` before `(` is read as a product |
| Parser.Message | core.py:35-41 | the text of the `ValueError` raised for an error: the two messages are told apart by their first character, and the parser's own description ends the second one |
| Parser.IsBlank | core.py:34 | the guard holds exactly when every character of the entry is whitespace, the empty entry included |
| Parser.ParseFunction | core.py:30-41 | `parsear_funcion` computes its specification `Parsed`: it fails with "no function" exactly for a blank entry, whose message is the one on core.py:35; otherwise it hands the normalised text to the parser and returns the parser's expression or wraps its error, whose message is the one on core.py:41 followed by the parser's own text |
| Parser.EngineInput | core.py:34-36 | past the guard, the parser receives a non-empty normalised string with no `^`, no space, no surrounding whitespace and no implicit product left |

## Left out

- The SymPy calls `sympify` and `simplify` (core.py:38-39) are a foreign computer-algebra engine. They are the parameter `engine` of `Parser.ParseFunction`, and the text of SymPy's own exception is the engine's `detail`.
- Normalizer.IsDigit accepts only the ASCII digits `0`-`9`. Python's `str.isdigit` also accepts other Unicode digits, for example superscripts such as `²`. So the model does not insert a `*` after such a character where the source would.
- The rest of core.py is not modelled: domain, range, roots, evaluation and the sampling of points (core.py:44-162). Those are SymPy calls or floating-point numerics.
- ui.py, plot.py, main.py, config.py and utils.py are not part of this model: GUI, plotting, start-up and constants.
- The replacement chain on core.py:27 looks meant to repair a split `**`, but it never changes anything. Step 4 only appends a `*` after a digit, `)` or `x` (core.py:23, 25), so it cannot split a `**`; and `* *` needs a space, which step 3 removed. The model proves the chain is the identity (`Normalizer.RepairIsIdentity`).
