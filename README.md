# Range expressions of the hammock plot web app

The hammock plot web app lets a user highlight the observations of one
variable. For a numeric variable the user types a range expression such as
`x<=1 or x>5`, and the settings page checks it before plotting. The helpers
in `utils.py` do three jobs:

- `clean_expression` respaces the text so that Python's parser reads it as
  the user meant. It runs eight `re.sub` rewrites and then `strip()`.
- `is_in_range` evaluates the cleaned text with `x` bound and with no
  builtins. `validate_expression` accepts a text when that evaluation succeeds
  at `x = 0`, or else when the raw text compiles as a regular expression.
- `get_uni_type` decides from a column's dtype whether its axis is numeric or
  categorical.

This project models those helpers in Dafny and proves what they guarantee.

`clean_expression` is modelled pass by pass (`clean_expression.dfy`). Each
`re.sub` is a recursive function that scans from the left the way `re.sub`
does. At each position it tries the pattern. On a match it emits the
replacement and continues after the match, so matches never overlap.
Otherwise it copies one character.

The functions of `clean_expression.dfy` follow the lines of `utils.py`:

- `SplitGlued(s, true, true)` is pass 1 (line 93), `SplitGlued(s, false, true)`
  is pass 2 (line 94) and `SplitGlued(s, true, false)` is pass 3 (line 95);
  `AfterGluedSplits` applies the three in turn;
- `Isolate` is pass 4 (line 96), `SpaceOperators` pass 5 (line 97),
  `SpaceBeforeParen` pass 6 (line 98) and `SpaceAfterParen` pass 7 (line 99);
  `Spaced` is the text after pass 7;
- `CollapseBlanks` is pass 8 (line 100) and `Strip` is `strip()` (line 101);
- `Clean` is the whole of `clean_expression` (lines 88-101).

`PyEval.Eval` stands for the `eval` call of `is_in_range` (line 111), and
`RangeCheck.EvalText` for that call applied to the cleaned text.

The proofs about the result are stated on the *skeleton* of a string
(`skeleton.dfy`). The skeleton has two parts:

- its non-blank characters, in order;
- for each neighbouring pair of non-blank characters, whether they are
  *glued*, that is, directly adjacent.

Passes 1–7 only insert blanks. Passes 4–7 only cut glue, and only next to a
non-word character (the `Respaced` relation). Pass 8 and `strip()` keep the
skeleton exactly. Each spacing property is therefore:

1. established by the pass that creates it;
2. carried through the later passes, because cutting glue next to a
   non-word character cannot break it;
3. proved about the final string, where it is read back from the skeleton.

Passes 1–4, 6 and 7 also cut glue only next to a *word* character (the
`CutsAtWords` relation, `word_cuts.dfy`), so glue between two non-word
characters survives them. Pass 5 cuts glue around operator characters but
keeps an operator pair `<=`, `>=`, `!=` or `==` that it matches as a whole
(`operator_tokens.dfy`). Together these show that such a pair comes out of
`clean_expression` as one token.

Finally, a canonically spaced string is determined by its skeleton
(`CanonicalUnique`). This turns the general theorems into exact results on
concrete inputs.

`is_in_range` evaluates with Python's `eval`. That evaluator is modelled by
`PyEval`, an evaluator for a subset of Python expressions:

- constants, names, unary minus, `not`, `and`, `or`, chained comparisons and
  calls;
- Python's truthiness, short-circuit evaluation and name lookup order
  (locals, then globals, then `__builtins__`).

It is not the real Python `eval`. Parsing text into an expression tree is a
parameter of the model, and so is `re.compile`.

## Model

| member | source | states |
|---|---|---|
| Chars.Lower | utils.py:93-96 | `(?i)` folding maps `A`–`Z` to `a`–`z` and leaves every other character alone; it keeps the class `\w` |
| Chars.KeywordLengthMatches | utils.py:93-96 | `KeywordLength(s)` is the one prefix length at which the case-insensitive keyword pattern of passes 1–4 matches `and`, `or` or `not`, and 0 exactly when no prefix matches |
| Chars.KeywordLengthIsKeyword | utils.py:93-96 | a positive `KeywordLength` is the length of a matched `and`, `or` or `not`, in any letter case |
| Chars.KeywordIsWord | utils.py:93-96 | a matched keyword consists of word characters only |
| CleanExpression.OperatorLength | utils.py:97 | a definition: the length of the token `[<>!=]=?` matched at an operator character, 2 exactly when the next character is `=`, else 1, so `==` is matched by `[<>!=]=?` itself. What pass 5 does with the token is stated by `CleanSpacing.SpaceOperatorsSpaced` and `OperatorTokens.SpaceOperatorsKeepsTokens` |
| CleanNonBlank.SplitGluedKeepsNonBlank | utils.py:93-95 | passes 1–3 keep the non-blank characters, in order |
| CleanNonBlank.IsolateKeepsNonBlank | utils.py:96 | pass 4 keeps the non-blank characters, in order |
| CleanNonBlank.SpaceOperatorsKeepsNonBlank | utils.py:97 | pass 5 keeps the non-blank characters, in order |
| CleanNonBlank.SpaceBeforeParenKeepsNonBlank | utils.py:98 | pass 6 keeps the non-blank characters, in order |
| CleanNonBlank.SpaceAfterParenKeepsNonBlank | utils.py:99 | pass 7 keeps the non-blank characters, in order |
| CleanRespaced.IsolateRespaced | utils.py:96 | pass 4 only cuts glue, and only next to a non-word character |
| CleanRespaced.SpaceOperatorsRespaced | utils.py:97 | pass 5 only cuts glue, and only next to a non-word character |
| CleanRespaced.SpaceBeforeParenRespaced | utils.py:98 | pass 6 only cuts glue, and only next to a non-word character |
| CleanRespaced.SpaceAfterParenRespaced | utils.py:99 | pass 7 only cuts glue, and only next to a non-word character |
| CleanSpacing.IsolateSpacesKeywords | utils.py:96 | after pass 4, every whole-word keyword is cut off from its neighbours |
| CleanSpacing.SpaceOperatorsSpaced | utils.py:97 | after pass 5, every operator character stands between blanks, either alone or as the first half of a two-character operator ending in `=` |
| CleanSpacing.SpaceBeforeParenSpaced | utils.py:98 | after pass 6, no word character is directly followed by `(` |
| CleanSpacing.SpaceAfterParenSpaced | utils.py:99 | after pass 7, no `)` is directly followed by a word character |
| Spacing.SpacingRespaced | utils.py:96-99 | the keyword, operator and parenthesis spacing of a skeleton survives any later cut of glue next to a non-word character |
| Spacing.WholeKeywordRespaced | utils.py:96 | such a cut neither creates nor removes a whole-word keyword |
| CleanBlanks.CollapseKeepsSkeleton | utils.py:100 | `\s+` → `' '` keeps the non-blank characters and which of them are glued |
| CleanBlanks.StripKeepsSkeleton | utils.py:101 | `strip()` keeps the skeleton, and turns a single-spaced text into a canonically spaced one |
| CleanBlanks.CollapseStripCanonical | utils.py:100-101 | for any input, the last two steps give a canonically spaced text with the input's skeleton. Canonically spaced means: only `' '` as a blank, never two in a row, and none at either end |
| CleanBlanks.CollapseStripIdempotent | utils.py:100-101 | the last two steps leave a canonically spaced text unchanged |
| CleanBlanks.CanonicalUnique | utils.py:100-101 | two canonically spaced texts with the same skeleton are equal |
| CleanTheorems.CleanKeepsNonBlank | utils.py:88-101 | `clean_expression` keeps every non-blank character, in order, and adds only blanks |
| CleanTheorems.CleanCanonical | utils.py:100-101 | the result is canonically spaced |
| CleanTheorems.CleanTailIdempotent | utils.py:100-101 | re-applying the final collapse and strip to the result changes nothing |
| CleanTheorems.CleanSkeleton | utils.py:88-101 | the result has exactly the skeleton of the text after pass 7 |
| CleanTheorems.CleanKeywordsSpaced | utils.py:93-96 | in the result, every whole-word `and`/`or`/`not`, in any letter case, has a blank or an end of the string on each side |
| CleanTheorems.CleanOperatorsSpaced | utils.py:97 | in the result, an operator character is glued to nothing except when it forms the first half of a two-character `<=`, `>=`, `!=` or `==`, and that token is itself between blanks or string ends |
| CleanTheorems.CleanOpenParensSpaced | utils.py:98 | in the result, no word character is directly followed by `(` |
| CleanTheorems.CleanCloseParensSpaced | utils.py:99 | in the result, no `)` is directly followed by a word character |
| CleanTheorems.CleanAfterSplits | utils.py:88-101 | when passes 1–3 leave a canonically spaced text in which only word characters are glued, that text is the result |
| CleanTheorems.CleanWhenSpaced | utils.py:100-101 | when passes 1–7 leave a canonically spaced text, that text is the result |
| CleanExamples.OneAndX | utils.py:93 | `1andx` becomes `1 and x` |
| CleanExamples.XAndYAndZ | utils.py:93 | `xandyandz` becomes `x and yandz`: pass 1 consumes the `y`, so the second `and` is not split |
| CleanExamples.XOrYOrZ | utils.py:93 | `xoryorz` becomes `x or yorz`, by the same non-overlapping scan |
| CleanExamples.Again | utils.py:93 | cleaning `x or yorz` again gives `x or y or z` |
| CleanExamples.CleanNotIdempotent | utils.py:88-101 | `clean_expression` is not idempotent: cleaning `xoryorz` twice differs from cleaning it once |
| CleanExamples.XLeOne | utils.py:97 | `x<=1` becomes `x <= 1`: `<=` stays one token |
| CleanExamples.XEqZero | utils.py:97 | `x==0` becomes `x == 0`: `==` stays one token |
| CleanExamples.XLeEqOne | utils.py:97 | `x<==1` becomes `x <= = 1`: pass 5 takes `<=` first, so the second `=` is a token of its own |
| WordCuts.SplitGluedCuts | utils.py:93-95 | passes 1–3 keep the non-blank characters, create no glue, and cut glue only next to a word character |
| WordCuts.IsolateCuts | utils.py:96 | pass 4 keeps the non-blank characters, creates no glue, and cuts glue only next to a word character |
| WordCuts.SpaceBeforeParenCuts | utils.py:98 | pass 6 keeps the non-blank characters, creates no glue, and cuts glue only next to a word character |
| WordCuts.SpaceAfterParenCuts | utils.py:99 | pass 7 keeps the non-blank characters, creates no glue, and cuts glue only next to a word character |
| OperatorTokens.SpaceOperatorsKeepsTokens | utils.py:97 | pass 5 keeps the non-blank characters, and keeps glued every operator character to a `=` after it, except a `=` that is itself glued to an operator character before it |
| OperatorTokens.TokenThroughPasses | utils.py:93-99 | passes 1–7 keep the non-blank characters and keep such a pair glued |
| OperatorTokens.CleanKeepsOperatorToken | utils.py:88-101 | for every input, each `<=`, `>=` and `!=` in it, and each `==` not directly after another of the characters `<>!=`, has its two characters still side by side, with no blank between them, in the result |
| OperatorTokens.CleanOperatorToken | utils.py:88-101 | the same pair, read in the result string: the two characters stand side by side with a blank or a string end on each side, so `<=`, `>=`, `!=` and `==` come out as single tokens |
| PyEval.Lookup | utils.py:111 | a name is found in locals, then globals, then builtins; failing all three gives a `NameError` for that name |
| PyEval.CompareValues | utils.py:111 | `==` and `!=` never raise; an ordering comparison involving a dict raises `TypeError`, and no other comparison raises |
| PyEval.EvalChain | utils.py:111 | a successful comparison chain yields a boolean |
| PyEval.EvalNameError | utils.py:111 | a `NameError` is raised only for a name the expression mentions and the environment does not bind |
| PyEval.EvalPlain | utils.py:111 | an expression with no call and no `{}`, whose names are all bound to numbers or booleans, evaluates without raising, to a number or a boolean |
| RangeCheck.RangeEnv | utils.py:111 | exactly two names are bound: `x` (the argument), and `__builtins__` bound to `{}`. There are no builtins |
| RangeCheck.InvalidMessage | utils.py:113 | a definition: the message is `Invalid expression: '`, then the cleaned text, then `'`. What it promises about the quoted text is stated by `RangeCheck.IsInRange` and `RangeCheck.IsInRangeMessage` |
| RangeCheck.IsInRange | utils.py:104-113 | the cleaned text is evaluated, never the raw one. On success, the result is the value of that evaluation. On any failure, the result is a `ValueError` whose message quotes the cleaned text |
| RangeCheck.IsInRangeMessage | utils.py:109-113 | the quoted text of a failure has the original's non-blank characters, in order, and is canonically spaced |
| RangeCheck.IsInRangeAccepts | utils.py:109-111 | a cleaned range expression that parses, has no call and no `{}`, and mentions only `x` is accepted; its value is a number or a boolean |
| RangeCheck.IsInRangeNameError | utils.py:110-113 | a failing name lookup is for a name other than `x` and `__builtins__`, and the failure becomes the `ValueError` |
| RangeCheck.ValidateExpression | utils.py:115-134 | true whenever `is_in_range(0, expr)` succeeds; otherwise exactly when the raw text compiles as a regular expression |
| RangeCheck.ShowsExpressionError | hammock_settings.py:118 | the settings page reports an error only for a non-empty text that is not a valid pattern |
| RangeCheck.EmptyValidates | hammock_settings.py:118 | the empty pattern compiles, so `""` validates, and the `hi_value != ""` test changes no outcome |
| UniType.GetUniType | utils.py:136-148 | integer and float dtypes give `"numeric"`, categorical and string dtypes give `"categorical"`, both directions; every other dtype raises a `RuntimeError` carrying the dtype |

`clean_expression` is not idempotent. `CleanExamples.CleanNotIdempotent`
shows it: `xoryorz` cleans to `x or yorz`, which cleans again to
`x or y or z`. What does hold is `CleanTheorems.CleanTailIdempotent`:
re-applying the final collapse and strip to the result changes nothing.

An operator pair keeps its glue only where pass 5 starts a match on it.
For `<=`, `>=` and `!=` that always happens, because no match can take `<`,
`>` or `!` as its second character. For `==` it depends on the scan: in
`x<==1` the scan takes `<=` and then `=` alone, so the input's `==` is split
(`CleanExamples.XLeEqOne`). That is why
`OperatorTokens.CleanKeepsOperatorToken` requires that a `==` not follow
another operator character.

## Left out

- Character classes are restricted to ASCII. `\w` is a letter, a digit or `_`.
  `\s` and `strip()` cover space, tab, newline, vertical tab, form feed and
  carriage return, which is `\s` under `re.ASCII`. Python's default `\s`
  and `str.strip()` also treat the separators `\x1c`–`\x1f` and non-ASCII
  whitespace as blanks; the model does not. `(?i)` folds ASCII letters only.
- The regular-expression engine itself is not modelled. Each of the eight
  patterns is written out as its own scanner. `re.compile` of
  validate_expression is the parameter `compiles`.
- PyEval.Eval: this is a subset of Python's `eval`. It has no arithmetic
  other than unary minus, and no strings, attributes, subscripts, lambdas or
  comprehensions. Call evaluation is reduced to "no value here is callable".
  Parsing is the parameter `parse`, where `None` stands for a `SyntaxError`.
- OperatorTokens.CleanKeepsOperatorToken: says nothing about a `==` whose
  first `=` directly follows another operator character. Whether pass 5 keeps
  it depends on where its scan stands: `x<===1` keeps it, `x<==1` splits it.
- RangeCheck.IsInRange: the argument `x` is a real number. Floats, with their
  rounding, NaN and infinities, are not modelled.
- RangeCheck.IsInRange: `raise ValueError(...) from e` keeps the original
  exception as the `__cause__` of the `ValueError`. The model's error carries
  only the message, not the cause.
- RangeCheck.ValidateExpression: exceptions that `re.compile` raises other
  than `re.error` are not modelled. In Python they would propagate.
- UniType.GetUniType: the dtype is passed in. Reading the column from the
  session's data frame is not modelled; that includes the `KeyError` for a
  missing column and `dropna()`. pandas' dtype inference is collapsed into
  five dtype families.
- The rest of utils.py is not part of this model: the `Defaults` settings
  class and the plotting and download helpers. Neither are the Streamlit
  pages.
