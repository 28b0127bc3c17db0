# normality pipeline in Dafny

This project models the public pipeline of the `normality` text-normalisation
library, as found in `normality/__init__.py`:

- `normalize(text, lowercase, collapse, latinize, ascii, replace_categories)`
  returns `None` for anything that is not a string. Otherwise it runs these
  stages in order: optional lowercasing; at most one transliteration, where
  `ascii_text` wins over `latinize_text`; `category_replace` with the caller's
  categories, which always runs; optional `collapse_spaces`.
- `slugify(text, sep)` calls `normalize` with `ascii=True`. It passes `None`
  through and otherwise replaces every space with `sep`.

The stage functions are not part of this model. They live in
`normality.cleaning` and `normality.transliteration`, next to the
`UNICODE_CATEGORIES` constant in `normality.constants`. They are carried as the
fields of the record `Stages.Env<C>`, and every definition and lemma holds for
every value of that record, so the stages stay uninterpreted. `C` is the type
of a category set; nothing is assumed about it.

Files:

- `wrappers.dfy`: `Option`, standing for Python's `None`-or-value.
- `stages.dfy`: `Env`, the external collaborators.
- `replace.dfy`: `str.replace` with a one-character pattern, and its properties.
- `normality.dfy`: `Text` (a string or not), `Config` (the keyword arguments),
  `Normalize`, `Slugify` and lemmas about flags and precedence.
- `trace.dfy`: an independent description of `normalize` as a list of stages
  (`Plan`) plus an interpreter (`Run`). A lemma proves that `Normalize` equals
  running its plan. Ordering, precedence and "applied exactly once" are then
  stated on the plan, and "never applied" is proved through the interpreter
  (`UnplannedStageIgnored`).

Facts about the code that shape the model:

- `sep` is any string, as `str.replace` accepts (normality/__init__.py:66), and
  it defaults to `"-"` (normality/__init__.py:62).
- Byte input is not in `six.string_types` under Python 3
  (normality/__init__.py:29), so it gives `None`.
- `None` comes only from normality/__init__.py:30 and from `collapse_spaces`.
  With `collapse=False`, a string input always yields a string (`Normalize`'s
  second ensures).

## Model

| member | source | states |
|---|---|---|
| Normality.Normalize | normality/__init__.py:11-59 | a non-string input gives `None` whatever the stage functions are, so no stage decides the outcome; with `collapse` off, a string input never gives `None` |
| Normality.DefaultConfig | normality/__init__.py:11-12 | the defaults are lowercase and collapse on, latinize and ascii off, and categories `UNICODE_CATEGORIES` |
| Normality.LowercaseFeedsTransliteration | normality/__init__.py:37-39 | with `lowercase`, normalizing `s` is the same as normalizing `lower(s)` with lowercasing off, so the later stages see `lower(s)` |
| Normality.NoLowercaseIgnoresLower | normality/__init__.py:37-39 | without `lowercase`, the result does not depend on the lowercasing function: the input reaches transliteration unchanged |
| Normality.AsciiBeatsLatinize | normality/__init__.py:41-48 | with `ascii`, the result depends neither on the `latinize` flag nor on `latinize_text` |
| Normality.AsciiTransliterates | normality/__init__.py:41-44 | with `ascii`, the transliteration stage is `ascii_text` applied to the (lowercased) text |
| Normality.LatinizeTransliterates | normality/__init__.py:45-48 | with only `latinize`, the transliteration stage is `latinize_text` |
| Normality.NoTransliteration | normality/__init__.py:41-48 | with neither flag, the result depends on neither transliteration function, so that stage is the identity |
| Normality.CategoryReplaceAlwaysRuns | normality/__init__.py:50-53 | with every optional stage off, the result is `Some(category_replace(s, replace_categories))`, using the caller's categories |
| Normality.CollapseIsLast | normality/__init__.py:55-59 | with `collapse`, the result is `collapse_spaces` applied to what the pipeline gives without it, and `None` is passed through |
| Normality.SlugConfig | normality/__init__.py:64 | `slugify` normalizes with `ascii=True` and the other defaults |
| Normality.Slugify | normality/__init__.py:62-66 | the slug is `None` exactly when `normalize(text, ascii=True)` is `None`; otherwise it is that text with every space replaced by `sep` |
| Normality.SlugDefaultSeparator | normality/__init__.py:62 | without a separator argument, `slugify` uses `"-"` |
| Normality.SlugHasNoSpaces | normality/__init__.py:66 | a separator without spaces gives a slug without spaces |
| Normality.SlugKeepsPositions | normality/__init__.py:66 | a one-character separator keeps the length; position `i` holds `sep` where the normalized text had a space, and the same character otherwise |
| Normality.SlugWithSpaceIsNormalize | normality/__init__.py:66 | with `sep == " "`, `slugify` equals `normalize(text, ascii=True)` |
| Normality.SlugRecoversNormalized | normality/__init__.py:66 | with a one-character separator absent from the normalized text, replacing it back by spaces recovers the normalized text |
| StrReplace.ReplaceChar | normality/__init__.py:66 | the length grows by `len(sep) - 1` per replaced character; every result character comes from `sep` or is a non-target input character; every non-target input character, and (when a replacement happens) every `sep` character, appears in the result |
| StrReplace.ReplaceAppend | normality/__init__.py:66 | replacement distributes over concatenation |
| StrReplace.ReplaceOneForOne | normality/__init__.py:66 | a one-character replacement keeps the length and maps each position independently |
| StrReplace.ReplaceKeepsOthersAt | normality/__init__.py:66 | a non-target character at `i` lands at `i` plus `len(sep) - 1` per target before it |
| StrReplace.ReplaceAbsent | normality/__init__.py:66 | text without the target is unchanged |
| StrReplace.ReplaceWithItself | normality/__init__.py:66 | replacing a character by itself is the identity |
| StrReplace.ReplaceRoundTrip | normality/__init__.py:66 | replacing `c` by a character `d` absent from the text, then `d` by `c`, restores the text |
| Trace.Plan | normality/__init__.py:37-59 | the stages for a configuration are in pipeline order, each ranked above the one before it: lowercasing first, at most one transliteration, category replacement, collapse last; category replacement is always present; `Lower` is present iff `lowercase`, `Ascii` iff `ascii`, `Latinize` iff `latinize` and not `ascii`, `Collapse` iff `collapse` |
| Trace.AtMostOnce | normality/__init__.py:37-59 | in an ordered plan no stage occurs twice, so no stage of `normalize` runs more than once |
| Trace.CategoryReplaceOnce | normality/__init__.py:53 | every plan contains `category_replace` exactly once |
| Trace.Apply | normality/__init__.py:39-57 | every stage except `collapse_spaces` yields a string |
| Trace.Run | normality/__init__.py:37-59 | a run without the collapse stage never yields `None` |
| Trace.NormalizeFollowsPlan | normality/__init__.py:29-59 | `normalize` on a string equals running its plan |
| Trace.UnplannedStageIgnored | normality/__init__.py:37-59 | a stage missing from the plan is never applied: changing only its function leaves the result unchanged |

## Left out

- The bodies of `collapse_spaces`, `category_replace`, `latinize_text` and `ascii_text`, and the contents of `UNICODE_CATEGORIES` (normality/__init__.py:3-5). `normality.cleaning`, `normality.transliteration` and `normality.constants` are not part of this model. They are fields of `Stages.Env`, so idempotence, ASCII-only output and concrete outputs such as `"hello-world"` are not stated.
- The Unicode case mapping behind `text.lower()`. It is the uninterpreted `Env.lower`.
- The Python 2 branch that guesses an encoding and decodes byte strings (normality/__init__.py:33-35). `normality.encoding` is not part of this model. Byte input is a `NotStr`, as under Python 3.
- The `decompose` (NFKD) option in the docstring. It is not a parameter of `normalize` and nothing implements it.
- The `six` compatibility layer and the unused `WS` constant. They add no behaviour.
- Normality.Slugify: a non-string `sep` makes `text.replace(' ', sep)` raise `TypeError` (normality/__init__.py:66); `sep` is typed `string`, so that error path is not modelled.
