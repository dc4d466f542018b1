# Gene novelty scoring — a Dafny model of the deterministic core

`src/run_llm_novelty.py` scores genes for novelty in oncology. For each
gene it assembles the PubMed citations found for it, ranks them, writes a
prompt that combines the clinical-trial baseline with the top abstracts,
asks a language model for a JSON judgment, cleans and parses the reply,
and applies a fixed score policy before writing one output row.

This project models the deterministic parts of that pipeline and proves
what they guarantee:

- **Assembler** (`concat_docs_for_gene`): the `titleN`, `abstractN` and
  `pmidN` columns of a gene's row are each selected by `^prefix\d+$`.
  Each family is stably sorted by integer suffix. Titles and abstracts are
  zipped by list position, with the i-th pmid attached. A position whose
  title and abstract are both blank is skipped. The text of each document
  is `(title + ". " + abstract).strip(". ")`.
- **Prompt** (`pubmed_density_bucket`, `build_user_msg`): the
  low / moderate / high density label. The user message lines: the
  sparse-trial or multiple-trial instruction, and one quoted line per
  retrieved document with a 300-character snippet whose line feeds become
  spaces.
- **Cleaner** (`clean_json_text`): strip the reply; drop one opening
  Markdown fence with an optional `json` tag (any case) and the whitespace
  after it; drop a closing fence at the end; strip again.
- **Matcher** (`word_boundary_regex`, `mentions_symbol`): case-insensitive
  whole-word search for a symbol or its aliases. It is proved equal to the
  regular expression taken alternative by alternative, including Python's
  `$` before a final line feed.
- **Policy** (the score step of `main`): fall back to the baseline when the
  reply carries no usable score. Cap at 4, or at 5 for the seven
  allow-listed genes. Build the output row, joining references with
  `" || "`.

Supporting modules: `Wrappers` (Option), `Chars` (ASCII character
classes and lower-casing), `Strings` (Python's `strip` for a character
class, `join`, character replacement, prefixes) and `Decimal` (integer
formatting as Python's f-strings do it, with its parse-back inverse).

Three points of the score and prompt logic are easy to misread, and the
model states them as the code has them:

- A failed reply's score is the capped baseline, not the raw baseline:
  a baseline above 4 (or above 5 for an allow-listed gene) is cut to the
  cap. `Policy.FallbackScore` states exactly when the two agree.
- The score has no lower bound. A reply of 0 or a negative number passes
  through unchanged (`Policy.NoLowerBound`).
- Both ends of the "moderate" density bucket, 6 and 40, are inclusive.

## Model

| member | source | states |
|---|---|---|
| Assembler.FamilySuffixSpec | src/run_llm_novelty.py:66-68 | a column label belongs to a family exactly when it is the prefix followed by one or more digits (optionally with one trailing line feed, which `$` admits); the suffix returned is the digits' integer value |
| Assembler.FamilySound | src/run_llm_novelty.py:66-68 | every selected column is a cell whose label matches the family, carrying that cell's value and parsed suffix |
| Assembler.FamilyComplete | src/run_llm_novelty.py:66-68 | every cell whose label matches the family is selected, with its parsed suffix |
| Assembler.FamilyAppend | src/run_llm_novelty.py:66-68 | column selection keeps row order: the family of two concatenated rows is the family of the first followed by that of the second |
| Assembler.InsertSorted | src/run_llm_novelty.py:66-68 | inserting a column into a sequence ordered by suffix keeps it ordered |
| Assembler.SortBySuffix | src/run_llm_novelty.py:66-68 | the sort is ordered by suffix, is a permutation of its input, and is stable: the columns sharing a suffix keep their row order |
| Assembler.SortedByGroupsUnique | src/run_llm_novelty.py:66-68 | a sequence ordered by suffix is determined by its per-suffix groups, so the stable sort has exactly one possible result |
| Assembler.KeepUnskipped | src/run_llm_novelty.py:70-77 | the loop keeps items in their original order, each item exactly once, and drops exactly the positions marked to skip |
| Assembler.PairDocs | src/run_llm_novelty.py:69-77 | one document per zipped position that is not blank, in order; the j-th document is built from the title and abstract at one position and the pmid at that same position |
| Assembler.ConcatDocs | src/run_llm_novelty.py:65-77 | the documents of a row are its sorted title and abstract families zipped by position, with blank positions skipped and the sorted pmid family attached by position |
| Assembler.DocAtFields | src/run_llm_novelty.py:71-75 | its title, abstract and pmid are whitespace-stripped (its text need not be: a title ".\tX" gives a text starting with a tab); its pmid is empty when there are fewer pmid columns than the position needs; title and abstract are both empty exactly when the position is blank |
| Assembler.DocTextShape | src/run_llm_novelty.py:76 | the document text has no dot or space at either end; with one side empty the separator vanishes and the text is the other side stripped of dots and spaces; with both sides clean at their outer ends it is exactly title, ". ", abstract |
| Assembler.SeparatorStripped | src/run_llm_novelty.py:76 | a title alone, or an abstract alone, that has no dot or space at either end becomes the text unchanged, with no dangling ". " (a title ending in "." loses that dot; `Assembler.DocTextShape` gives the general case) |
| Assembler.PositionalPairing | src/run_llm_novelty.py:70 | pairing is by list position, not by suffix: titles 1 and 3 with abstracts 1 and 2 pair title 3 with abstract 2 |
| Strings.StripUnique | src/run_llm_novelty.py:71-72 | a stripped infix whose removed prefix and suffix consist only of stripped characters is the result of `strip`, so `strip` is fully characterised |
| Strings.StripIdempotent | src/run_llm_novelty.py:105 | stripping twice is stripping once |
| Strings.StripDroppablePrefix | src/run_llm_novelty.py:76 | characters of the stripped class in front of a string do not change its strip |
| Decimal.IntToString | src/run_llm_novelty.py:146-147 | an integer is rendered as a decimal string that parses back to that integer |
| Decimal.IntToStringCanonical | src/run_llm_novelty.py:146-147 | the rendering is the canonical one `str` gives: a leading minus sign exactly when the integer is negative, and no leading zero in the digits ("0" itself excepted) |
| Decimal.IntToStringInjective | src/run_llm_novelty.py:146-147 | distinct integers are rendered as distinct strings |
| Prompt.DensityBucket | src/run_llm_novelty.py:107-112 | "low" exactly below 6 hits, "high" exactly above 40, "moderate" exactly from 6 to 40 inclusive |
| Prompt.DensityBucketMonotone | src/run_llm_novelty.py:107-112 | more hits never give a lower label on the low < moderate < high scale |
| Prompt.DensityBucketBoundaries | src/run_llm_novelty.py:39-40 | 5 is low, 6 and 40 are moderate, 41 is high |
| Prompt.Snippet | src/run_llm_novelty.py:159 | the snippet is the first 300 characters of the abstract, or all of a shorter one, with each line feed turned into a space and every other character kept |
| Prompt.InstructionLine | src/run_llm_novelty.py:149-156 | the instruction is the sparse-trial text exactly when there are at most 2 trials, and the multiple-trial text exactly when there are more |
| Prompt.UserLines | src/run_llm_novelty.py:144-159 | five header lines (gene, baseline, counts with density label, instruction, abstracts header) then one quote line per retrieved document, in retrieval order |
| Prompt.BuildUserMsg | src/run_llm_novelty.py:160 | the message starts with the gene line "Gene: " followed by the gene |
| Prompt.UserMsgEnding | src/run_llm_novelty.py:157-160 | the message ends with the last document's quote, or with the abstracts header when nothing was retrieved |
| Prompt.UserMsgSnoc | src/run_llm_novelty.py:158-160 | one more retrieved document adds exactly a line feed and its quote line at the end |
| Cleaner.DropOpenFence | src/run_llm_novelty.py:103 | only a fence at the very start is removed, together with a `json` tag when present and all whitespace after it; the result is a suffix of the input |
| Cleaner.DropCloseFence | src/run_llm_novelty.py:104 | a fence at the end is removed; a fence followed by a final line feed is removed and the line feed kept; otherwise nothing changes |
| Cleaner.CleanJsonText | src/run_llm_novelty.py:101-105 | a missing or empty reply gives ""; the result never starts or ends with whitespace and is never longer than the reply |
| Cleaner.OpenFenceOfFenced | src/run_llm_novelty.py:103 | an opening fence, its `json` tag or no tag, and the whitespace after it are all removed; with no tag, what follows must not begin with `json`, which the greedy tag group would take |
| Cleaner.CleanFenced | src/run_llm_novelty.py:101-105 | a payload wrapped in an opening fence (with a `json` tag, or with none and not itself beginning with `json`) and a closing fence comes out as the payload, stripped |
| Cleaner.CleanBareFence | src/run_llm_novelty.py:101-105 | a payload right after the opening fence, with no tag and no line break, comes out unchanged when it has no whitespace at its ends and does not begin with `json` |
| Cleaner.CleanUnfenced | src/run_llm_novelty.py:101-105 | a reply with no fence at either end is only stripped |
| Cleaner.CloseFenceBeforeLineFeedUnreachable | src/run_llm_novelty.py:102-104 | the closing-fence removal never meets a final line feed, because the reply was stripped first |
| Cleaner.CleanNotIdempotent | src/run_llm_novelty.py:101-105 | the cleaner makes a single pass: a JSON-fenced payload inside a second fence comes out still JSON-fenced, and cleaning it again gives a different result |
| Matcher.RegexSearchIsMention | src/run_llm_novelty.py:52-53 | the pattern, alternative by alternative, finds a match exactly when the symbol occurs with no word character on either side |
| Matcher.FindMention | src/run_llm_novelty.py:52-53 | the scan reports a match exactly when the symbol occurs as a whole word |
| Matcher.MentionsSymbol | src/run_llm_novelty.py:55-63 | false for an empty text; otherwise true exactly when the gene or some alias occurs as a whole word |
| Matcher.MentionsIgnoresCase | src/run_llm_novelty.py:53 | lower-casing the text alone, the symbol alone, or both together does not change whether the symbol is mentioned |
| Matcher.MentionedBetweenNonWords | src/run_llm_novelty.py:53 | a symbol set off by non-word characters or the ends of the text is mentioned |
| Matcher.NotMentionedWithWordSuffix | src/run_llm_novelty.py:53 | any symbol, the empty one included, is not mentioned in the text made of the symbol followed by one word character |
| Matcher.EmptyTextGuard | src/run_llm_novelty.py:55-57 | the pattern of an empty symbol matches an empty text, so the empty-text guard is what makes the answer false |
| Policy.ScoreCap | src/run_llm_novelty.py:214-217 | the cap is 5 exactly for the seven allow-listed genes and 4 for every other gene |
| Policy.FinalScore | src/run_llm_novelty.py:209-217 | the final score is at most the cap and at most the reply's score (the baseline when there is none), and equals one of the two |
| Policy.FallbackScore | src/run_llm_novelty.py:206-212 | without a usable score the baseline is kept exactly when it is within the cap, and is cut to the cap otherwise |
| Policy.FinalScoreMonotone | src/run_llm_novelty.py:214-217 | a higher reply never gives a lower final score |
| Policy.FinalScoreIdempotent | src/run_llm_novelty.py:214-217 | capping a final score again changes nothing |
| Policy.FiveOnlyForAllowList | src/run_llm_novelty.py:42 | a final score of 5 means an allow-listed gene; a reply of at least 5 gives 5 for those genes and 4 for the others |
| Policy.NoLowerBound | src/run_llm_novelty.py:214-217 | a reply of 0 or less passes through unchanged |
| Policy.ScoreRow | src/run_llm_novelty.py:203-228 | the row carries the gene, baseline and counts unchanged and a score within the cap; a failed reply gives empty text fields and the capped baseline; a parsed reply gives its fields, missing ones as "", and a single reference unchanged |
| Policy.UnusableLikeMissingScore | src/run_llm_novelty.py:206-212 | a failed reply and a reply without a score get the same final score |
| Policy.KeyRefsSnoc | src/run_llm_novelty.py:225 | one more reference appends " \|\| " and that reference to the joined list |

## Left out

- Reading the three tables, writing the output file, the credential check, the progress bar and the pause between genes: these are I/O. The model takes a gene's row as a list of (label, text) cells and the counts and baseline as integers.
- How `main` converts `total_found`, `num_trials` and `novelty_score` to integers (`int(...)` on cell text) and chooses a row for the gene: the model takes the resulting integers as inputs. A gene listed twice in the PubMed table, where pandas returns several rows, is not modelled.
- `pick_top_k_by_ensemble` and `minmax_norm` (BM25 and embedding ranking): they rely on floating point and an external sentence model. The retrieved documents reach `Prompt.BuildUserMsg` as a parameter.
- `call_openai_json` and `SYSTEM_MSG`: the language model is reached by one network call with a fixed system text. The outcome of that call enters the Dafny model as a `Policy.Reply`.
- `json.loads` and `int()` on the reply: a reply that fails to decode is `Reply.Unusable`. The score is `Some(int(v))` when the `novelty_score` value `v` is present and `int()` accepts it, and `None` when the key is missing or `int()` raises. What `int()` makes of a value is not modelled: a JSON 4.7 gives 4, "5" gives 5 and `true` gives 1, and none of these falls back to the baseline.
- A decoded reply that is not a JSON object makes `js.get` raise outside any `try`, which ends the run. This is not modelled.
- `oncogenic_role` and `therapy_context` values that are not strings are written to the row as they are. The model takes them as strings.
- Cleaner.CleanJsonText: `html.unescape` is taken as the identity, so entity decoding is not modelled.
- Strings.Strip: whitespace is the ASCII part of Python's `str.isspace` (tab to carriage return, the four separators 0x1C–0x1F and space); other Unicode spaces are not modelled.
- Matcher.MentionsIgnoresCase: case folding is ASCII only. The Unicode cases where Python's case-insensitive matching lets a non-ASCII character match an ASCII letter (such as the Kelvin sign) are not modelled. This applies to the `json` tag of the cleaner too.
- Assembler.FamilySuffixSpec: `\d` is taken as the ASCII digits. Python also accepts other Unicode decimal digits in a column label.
- Policy.ScoreRow: the joined references are characterised for zero and one reference and by `Policy.KeyRefsSnoc` for each added one. Any `key_refs` value other than a list of strings cannot be expressed by `Policy.Reply` and is not modelled. The join runs outside any `try`, so each raising case ends the run. A list with non-string entries raises. A string is joined character by character ("P || M || I || D ..."). A JSON object is joined by its keys ("k1 || k2"). A `null`, number or boolean raises because it is not iterable.
- The loop of `main` that connects these steps for each gene and collects the rows is not modelled as one operation. Its steps are modelled one by one.
