# OllamaDownloader core, modelled in Dafny

OllamaDownloader is an interactive Python script (`downloadModel.py`) that
lists the models of the Ollama library as `model:param` entries, lets the
user filter them and pick some by number, and then pulls the picked entries
one after the other with a bounded retry. This project models the logic of
that script and proves properties about it:

- **Filtering** (`display_models`, module `Listing`, with the size parsing in
  module `Sizes`). The catalogue is expanded into `model:param` entries, in
  catalogue order and then parameter order. A keyword such as `>=7b` filters
  by size: the operator is an enumerated type, and sizes are exact reals
  rather than floats. Any other keyword is a case-insensitive substring
  filter. Each model gets a colour from a palette of ten, in order of first
  appearance.
- **The prompts** (`main`, modules `Selection` and `Session`). At the filter
  prompt, `h` shows the help, an empty line lists everything, and an empty
  result asks again. At the selection prompt, `0` goes back to filtering.
  Otherwise the reply must match `^\d+(,\d+)*$` with every number in
  `1..N`; the chosen entries are `model_params[i - 1]`, in the order typed,
  with duplicates kept.
- **The download loop** (the end of `main`, module `Download`). It is a FIFO
  queue with a per-key attempt counter, and the `ollama pull` subprocess
  becomes an oracle `pull(n, key)`. The model proves three things: the loop
  terminates; it makes at most `|selection| + 2 * (distinct keys)` pulls;
  every selected copy finishes exactly once.
- **The column layout** (module `Layout`). Both listings print
  `ceil(n / 4)` rows, and cell `(row, col)` shows item
  `row + col * items_per_col`. The model proves that this visits every
  index exactly once.
- Python's `strip`, `lower`, `split`, `join`, `in` and `int` on digit runs
  are modelled in `Text`; duplicate removal in first-appearance order is
  modelled in `Seqs`.

Behaviour of the program that the model makes explicit:

- The download loop never polls connectivity.
- A failed pull is re-appended to the back of the queue while fewer than
  three attempts have been made for that key, and skipped after that.
- The attempt counter of a key is never reset, so two copies of the same
  entry share it.
- The selection prompt has no "all" token and no confirmation step.
- A blank reply at the selection prompt is rejected like any other
  malformed reply and asks again.

## Model

| member | source | states |
|---|---|---|
| Text.Strip | downloadModel.py:263 | `strip()` leaves no whitespace at either end and leaves an already-trimmed string alone |
| Text.StripRemovesOnlyWhitespace | downloadModel.py:263 | what `strip()` removes is whitespace at the two ends, and what it keeps is one contiguous slice of the input |
| Text.StripEmpty | downloadModel.py:79 | `strip()` gives the empty string exactly when the input is all whitespace |
| Text.StripIdempotent | downloadModel.py:263 | stripping twice is stripping once |
| Text.Lower | downloadModel.py:269 | `lower()` keeps the length and maps each character independently (ASCII letters only) |
| Text.JoinSplit | downloadModel.py:261 | joining the pieces of `split(sep)` with `sep` gives the string back |
| Text.SplitJoin | downloadModel.py:186 | splitting a `join` of separator-free pieces gives the pieces back |
| Text.Split | downloadModel.py:261 | `split(sep)` returns at least one piece and no piece holds the separator |
| Text.ToDecimal | downloadModel.py:85 | the decimal spelling of `n` is a non-empty digit run without leading zero that `int()` reads back as `n` |
| Text.LeadingDigitsUnique | downloadModel.py:82 | the greedy `\d+` run is the only digit run that ends at a non-digit |
| Text.Contains | downloadModel.py:269 | `needle in hay` holds exactly when the needle occurs at some position of the haystack |
| Seqs.Distinct | downloadModel.py:272-275 | the distinct elements, each once, and exactly the elements of the input |
| Seqs.DistinctInFirstAppearanceOrder | downloadModel.py:273-276 | the distinct elements are ordered by their first appearance in the input |
| Sizes.ScanSize | downloadModel.py:238 | a match of `(\d+(\.\d+)?)([kmgb])` is a well-formed literal that starts the string, and one is found exactly when a digit run, the optional fraction and a unit letter start it |
| Sizes.SpelledPrefixUnique | downloadModel.py:238-241 | two well-formed literals that both start a string are the same literal, so the groups of the anchored match are determined |
| Sizes.ScanSizeComplete | downloadModel.py:238-240 | any well-formed literal starting the string is the match found, so the scan is exactly the anchored regular expression |
| Sizes.ParseParam | downloadModel.py:236-243 | `parse_param`: the size of a parameter, or none when it does not start with a size literal; described by ParseParamReadsLiteral, ParseParamSound and NoLeadingDigitNoSize |
| Sizes.ParseParamReadsLiteral | downloadModel.py:236-243 | a parameter starting with a size literal parses to the literal's value times its unit, whatever follows |
| Sizes.ParseParamSound | downloadModel.py:236-243 | a parameter that parses starts, case aside, with a well-formed literal carrying the parsed value |
| Sizes.NoLeadingDigitNoSize | downloadModel.py:238-240 | a parameter not starting with a digit (`latest`, `e2b`) does not parse |
| Sizes.ParseParamDecimalExample | downloadModel.py:237-243 | `10.5m` parses to 10 500 000 |
| Sizes.ParseParamUpperCaseExample | downloadModel.py:238 | `1.5B` parses to 1 500 000 000, since the unit letter is read case-insensitively |
| Sizes.ParseParamMixtureExample | downloadModel.py:238-240 | `8x7b` does not parse |
| Sizes.OperatorSpelling | downloadModel.py:254-256 | each comparison has a spelling that reads back as that comparison |
| Sizes.OperatorTable | downloadModel.py:253-256 | exactly `<`, `<=`, `>`, `>=`, `=` and `==` are operators, and `=` and `==` both compare for equality |
| Sizes.SizeFilterShape | downloadModel.py:231-233 | on a keyword with the filter syntax, the `in "=<>"` test picks out the operator text, that text is one of the six comparisons, and the threshold after it parses |
| Sizes.ParseSizeFilter | downloadModel.py:231-234 | a keyword is a size filter exactly when it has the filter syntax; its operator is the comparison the keyword's first one or two characters spell, two exactly when the second is `=`, and the threshold is the rest of the keyword as typed, which parses |
| Sizes.SizeFilterRoundTrip | downloadModel.py:231-234 | an operator written before a size literal parses back to that operator, with the rest as the threshold |
| Sizes.SizeFilterReadsOperator | downloadModel.py:231-234 | any of the six operator spellings before a size literal, its unit letter typed in either case, parses to that operator, with the literal as typed and whatever follows as the threshold |
| Sizes.DoubleEqualsExample | downloadModel.py:231-234 | `==8b` is an equality filter with threshold `8b` |
| Sizes.UpperCaseUnitExample | downloadModel.py:231-234 | `>=8B` is a `>=` filter whose threshold keeps the typed `8B` |
| Sizes.TextKeywordIsNotSizeFilter | downloadModel.py:231 | a keyword not starting with `<`, `>` or `=` is never a size filter |
| Sizes.MatchesSize | downloadModel.py:245-256 | `matches_filter`: both sizes parse and the operator holds between them; described by Listing.SizeFilterSelects |
| Listing.ClassifyFilter | downloadModel.py:230-234 | the filter a keyword selects: none when empty, a size comparison with the filter syntax, a substring test otherwise; described by ShowAllKeepsEverything, SizeFilterSelects and TextFilterSelects |
| Listing.Keep | downloadModel.py:264-270 | whether one entry passes the filter; described by SizeFilterSelects and TextFilterSelects |
| Listing.ParametersField | downloadModel.py:179-187 | `extract_parameters` on what the scrape found; described by LatestEntries, SizesSplit and ScrapedEntries |
| Listing.KeySplits | downloadModel.py:297 | `entry.split(':')` on a key built as `f"{model}:{param}"` (line 266) gives back the model and the parameter, when neither holds a colon |
| Listing.ModelEntriesContain | downloadModel.py:261-266 | an entry belongs to a model's entries exactly when it names that model and one of its comma-separated pieces, stripped |
| Listing.LatestEntries | downloadModel.py:187 | a model whose parameters field is the fallback `latest` is listed once, as `model:latest` |
| Listing.ScrapedEntries | downloadModel.py:177-187 | a model without sizes is listed once as `model:latest`; otherwise once per scraped label, in page order, lower-cased and stripped |
| Listing.SizesSplit | downloadModel.py:182-187 | splitting the stored field on commas gives back the cleaned labels, each lower-cased and stripped, when no label holds a comma |
| Listing.Expand | downloadModel.py:258-266 | every `model:param` pair of the catalogue, model by model; described by ExpandAppend, ExpandMembership and ExpandNoDuplicates |
| Listing.Select | downloadModel.py:262-271 | the entries that pass the filter, in order; described by SelectMembership and SelectAppend |
| Listing.FilteredKeys | downloadModel.py:258-271 | the keys `display_models` returns for a keyword; described by DisplayModels and Session.ListingWithinCatalogue |
| Listing.SelectAppend | downloadModel.py:258-271 | filtering distributes over concatenation, so it keeps the entries' relative order |
| Listing.SelectMembership | downloadModel.py:262-271 | an entry is listed exactly when it is in the catalogue and passes the filter |
| Listing.ShowAllKeepsEverything | downloadModel.py:247-248 | with no keyword, the listing is the whole expansion, unchanged |
| Listing.SizeFilterSelects | downloadModel.py:245-256 | with a size filter, an entry is listed exactly when its parameter parses and its size satisfies the operator against the threshold |
| Listing.TextFilterSelects | downloadModel.py:267-270 | with a text keyword, an entry is listed exactly when the lower-cased keyword occurs in the lower-cased `model:param` |
| Listing.ExpandAppend | downloadModel.py:260-263 | the catalogue expands model by model, in catalogue order |
| Listing.ExpandMembership | downloadModel.py:260-266 | the expansion holds exactly the pairs of a catalogued model with one of its stripped pieces |
| Listing.ExpandNoDuplicates | downloadModel.py:260-271 | with distinct models and distinct pieces, every `model:param` pair appears exactly once |
| Listing.ColourStepSeen | downloadModel.py:273 | listing another entry of an already coloured model changes no colour |
| Listing.ColourStepNew | downloadModel.py:273-276 | the first entry of a new model gives it the next palette colour, wrapping after ten |
| Listing.ListEntry | downloadModel.py:264-276 | one entry is tested, listed when it passes, and its model coloured on first sight |
| Listing.ListPieces | downloadModel.py:261-276 | the inner loop lists exactly the filtered entries of one model and keeps the colour map in step |
| Listing.DisplayModels | downloadModel.py:214-276 | the loop returns the filtered expansion's keys, and each listed model's colour is the palette colour of its rank in first-appearance order |
| Layout.ItemsPerColumn | downloadModel.py:288 | `ceil(n / 4)` rows: enough to hold `n` items, and one fewer would not be |
| Layout.RowMembership | downloadModel.py:293-295 | a row shows exactly the indices below `n` with that remainder, in its columns |
| Layout.GridMembership | downloadModel.py:291-295 | the rows printed so far show exactly the indices below `n` whose row and column lie in range |
| Layout.LayoutVisitsEachOnce | downloadModel.py:104-109 | `PrintOrder`, printing the rows one after another, visits every index below `n` exactly once and nothing else |
| Layout.LayoutPosition | downloadModel.py:291-295 | the inverse of `CellPosition`: item `x` is printed in row `x % ipc`, at column `x / ipc`, one of the four |
| Selection.IsIndexList | downloadModel.py:82 | `re.match(r'^\d+(,\d+)*$', ...)` on the stripped reply; described by IndexListIff |
| Selection.IndexListIff | downloadModel.py:82 | `^\d+(,\d+)*$` accepts exactly the replies whose comma-separated pieces are all non-empty digit runs |
| Selection.Values | downloadModel.py:85 | one number per comma-separated piece, the value of its digits |
| Selection.ParseSelection | downloadModel.py:79-88 | `0` goes back; a reply not matching the expression is malformed; a reply with all numbers in `1..N` is chosen; otherwise it is out of range |
| Selection.BlankReplyIsMalformed | downloadModel.py:79-84 | a blank reply is malformed and does not go back to the filter prompt |
| Selection.Pick | downloadModel.py:95 | the chosen entries are `listing[i - 1]`, in the order typed, duplicates kept |
| Selection.RenderReadsBack | downloadModel.py:82-85 | numbers written with commas match the expression and read back as the same numbers |
| Selection.ParseRendered | downloadModel.py:79-87 | typing the numbers of a valid choice selects exactly that choice |
| Session.ListingWithinCatalogue | downloadModel.py:69 | a filtered listing lists only catalogue entries |
| Session.FilterPrompt | downloadModel.py:60-72 | a session that ends confirms a non-empty selection of catalogue entries, having read at least one line |
| Session.SelectPrompt | downloadModel.py:77-95 | the selection prompt confirms only non-empty selections of catalogue entries |
| Session.RejectedRepliesAreSkipped | downloadModel.py:82-88 | malformed or out-of-range replies leave no trace in the session |
| Session.ChoosingConfirms | downloadModel.py:85-95 | a valid reply ends the prompt with the entries it names |
| Download.Step | downloadModel.py:123-149 | one round pops the front key and counts one more attempt for it alone. Success drops the key. A failure with fewer than three attempts re-appends it to the back; otherwise the key is skipped. Other keys keep their order. The shown position is `total - remaining` |
| Download.StepDecreases | downloadModel.py:121-149 | every round shrinks the queue or spends one of the key's two requeues, so the loop ends |
| Download.Run | downloadModel.py:121-149 | the pulls of the download loop from a given queue and counter state; described by Download and StepDecreases |
| Download.Download | downloadModel.py:121-149 | the loop ends after at most `|selection| + 2 * distinct` and at most `3 * |selection|` pulls. Every selected copy finishes exactly once. Each key is pulled at most its copies plus two times. Every reported position lies in `1..total`. Every attempt number is the key's running pull count. The pulls follow the oracle |
| Download.RetryThenSucceed | downloadModel.py:133-146 | a key failing twice is pulled a third time and succeeds, shown as `1/1` each time |
| Download.SharedCounterSteps | downloadModel.py:126-127 | the four rounds of a twice-selected, always-failing key |
| Download.SharedCounter | downloadModel.py:126-149 | a key selected twice shares one counter: the second copy is skipped on its first pull, attempt 4 |

## Left out

- HTTP download and caching of the library page (`get_model_list`): network and file I/O.
- The HTML scraping in `extract_models` and `extract_parameters`: it would need a regular-expression engine with look-ahead. `ParametersField` takes the scraped size labels as input; only the `latest` fallback and the clean-up of the labels are modelled.
- `ollama list`, `ollama pull` and `ollama show` are subprocesses. The pull's exit status is the oracle `pull(n, key)`, and the output of `ollama show` is not modelled.
- The yellow numbering of locally present models (`is_local`) is display only.
- Screen clearing, ANSI colours, padding and the help text are display only.
- The `time.sleep(10)` back-off is not modelled.
- The hibernate prompt, its countdown and the OS shutdown calls are not modelled.
- `float(num) * multiplier` and the `eval` of the comparison are modelled exactly over reals, with an enumerated operator. Float rounding is not modelled.
- Sizes.MatchesSize: float overflow is not modelled. A threshold such as `>` followed by 300 nines and `b` overflows `float(num) * multiplier` to `inf`, and `eval("8000000000.0 > inf")` at downloadModel.py:256 then raises `NameError`. Every operator except `=` goes through `eval`, and the call at downloadModel.py:69 is outside any `try`, so the program stops. The model compares exact reals and filters normally, and Listing.DisplayModels and Session.FilterPrompt carry on.
- Text.Lower: only ASCII letters are lower-cased. Python's `lower()` also maps other Unicode letters.
- Text.IsDigit: `\d` and `int()` are modelled on ASCII digits only. Python also accepts other Unicode decimal digits.
- Selection.Values: every accepted digit run is read as its exact value. Python's `int()` raises `ValueError` for a run of more than 4300 digits (from 3.11, and in the 3.7 to 3.10 security releases); the program then prints a message and asks again, as it does for an out-of-range reply. A reply such as 4300 zeros followed by `1` is therefore rejected by the program but chosen by the model; every such run whose value exceeds the length of the listing is `OutOfRange` in the model, which matches the program's re-prompt.
- Listing.KeySplits: only colon-free entries are stated. A model name or a parameter holding a colon makes `model, param = entry.split(':')` at downloadModel.py:297 raise `ValueError`, which nothing catches, so the program stops. In the model, Listing.DisplayModels and Session.FilterPrompt go on to the selection prompt.
- Session.FilterPrompt: running out of input lines ends the session with `OutOfInput`. Python would raise `EOFError` at the next `input()`.
- Listing.ScrapedEntries: states only labels without a comma. A scraped label holding a comma becomes several entries, exactly as `split(',')` makes it.
