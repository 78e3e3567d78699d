# Medical report parser and normaliser, modelled in Dafny

The service asks a text model for a markdown health report. It then turns the reply into
a JSON record in two pure stages, and this project models both of them.

- **`parse_medical_report`** looks for six `### <Name>` sections. Each name is matched
  case-insensitively. A section body runs to the next `###` or the end of the text; the
  body of `Tabular Mapping` always runs to the end. Each body has its own extraction rule:
  - numbered priorities and a `**Key Strengths:**` list;
  - `**label** text` maps;
  - one alert per line;
  - `- name: range` pairs;
  - five-cell pipe-table rows, of which pure separator rows are dropped.
- **`clean_json`** walks the parsed record:
  - strings lose `---` runs and repeated whitespace and are trimmed;
  - lists lose falsy elements;
  - dict keys are stripped.

Every regular expression is written out as a left-to-right scanner over `seq<char>`:
"the match at position `i`" plus a `findall`/`finditer` that takes leftmost,
non-overlapping matches. Backtracking is worked out by hand where it changes a group:
- `\s*` giving back a character to `([^:]+)` or `([^|]+)`;
- `\s*` crossing a newline before `(.*?)\n`;
- `$` matching just before a final newline.

Whitespace (`\s`, `str.strip()`) is the full Unicode set Python uses, written out
character by character. `str.splitlines()` splits at its own, different set of line
boundaries, not at whitespace. `Text.LineBreaks` lists them: `\n`, `\r` (with `\r\n`
counted once), vertical tab, form feed, the file, group and record separators, next
line, and the Unicode line and paragraph separators.

A Python dict is an association list with distinct keys in insertion order. Assigning to
a present key keeps its position; a new key goes at the end.

The imperative parts are methods proved equal to specification functions, and the
properties are proved about those functions:
- the `finditer` loop of `parse_bold_entities`;
- the normal-ranges loop;
- the table loop with its two `continue`s;
- the section-by-section filling of `data`.

Modules:
- `Text`: string primitives.
- `Dicts`: ordered dicts.
- `Sections`: `### <Name>` headers and bodies.
- `Lines`: `clean_line`, alerts, key strengths and priorities.
- `Bold` and `BoldFacts`: bold entities.
- `Ranges`: normal ranges.
- `Table`: table rows.
- `Report`: the parser.
- `Normaliser`: `clean_json`.
- `Pipeline`: `clean_json(parse_medical_report(reply.strip()))`.

## Model

| member | source | states |
|---|---|---|
| Normaliser.CleanString | app.py:48-52 | The cleaned string contains no `---`. Every whitespace character in it is a single space followed by a non-whitespace character. It neither starts nor ends with space, `-`, `\n`, `\t` or `\r`. It is never longer than the input. |
| Normaliser.RemoveDashRuns | app.py:49 | Deleting every run of three or more dashes leaves no `---` and never lengthens the string. A leading dash run survives only when it is shorter than three. |
| Normaliser.RemoveDashRunsNoop | app.py:49 | A string without `---` is left unchanged by the dash substitution. |
| Normaliser.RemoveDashRunsKeeps | app.py:49 | The dash substitution deletes dashes only. The characters other than `-` are exactly those of the input, in the same order. |
| Text.CollapseSpace | app.py:50 | `re.sub(r"\s+", " ", …)` leaves a singly spaced string. It is empty exactly when the input is. A leading whitespace run becomes one space, and a first or last non-whitespace character is kept. |
| Text.CollapseSpaceNoop | app.py:50 | A singly spaced string is unchanged by collapsing whitespace. |
| Text.CollapseSpaceKeeps | app.py:50 | Collapsing whitespace deletes or replaces whitespace only. The non-whitespace characters are exactly those of the input, in the same order. |
| Text.StripChars | app.py:51 | `str.strip(chars)` returns the text between the first and last characters outside the set. Everything it removes at either end belongs to the set, and the result neither starts nor ends with a set member. |
| Text.StripCharsKeeps | app.py:51 | `str.strip(chars)` deletes characters of the set only. The other characters are exactly those of the input, in the same order. |
| Text.Strip | app.py:138-142 | `str.strip()` never lengthens a string and leaves no whitespace at either end. |
| Text.FindLiteral | app.py:97 | A literal search finds the leftmost occurrence at or after the start position, and none occurs before it. Without a result the literal does not occur from there on. |
| Text.LookaheadEnd | app.py:72 | The lazy text of a bold match stops at the first position where `**`, `###` or `$` matches. |
| Normaliser.CollapseSpaceNoDashTriple | app.py:49-50 | Collapsing whitespace after the dash removal creates no new `---`. |
| Normaliser.CleanStringNoop | app.py:48-52 | A string that is already clean is a fixed point of string cleaning. |
| Normaliser.CleanStringIdempotent | app.py:48-52 | Cleaning a cleaned string changes nothing. |
| Normaliser.CleanStringShape | app.py:48-52 | A cleaned string has no whitespace at either end. Each whitespace character inside it is a space standing strictly between two other characters. |
| Normaliser.CleanStringKeeps | app.py:48-52 | String cleaning deletes only dashes and whitespace (turning whitespace runs into spaces). Every other character of the input survives, in order, and nothing else is removed. |
| Normaliser.CleanStringPhrase | app.py:48-52 | Sample input: a run of at least three dashes, optional whitespace, a word, a whitespace gap, a word, then trailing whitespace. It cleans to the two words joined by one space. |
| Normaliser.KeepTruthyMembers | app.py:54 | A list element that is truthy both before and after cleaning appears, cleaned, in the result. |
| Normaliser.KeepTruthyOrigin | app.py:54 | Every element of the cleaned list is the cleaned form of an input element that was truthy before cleaning. |
| Normaliser.KeepTruthyAppend | app.py:54 | The list filter distributes over concatenation, so the survivors keep their input order. |
| Normaliser.KeepTruthyAll | app.py:54 | A list whose elements are all truthy and already clean is kept whole. |
| Normaliser.CleanJson | app.py:46-57 | The kind of value is kept: a string stays a string, a list a list, a dict a dict. Every other value is returned unchanged. A list never grows. A dict result has distinct keys. |
| Normaliser.CleanJsonNormalized | app.py:46-57 | The output is in normal form at every depth: clean strings, lists with no falsy element, and dicts with distinct, stripped keys. |
| Normaliser.CleanJsonNoop | app.py:46-57 | A value already in normal form is returned unchanged. |
| Normaliser.CleanJsonIdempotent | app.py:46-57 | `clean_json(clean_json(v)) == clean_json(v)` for strings, lists, dicts and nested mixes. |
| Normaliser.CleanJsonList | app.py:53-54 | A cleaned list holds exactly the cleaned elements that were truthy before and after cleaning, and all of them are truthy. |
| Normaliser.CleanJsonDict | app.py:55-56 | A dict entry whose stripped key no later entry shares ends up under its stripped key with its cleaned value, so no entry is dropped for being empty. |
| Normaliser.CleanJsonKeys | app.py:55-56 | The keys of a cleaned dict are exactly the stripped input keys. |
| Normaliser.CleanJsonDictKept | app.py:55-56 | A dict whose keys are distinct and already stripped keeps its keys in their order, and each value is cleaned in place. |
| Dicts.Put | app.py:78 | `d[k] = v` keeps keys distinct. |
| Dicts.PutGet | app.py:78 | After `d[k] = v`, looking up `k` gives `v` and every other key gives what it gave before. |
| Dicts.PutEntries | app.py:78 | An assignment brings in no entry other than `(k, v)`. |
| Dicts.PutKeys | app.py:78 | An assignment adds `k` to the keys and removes none. |
| Dicts.PutAll | app.py:73-78 | A sequence of assignments keeps keys distinct. |
| Dicts.PutAllLastWins | app.py:73-78 | The last assignment to a key decides its value, so a repeated key keeps the later value. |
| Dicts.PutAllUntouched | app.py:73-78 | A key that no assignment mentions keeps its earlier lookup result. |
| Dicts.PutAllEntries | app.py:73-78 | Every entry afterwards was already present or is one of the assigned pairs. |
| Dicts.PutAllKeys | app.py:56 | The keys after the assignments are the earlier keys plus the assigned keys. |
| Dicts.PutAllDistinct | app.py:56 | Assigning pairs with distinct keys into an empty dict gives back those pairs in their order. |
| Sections.HeaderAt | app.py:91 | A header match at `i` starts with `###` and ends past the name. |
| Sections.HeaderAtIff | app.py:91 | `###\s*<Name>` matches at `i` exactly when `###`, only whitespace and then the name, case-insensitively, stand there. It then ends right after the name. |
| Sections.FindHeader | app.py:91 | `re.search` finds the leftmost header, and no header starts before it. |
| Sections.SectionFound | app.py:91-92 | A section is found exactly when its header occurs anywhere in the text. |
| Sections.SectionBody | app.py:91-93 | The body is the slice right after the first header. It contains no `###`, and it stops at the next `###` or at `$`. |
| Sections.TableSectionRest | app.py:131-133 | The table section is found exactly when a lazy section with that header would be found. Its body is a suffix of the text and extends the lazy body. |
| Sections.NoHashesNoSections | app.py:91-133 | A text without `###` has none of the six sections. |
| Sections.HeadersStartSolid | app.py:91-131 | Each of the six names starts with a letter, so `\s*` before it never has to give anything back. |
| Report.NoHeadersDefault | app.py:81-131 | A text without `###`, the empty text among them, yields the initial `data` with every field at its default. |
| Lines.DeleteMarkers | app.py:67 | Deleting every `[-*•]+\s*` run leaves no `-`, `*` or `•`. A first character that is not whitespace stays non-whitespace. |
| Lines.CleanLine | app.py:66-67 | A cleaned line holds no marker and does not start with whitespace. |
| Lines.DeleteMarkersKeeps | app.py:67 | A character that is neither a marker nor whitespace survives the marker deletion. |
| Lines.DeleteMarkersOthers | app.py:67 | The marker deletion removes markers and whitespace only. The other characters are exactly those of the input, in the same order. |
| Lines.CleanLineKeeps | app.py:66-67 | `clean_line` removes markers and whitespace only. The other characters of the line survive, in order. |
| Lines.CleanLineEmpty | app.py:66-67 | A line cleans to the empty string exactly when it consists only of markers and whitespace, so a line of dashes gives no entry. |
| Lines.NonEmptyCleanLines | app.py:100 | Every kept item is the non-empty clean form of some line. |
| Lines.NonEmptyCleanLinesComplete | app.py:100 | Every line whose clean form is non-empty contributes it. |
| Lines.NonEmptyCleanLinesAppend | app.py:100 | The filter distributes over concatenation, so items keep document order. |
| Lines.LineItemsExact | app.py:100 | The items of a block are exactly the non-empty clean forms of its `splitlines()` lines, and each has no marker and no leading whitespace. |
| Text.SplitLines | app.py:100 | `splitlines()` yields lines with no line-break character, and no lines for the empty string. |
| Text.SplitLinesTerminated | app.py:100 | When the newline is the only line break in a text, its lines, each followed by a newline, give back the text. One final newline is added when the text did not end with one. So the lines are exactly the text between consecutive newlines. |
| Text.SplitLinesKeeps | app.py:100 | For every text, the lines of `splitlines()`, put back together, are the text with its line-break characters (`Text.LineBreaks`) deleted. So the lines take nothing from the text but its line breaks, and keep their order. |
| Lines.KeyStrengths | app.py:97-101 | The key-strengths list is produced exactly when the case-sensitive `**Key Strengths:**` occurs in the block. |
| Lines.KeyStrengthsFirst | app.py:97-101 | When the label first occurs at `k`, the key strengths are exactly the items of everything after that occurrence, to the end of the block. |
| Lines.PriorityAt | app.py:94 | A numbered-item match at `i` starts with a digit and ends just after a newline. Its group is the text right before that newline and holds no newline. |
| Lines.PriorityGroup | app.py:94 | After the dot, the match ends after a newline, and the group is the newline-free text just before it. |
| Lines.PriorityGroupLine | app.py:94 | After the dot, the whitespace runs to `w`, and a newline follows at `n` with none in between. The match then ends after that newline, and its group is the text from `w` to it. |
| Lines.PriorityGroupBlank | app.py:94 | When no newline follows the whitespace run after the dot, there is a match exactly when the run holds a newline. `\s*` then gives back characters down to a newline inside the run. The group is empty, and no newline comes after the match. |
| Lines.PriorityItem | app.py:94 | A numbered line `<digit>. g` with its newline is the first match from its start, with group `g`. The search resumes after the newline. |
| Lines.TwoPriorities | app.py:94-96 | `1. g1` and `2. g2`, each on its own line, give the priorities `[g1, g2]` in order. |
| Lines.PrioritiesSample | app.py:94-96 | `"1. Reduce sodium\n2. Monitor glucose\n"` gives `["Reduce sodium", "Monitor glucose"]`. |
| Lines.PriorityMatches | app.py:94 | Every captured priority group lies on one line. Which group a numbered line gives is stated by `PriorityGroupLine`, `PriorityGroupBlank` and `PriorityItem`. |
| Lines.NoNewlineNoPriorities | app.py:94 | Without a newline after the start there is no numbered item, because each one needs a newline. |
| Report.ExecutiveBlock | app.py:91-101 | The executive-summary block, written as the source writes it, computes the executive-summary field. |
| Bold.BoldAt | app.py:72 | A bold match at `i` opens with `**` and closes at the first `**` after it. Its text stops at the first `**`, `###` or `$`. Without a closing `**` there is no match. |
| Bold.BoldMatchesSound | app.py:72-73 | Every pair `finditer` yields is the label and text of the match at some position. |
| Bold.BoldMatchesFirst | app.py:72-73 | The first pair is that of the leftmost match, and the search resumes where that match ends. |
| Bold.BoldMatchesNone | app.py:72-73 | Without a match from a position on, `finditer` yields nothing more. |
| Bold.BoldKey | app.py:74 | The key has no colon at either end. It is empty exactly when the stripped label is made of colons only. |
| Bold.BoldValueOneLine | app.py:75-76 | The value has no newline and no whitespace at either end, and every whitespace character in it is a single space. |
| Bold.Keyed | app.py:77 | Only entries with a non-empty key are assigned, and each of them comes from the matches. |
| Bold.ParseBoldEntities | app.py:69-79 | The `finditer` loop, with its `if key:` test, builds exactly the specified dict. |
| Bold.BoldEntitiesShape | app.py:69-79 | Every bold-entity key is non-empty, with no colon at either end, and the keys are distinct. Every value is on one line, trimmed and singly spaced. |
| Bold.KeyedEntries | app.py:73-78 | The dict has distinct keys, and each entry is one of the matches with a non-empty key. |
| Bold.KeyedLastWins | app.py:73-78 | The last match with a given non-empty key decides its value. |
| Bold.KeyedAbsent | app.py:77-78 | A key that no match yields is absent. |
| Bold.KeyedDecides | app.py:73-78 | The last match with key `k` gives `k`'s value, and a key without any match is absent. |
| Bold.BoldEntitiesLastWins | app.py:69-79 | In a section's dict, a repeated key keeps the later value, and a key no match yields is absent. |
| BoldFacts.CloseAt | app.py:72 | Without a `*` or `#` before it, the next `**` is the closing one. |
| BoldFacts.TextStopsAt | app.py:72 | Text without `*` or `#` runs to the next `**`, or to the end of the block. |
| BoldFacts.EntityMatchAt | app.py:72-73 | A well-formed `**label**text` at `i` is the next match, and `finditer` resumes where its text ends. |
| BoldFacts.LastEntity | app.py:72-73 | A well-formed last entity is the only match from its position. |
| BoldFacts.BoldTwoMatches | app.py:72-73 | Two adjacent well-formed entities give exactly their two (label, text) matches. |
| BoldFacts.BoldKeyColon | app.py:74 | The key of `**w:**` is `w`. |
| BoldFacts.BoldKeySpaceKept | app.py:74 | The key of `**w :**` is `w` followed by a space. The whitespace strip runs before the colon strip. |
| BoldFacts.BoldValueSpaced | app.py:75-76 | The text after `**w:**` loses its leading space, and is otherwise kept when it is already on one line. |
| BoldFacts.BoldTwoEntities | app.py:69-79 | Two adjacent entities give an ordered dict of both when their labels differ, and of the later text under the shared label when they are the same. |
| BoldFacts.NutritionLifestyle | app.py:69-79 | `**Nutrition:** Eat more fiber.**Lifestyle:** Walk daily.` maps to `{"Nutrition": "Eat more fiber.", "Lifestyle": "Walk daily."}`. |
| Ranges.RangeColon | app.py:126 | A range match starts with `-`, and its colon is the first colon after the dash. |
| Ranges.RangeTailMeaning | app.py:126 | The range group is missing exactly when nothing but newlines follows the colon. Otherwise the match ends at the end of a line. The group is the text from the first non-whitespace character after the colon to that end, and it strips to the stripped text between colon and end, with no newline. |
| Ranges.RangeAtMeaning | app.py:126-128 | A match at `i` has a dash at `i` and the first colon after it at some `c`. The name strips to the stripped text between them. The match ends at the end of a line (a newline or the end of the block). The range is, as `TailAt` says, the text from the first non-whitespace character after the colon up to that end. It strips to the stripped text from `c` to the end, which holds no newline. |
| Ranges.RangeAtNone | app.py:126 | There is no match at `i` exactly when one of these holds: `i` holds no dash; a colon follows the dash at once; no colon follows the dash; or only newlines follow the first colon after it. |
| Ranges.RangeMatchesSound | app.py:126 | Every pair `findall` returns is the name and range of the match at some position. |
| Ranges.RangeMatchesFirst | app.py:126 | The first pair is that of the leftmost match, and the search resumes where that match ends. |
| Ranges.RangeMatchesNone | app.py:126 | Without a match from a position on, `findall` returns no more pairs. |
| Ranges.RangeMatchesOneLine | app.py:126-128 | Every matched range strips to text with no newline. |
| Report.ParseNormalRanges | app.py:125-128 | The assignment loop over the matches builds exactly the specified dict. |
| Report.NormalRangesBlock | app.py:123-128 | The normal-ranges block, written as the source writes it, computes the normal-ranges field. |
| Report.RangesLastWins | app.py:126-128 | The last match with stripped name `k` decides the range under `k`, so a later match overwrites an earlier one. A name no match yields is absent. |
| Report.PairsDecide | app.py:126-128 | The last-wins and absent rule, over any sequence of matches. |
| Report.RangesOneLine | app.py:126-128 | The ranges dict has distinct keys, and no range holds a newline. |
| Table.CellGroup | app.py:135 | A cell group is a non-empty run of non-pipe characters. |
| Table.CellGroupStrip | app.py:135-142 | A cell group strips to the stripped text of its cell, from the previous pipe to its own. |
| Table.CellsMeaning | app.py:135 | `n` cells match exactly when the next `n` pipes each close a non-empty cell. Each group is then that cell's group, and the match ends right after the last pipe. |
| Table.RowAtMeaning | app.py:135 | A row matches at `i` exactly when `i` holds a pipe and the next five pipes each close a non-empty cell. Its five groups are those cells' groups, and the match ends right after the fifth pipe. |
| Table.RowMatchesSound | app.py:135-136 | Every row `findall` returns is the five groups of the match at some position. |
| Table.RowMatchesFirst | app.py:135-136 | The first row is the leftmost match, and the search resumes where that match ends. |
| Table.RowMatchesNone | app.py:135-136 | Without a match from a position on, `findall` returns no more rows. |
| Table.KeepRule | app.py:144-156 | The all-empty rule only skips rows the separator rule would skip. A row passes both exactly when one of its cells holds an ASCII letter or digit. |
| Table.KeptRows | app.py:136-165 | There are never more rows than matches. |
| Table.KeptRowsSound | app.py:144-165 | Every appended row holds an ASCII letter or digit, and it is the row of one of the matches. |
| Table.KeptRowsComplete | app.py:144-165 | Every match with an ASCII letter or digit in a cell is appended. |
| Table.KeptRowsAppend | app.py:136-165 | The appended rows keep the order of their matches. |
| Report.ParseTable | app.py:133-165 | The table loop, with both `continue`s, appends exactly the specified rows. |
| Report.TableBlock | app.py:131-165 | The table block, written as the source writes it, computes the biomarker-table field. |
| Report.BoldBlock | app.py:104-113 | The system-analysis and action-plan blocks give the bold-entity dict of the found section, or the empty default. |
| Report.AlertsBlock | app.py:116-120 | The alerts block, written as the source writes it, computes the alerts field. |
| Report.ParseMedicalReport | app.py:61-167 | Starting `data` at its defaults and filling it block by block yields exactly the specified record. |
| Report.ParseWellFormed | app.py:61-167 | In every parsed record: the three dicts have distinct keys; bold-entity keys are non-empty and their values on one line; no range holds a newline; alerts and key strengths are non-empty cleaned lines; priorities are cleaned lines; every row holds an ASCII letter or digit. |
| Report.BoldFieldShape | app.py:104-113 | A bold-entity field has distinct non-empty keys and one-line values. |
| Report.RangesFieldShape | app.py:123-128 | The normal-ranges field has distinct keys and one-line ranges. |
| Report.AlertsFieldShape | app.py:116-120 | Each alert is a non-empty cleaned line. |
| Report.ExecutiveFieldShape | app.py:91-101 | Each key strength is a non-empty cleaned line, and each priority is a cleaned line. |
| Report.TableFieldShape | app.py:131-165 | Each table row holds an ASCII letter or digit. |
| Report.LineItemsCleaned | app.py:100 | Each line item has no marker, does not start with whitespace, and is non-empty. |
| Pipeline.ToValue | app.py:81-88 | The parsed record as a dict has the six field names in order, with dicts and lists where `data` has them. |
| Pipeline.CleanedFields | app.py:55-56 | Cleaning a dict keyed by the six field names keeps the names in order and cleans each field in place. |
| Pipeline.ProcessFields | app.py:265-269 | The endpoint's result always has the six fields in order: dicts for the summary, the two bold maps and the ranges, and lists for the alerts and the table. |
| Pipeline.ProcessNormalized | app.py:265-269 | The endpoint's result is in the normal form of `clean_json`, so cleaning it again changes nothing. |

## Left out

- The FastAPI application and the `/predict` endpoint (app.py:171-275), including the `HTTPException` wrapping. Only the pure composition at app.py:265-269 is modelled, in `Pipeline`.
- The Gemini client, `generate_content` and the empty-response check (app.py:259-263). These are network calls. The reply text is a parameter of `Pipeline.Process`.
- Loading the environment and credentials (app.py:13-23).
- The pydantic request schema (app.py:27-42).
- The prompt template (app.py:176-256). This is string formatting only.
- Floating-point values. `Value` holds integers, booleans, null, strings, lists and dicts. `clean_json` passes every non-string, non-container value through unchanged, whatever its type.
- Unicode case folding under `re.I`. Header names are compared after ASCII lower-casing only. A header spelled with a character that Python folds to an ASCII letter (the Kelvin sign, the long s) is not recognised by the model.
- Unicode digits for `\d`. Only `0`-`9` start a numbered item in the model.
- Text.SplitLines: where each line starts and ends in the text is stated only for text whose sole line break is `\n` (`SplitLinesTerminated`). For other text, the model states that the lines contain no line break and that together they are the text without its line breaks (`SplitLinesKeeps`). No lemma says how `\r\n` and the other breaks divide the lines.
- PriorityMatches: its own contract says only that every group lies on one line. The groups a numbered line yields are given by `PriorityGroupLine`, `PriorityGroupBlank` and `PriorityItem`, and a two-line sample by `TwoPriorities`. No lemma states the whole `findall` for an arbitrary block.
- Bold.BoldEntitiesShape states that keys have no colon at either end, not that they have no whitespace at either end. The source strips whitespace before it strips colons, so whitespace inside the colons stays (`BoldFacts.BoldKeySpaceKept`).
- Recursion depth. Python's recursion limit on deeply nested values is not modelled.
- The in-place mutation of the nested `data` dict is modelled as record updates of an immutable `Parsed` value in `Report.ParseMedicalReport`. The order of the updates is the source's.
