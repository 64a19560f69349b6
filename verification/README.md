# Pythagorean numerology desktop app — a Dafny model of its core

The application is an Electron desktop app that computes a Pythagorean
numerology chart. It takes a full name and a birth date and produces a
nine-cell grid. A language-model service can then interpret a single cell or
the whole chart. This project models the deterministic core of the app:

- **Numerology** (`numerology.dfy`): the core of the main page.
  - Letters map to digits through an abstract letter table. Characters the table does not map are dropped.
  - The birth date is written as `ddMMyyyy` and its zeros are dropped.
  - The name is split on single spaces into last, middle and first name.
  - The nine-cell grid collects `(value, source)` instances in a fixed source order.
- **MainPage** (`main_page.dfy`): the page's state as a record. The calculate, clear, cell-click, general-interpretation and open/close actions are modelled as record-to-record functions.
- **Interpretation** (`interpretation.dfy`): the interpretation dialog.
  - It builds the Vietnamese cell prompt and the general prompt.
  - It normalises the outcome into the displayed text, using two fixed fallbacks.
  - It tracks the loading and interpretation state.
- **PromptTemplate** (`prompt_template.dfy`): the `PROMPT` template catalog and the preload bridge's `send_message`.
  - `send_message` is a left fold over the value entries. Each step replaces every `{key}` with its value.
  - The `codingRuleName` entry is never substituted. It is forwarded beside the prompt.
  - `chat` is also modelled here.
- **UpdateStatus** (`updater.dfy`): the title bar's update indicator. It covers the pushed `updater:status` events, the result of the periodic check and the manual check button, plus histories of these inputs.
- **Settings** (`settings.dfy`): the settings dialog's label formatters for themes, font families and button variants, and its dark-mode switch.
- **Text** and **Wrappers** are the shared helpers:
  - decimal rendering and reading back;
  - zero padding;
  - `join`, `split` and `trim`;
  - occurrence and match predicates;
  - `Option`.

## Model

| member | source | states |
|---|---|---|
| Numerology.ConvertToNumber | src/renderer/pages/main/MainPage.tsx:52-58 | the result has at most one digit per character of the upper-cased text, and every entry is a non-zero value of the letter table |
| Numerology.ConvertOneChar | src/renderer/pages/main/MainPage.tsx:52-58 | one character contributes the table values of the mapped characters of its upper-case form; when that form is one character, its value if the table maps it and nothing otherwise |
| Numerology.ConvertAppend | src/renderer/pages/main/MainPage.tsx:52-58 | conversion is character by character: converting `s + t` is converting `s`, then `t`, so the output is the values of the mapped characters in input order |
| Numerology.ConvertLengthBound | src/renderer/pages/main/MainPage.tsx:52-58 | when every character upper-cases to a single character, there are no more digits than characters in the text |
| Numerology.ConvertCaseInsensitive | src/renderer/pages/main/MainPage.tsx:52-58 | two texts whose characters upper-case alike convert to the same digits |
| Numerology.ConvertIgnoresCase | src/renderer/pages/main/MainPage.tsx:52-58 | for an idempotent upper-casing, converting the upper-cased text is converting the text |
| Numerology.LetterNumberPairs | src/renderer/pages/main/MainPage.tsx:60-66 | every pair holds a mapped upper-case letter and that letter's table value |
| Numerology.PairsProjectToDigits | src/renderer/pages/main/MainPage.tsx:60-66 | there are as many letter pairs as converted digits, and their numbers are exactly the converted digits |
| Numerology.CompactDateRoundTrip | src/renderer/pages/main/MainPage.tsx:69 | the `ddMMyyyy` text of a valid date is all digits, and the day, month and year read back from positions 0-2, 2-4 and 4 onwards |
| Numerology.BirthDateDigits | src/renderer/pages/main/MainPage.tsx:68-74 | every birth-date digit lies in 1..9 and there are no more of them than characters in the date text |
| Numerology.BirthDateDigitsSpec | src/renderer/pages/main/MainPage.tsx:68-74 | each digit 1..9 occurs among the birth-date digits as often as its character occurs in `ddMMyyyy`; the length is the text length minus its zeros, at most 8 for a four-digit year |
| Numerology.BirthDateExample | src/renderer/pages/main/MainPage.tsx:68-74 | 5 January 1990 gives `[5, 1, 1, 9, 9]` |
| Numerology.NameParts | src/renderer/pages/main/MainPage.tsx:79-82 | every name part is non-empty and holds no space |
| Numerology.EmptyNameHasNoParts | src/renderer/pages/main/MainPage.tsx:79-82 | a name that trims to nothing has no parts |
| Numerology.NamePartsSingle | src/renderer/pages/main/MainPage.tsx:79-82 | a name whose trimmed text holds no space is one part, the trimmed text itself, even when it holds tabs or other whitespace |
| Numerology.NamePartsAppend | src/renderer/pages/main/MainPage.tsx:79-82 | a space between two trimmed names separates them: the parts of the whole are the parts of the left name followed by those of the right, with no empty parts from repeated spaces |
| Numerology.NamePartsTwo | src/renderer/pages/main/MainPage.tsx:79-83 | two space-free words without whitespace at their ends, joined by one space, are exactly the two parts |
| Numerology.Segments | src/renderer/pages/main/MainPage.tsx:85-87 | the last name is the first part and the first name is the final part; last, middle and first name, joined by spaces, give back the parts joined by spaces; with two parts the middle name is empty |
| Numerology.DataOf | src/renderer/pages/main/MainPage.tsx:85-102 | the first part converts to the last name and the last part to the first name; the middle parts, joined by a space, convert to the middle name, which is empty for two parts; the birth date gives the birth-date digits; each letter breakdown is the pairs of its part and projects onto that part's digits |
| Numerology.Calculate | src/renderer/pages/main/MainPage.tsx:76-140 | a result exists exactly when there is a date and at least two name parts; its data is the data of the name parts and the date, and its grid is the grid of that data |
| Numerology.Cell | src/renderer/pages/main/MainPage.tsx:112-134 | cell v is numbered v, every instance in it has value v, and it holds one instance per occurrence of v in the last-name, middle-name, first-name and birth-date digits |
| Numerology.BuildGrid | src/renderer/pages/main/MainPage.tsx:105-137 | the grid has exactly nine cells, numbered 1..9 in ascending order; cell k is `Cell(d, k)`, so it holds exactly the instances of value k, in source order; every instance of cell k has value k |
| Numerology.CellSourceOrder | src/renderer/pages/main/MainPage.tsx:112-134 | within a cell, instances come in the order last name, middle name, first name, birth date |
| Numerology.CellSourceCount | src/renderer/pages/main/MainPage.tsx:112-134 | the instances of cell v from source s number exactly the occurrences of v in s's digits |
| Numerology.GridTotal | src/renderer/pages/main/MainPage.tsx:105-137 | the grid holds as many instances as the four digit sequences have elements in 1..9 |
| Numerology.SlashedDateRoundTrip | src/renderer/pages/main/MainPage.tsx:181 | the `dd/MM/yyyy` text of a valid date has the day, month and year readable at offsets 0, 3 and 6 |
| MainPage.CalculatePage | src/renderer/pages/main/MainPage.tsx:76-140 | without a date or with fewer than two name parts the page is unchanged; otherwise the data and a nine-cell grid built from it replace the old ones; nothing else changes |
| MainPage.BlankNameChangesNothing | src/renderer/pages/main/MainPage.tsx:77 | a name that trims to nothing leaves the page unchanged, whatever the date |
| MainPage.CalculateIdempotent | src/renderer/pages/main/MainPage.tsx:76-140 | calculating twice gives the same page as calculating once |
| MainPage.Reset | src/renderer/pages/main/MainPage.tsx:160-165 | name, date, data and grid are cleared, and the dialog state is kept |
| MainPage.ResetDisablesActions | src/renderer/pages/main/MainPage.tsx:160-177 | after a reset, neither calculating nor the general interpretation button changes the page |
| MainPage.ClickCell | src/renderer/pages/main/MainPage.tsx:167-174 | a cell without instances opens nothing; any other cell opens the cell dialog on that cell with its title; form and chart are untouched |
| MainPage.CellTitleNamesNumber | src/renderer/pages/main/MainPage.tsx:170 | the cell number reads back from the dialog title after its prefix |
| MainPage.ClickOpensIffNonEmpty | src/renderer/pages/main/MainPage.tsx:167-174 | from a closed dialog, a click opens it exactly when the cell has instances, and the title names the cell |
| MainPage.OpenGeneral | src/renderer/pages/main/MainPage.tsx:176-189 | without data or a date nothing opens; otherwise the general dialog opens on the current name, the `dd/MM/yyyy` date and the current grid |
| MainPage.GeneralDialogCarriesDate | src/renderer/pages/main/MainPage.tsx:176-189 | the general dialog's date text gives back the chosen day, month and year |
| MainPage.ChangeOpen | src/renderer/pages/main/MainPage.tsx:375 | the page records the dialog's open state; closing clears the interpretation, opening keeps it, and loading is untouched |
| MainPage.CloseShowsStart | src/renderer/components/dialogs/NumerologyInterpretationDialog.tsx:90-106 | closing a dialog with nothing outstanding brings back the start button, including for the next cell opened |
| Interpretation.SourceLabel | src/renderer/components/dialogs/NumerologyInterpretationDialog.tsx:27-38 | every source label is non-empty and comma-free |
| Interpretation.LabelNamesSource | src/renderer/components/dialogs/NumerologyInterpretationDialog.tsx:27-38 | distinct sources have distinct labels: each label maps back to its source |
| Interpretation.SourceList | src/renderer/components/dialogs/NumerologyInterpretationDialog.tsx:25-40 | splitting the source list at its commas recovers one label per instance, in instance order with duplicates kept, each naming that instance's source; no instances give the empty list |
| Interpretation.SourceListCommas | src/renderer/components/dialogs/NumerologyInterpretationDialog.tsx:40 | the source list has one comma fewer than there are instances, every comma is followed by a space, and the list is empty when there are none |
| Interpretation.JoinCommasSpaced | src/renderer/components/dialogs/NumerologyInterpretationDialog.tsx:40 | in a `", "`-join of comma-free items every comma is followed by a space |
| Interpretation.ReadListJoin | src/renderer/components/dialogs/NumerologyInterpretationDialog.tsx:40-53 | splitting a `", "`-join of comma-free items at its commas and dropping the space after each comma gives the items back |
| Interpretation.CellPrompt | src/renderer/components/dialogs/NumerologyInterpretationDialog.tsx:42-50 | the cell number and the instance count read back from the places where the prompt first writes them |
| Interpretation.CellLayoutReadsBack | src/renderer/components/dialogs/NumerologyInterpretationDialog.tsx:42-50 | in the cell prompt's layout the number and the count read back, and the source list stands verbatim after the count |
| Interpretation.GridEntryReadsBack | src/renderer/components/dialogs/NumerologyInterpretationDialog.tsx:53 | an entry `Số n: k lần` gives back the cell number and its instance count |
| Interpretation.GridSummary | src/renderer/components/dialogs/NumerologyInterpretationDialog.tsx:53 | the summary splits into one entry per cell, in grid order, each giving back that cell's number and instance count; an empty grid gives the empty summary |
| Interpretation.GridSummaryCommas | src/renderer/components/dialogs/NumerologyInterpretationDialog.tsx:53 | every comma of the summary is followed by a space, so the entries are separated by `", "` |
| Interpretation.GeneralPromptEmbeds | src/renderer/components/dialogs/NumerologyInterpretationDialog.tsx:55-67 | the name, the birth date and the grid summary stand verbatim at fixed offsets of the general prompt |
| Interpretation.Prompt | src/renderer/components/dialogs/NumerologyInterpretationDialog.tsx:22-68 | for cell data the prompt gives back the cell's number after the fixed opening text |
| Interpretation.Request | src/renderer/components/dialogs/NumerologyInterpretationDialog.tsx:73-79 | the request sent carries exactly the generated prompt, with no pass-through value beside it |
| Interpretation.RequestAsWrittenCarriesPrompt | src/renderer/components/dialogs/NumerologyInterpretationDialog.tsx:73-79 | as the bridge is written, the request carries the prompt with its `$` patterns expanded against `{prompt}`; a prompt without `$` is carried unchanged |
| Interpretation.Displayed | src/renderer/components/dialogs/NumerologyInterpretationDialog.tsx:81-84 | the displayed text is never empty |
| Interpretation.DisplayedCases | src/renderer/components/dialogs/NumerologyInterpretationDialog.tsx:81-84 | a reply is shown unchanged exactly when it is non-empty; an empty reply shows the no-connection message; a failure shows the distinct error message and never the error |
| Interpretation.Begin | src/renderer/components/dialogs/NumerologyInterpretationDialog.tsx:70-173 | a request goes out exactly when an enabled button sends one: the start button with nothing shown, or the re-interpret button beside shown text while nothing is outstanding; loading then turns on, the shown text stays, and the request is `Request(d)`, which carries the dialog's prompt substituted literally; otherwise nothing changes |
| Interpretation.RequestOnlyWhenIdle | src/renderer/components/dialogs/NumerologyInterpretationDialog.tsx:106-173 | some button sends a request exactly when none is outstanding, whatever is shown, so a second request never goes out before the first settles |
| Interpretation.ReinterpretKeepsText | src/renderer/components/dialogs/NumerologyInterpretationDialog.tsx:70-173 | re-interpreting shown text keeps it on screen while loading, and the outcome's text then replaces it |
| Interpretation.Settle | src/renderer/components/dialogs/NumerologyInterpretationDialog.tsx:81-87 | after either outcome the outcome's display text is shown, loading is off, the start button is hidden and the re-interpret button is shown |
| Interpretation.OpenChange | src/renderer/components/dialogs/NumerologyInterpretationDialog.tsx:90-95 | closing clears the interpretation; opening keeps the state; loading is untouched |
| Interpretation.RoundTrip | src/renderer/components/dialogs/NumerologyInterpretationDialog.tsx:70-95 | one round from the idle dialog: loading while outstanding, the normalised text afterwards, and closing returns to idle |
| PromptCatalog.ProseOpensNoPlaceholder | src/main/constants.ts:30-73 | no opening brace occurs in any prose piece of the code-review and commit templates, so their holes are their only placeholders |
| PromptTemplate.Template | src/main/constants.ts:30-76 | every hole of a catalog entry occurs in its text as `{key}`, and the interpretation entry is exactly `{prompt}` |
| PromptTemplate.CheckViolationsPlaceholders | src/main/constants.ts:31-57 | the violation-check template uses `coding_rules`, `diff_content` and `language`, in that order |
| PromptTemplate.GenerateCommitPlaceholders | src/main/constants.ts:59-73 | the commit template uses `diff_content`, `deletedFiles` and `language`, in that order |
| PromptTemplate.CatalogHasNoPassThroughPlaceholder | src/main/constants.ts:30-76 | no template of the three has a `codingRuleName` placeholder |
| PromptTemplate.HolesOccur | src/main/constants.ts:30-76 | every placeholder of a template's segments occurs in its rendered text |
| PromptTemplate.CatalogWellFormed | src/main/constants.ts:30-76 | every catalog template is literal text without an opening brace between holes with brace-free keys |
| PromptTemplate.ReplaceAllAbsent | src/preload/index.ts:85 | replacing a pattern that does not occur leaves the text unchanged |
| PromptTemplate.ReplaceOccurrence | src/preload/index.ts:85 | the first occurrence of the pattern is replaced, the text before it is kept, and the scan goes on over the rest |
| PromptTemplate.ReplaceJoin | src/preload/index.ts:85 | every occurrence is replaced: pieces joined by the pattern, none holding its first character, become the same pieces joined by the replacement |
| PromptTemplate.ReplaceBySelf | src/preload/index.ts:85 | replacing a pattern by itself leaves the text unchanged |
| PromptTemplate.ReplaceWhole | src/preload/index.ts:85 | replacing the whole text by a value gives the value |
| PromptTemplate.PlaceholderSurvives | src/preload/index.ts:85 | replacing one placeholder never destroys an occurrence of another |
| PromptTemplate.ReplaceFillsKey | src/preload/index.ts:85 | on a well-formed template, replacing `{k}` by v fills exactly the holes with key k, in every place, and nothing else |
| PromptTemplate.AsWrittenAgreesWithoutDollar | src/preload/index.ts:85 | `replaceAll` with a string replacement equals literal replacement when the value has no `$` |
| PromptTemplate.Resolve | src/preload/index.ts:83-88 | when no substituted key's placeholder occurs in the template, the template comes back unchanged; with no entries in particular |
| PromptTemplate.ResolveReplacesEvery | src/preload/index.ts:83-88 | a template of brace-free pieces joined by `{key}` resolves to the pieces joined by the value: every occurrence is filled |
| PromptTemplate.ResolveTwiceExample | src/preload/index.ts:83-88 | `{a}-{a}` with `a → x` resolves to `x-x` |
| PromptTemplate.ResolveFills | src/preload/index.ts:83-88 | on a well-formed template with brace-free keys and values, the fold fills every hole with the first value of its key and leaves holes without a value, and the pass-through key's holes, as placeholders |
| PromptTemplate.ResolveAsWritten | src/preload/index.ts:83-88 | the fold as written and the literal fold agree when no value contains `$` |
| PromptTemplate.DollarValueCounterexample | src/preload/index.ts:85 | as written, the value `$&` on `{prompt}` yields `{prompt}`; literal substitution yields `$&` |
| PromptTemplate.PassThroughNeverSubstituted | src/preload/index.ts:84-87 | the prompt is the same with or without the `codingRuleName` entries, so a `{codingRuleName}` placeholder is never rewritten |
| PromptTemplate.UnsuppliedPlaceholderStays | src/preload/index.ts:83-88 | a placeholder whose key no entry substitutes survives the fold |
| PromptTemplate.LaterKeyRewritesInsertedText | src/preload/index.ts:83-88 | the fold is sequential: `{a}` with `a → {b}` then `b → x` resolves to `x` |
| PromptTemplate.Lookup | src/preload/index.ts:92 | there is no value exactly when no entry has the key; a value found is the value of the first entry with that key |
| PromptTemplate.Send | src/preload/index.ts:80-94 | the `codingRuleName` value travels beside the prompt exactly when an entry supplies it, and it is the value of the first such entry; the prompt is the fold without it |
| PromptTemplate.SendMessage | src/preload/index.ts:80-94 | the pass-through value is the first `codingRuleName` entry's; with brace-free keys and values the prompt is the catalog template with its holes filled |
| PromptTemplate.NumerologyPromptPassesThrough | src/preload/index.ts:80-94 | sending the numerology template with `prompt = p` sends exactly `p`, with nothing beside it |
| PromptTemplate.NumerologyPromptAsWritten | src/preload/index.ts:80-94 | as written, sending the numerology template with `prompt = p` sends `p` with its `$` patterns expanded, and `p` itself when it holds no `$` |
| PromptTemplate.Chat | src/preload/index.ts:95-97 | chat forwards its prompt unchanged, with no pass-through value |
| UpdateStatus.OnStatus | src/renderer/pages/main/TitleBar.tsx:31-47 | the status is the event's; the icon shows exactly on `downloaded`; `available` and `downloaded` set both versions, other statuses keep them; notes change only on `downloaded`; the dialog flags are untouched |
| UpdateStatus.OnStatusIdempotent | src/renderer/pages/main/TitleBar.tsx:31-47 | receiving the same event twice is receiving it once |
| UpdateStatus.OnPoll | src/renderer/pages/main/TitleBar.tsx:55-67 | a failed check changes nothing; `available` with a version sets the current version, never the new one; present notes replace the old ones; nothing else changes |
| UpdateStatus.OnPollIdempotent | src/renderer/pages/main/TitleBar.tsx:55-67 | seeing the same check result twice is seeing it once |
| UpdateStatus.PollOverwritesCurrentVersion | src/renderer/pages/main/TitleBar.tsx:39-60 | after a download of v is announced, a check that finds v makes the current and the new version both read `v` + v |
| UpdateStatus.CheckForUpdates | src/renderer/pages/main/TitleBar.tsx:82-89 | on `downloaded` the update dialog opens as manually opened; otherwise the state is unchanged and the up-to-date notice is shown |
| UpdateStatus.Step | src/renderer/pages/main/TitleBar.tsx:31-89 | a pushed event sets the status and shows the icon exactly on `downloaded`; a check or a button press keeps the status, the icon and the new version |
| UpdateStatus.Run | src/renderer/pages/main/TitleBar.tsx:31-89 | a history with no pushed event keeps the status, the icon and the new version |
| UpdateStatus.RunTracksLastEvent | src/renderer/pages/main/TitleBar.tsx:31-89 | over any history, the status is the latest pushed event's, and the icon shows exactly when that event was `downloaded` |
| Settings.ThemeLabel | src/renderer/components/dialogs/SettingsDialog.tsx:145-148 | the label has no hyphen; it is six characters shorter when prefixed and as long otherwise; every character after the first is the name's, with hyphens turned into spaces; the first is the name's first, hyphen turned into a space, then upper-cased unless it is a line terminator |
| Settings.ThemeLabelIdempotent | src/renderer/components/dialogs/SettingsDialog.tsx:145-148 | formatting a theme label again changes nothing |
| Settings.UpperFirstMatch | src/renderer/components/dialogs/SettingsDialog.tsx:148 | only the first character is upper-cased, and a leading line terminator is left alone |
| Settings.FontLabel | src/renderer/components/dialogs/SettingsDialog.tsx:175 | the label keeps the length, upper-cases the first character and turns every later hyphen into a space |
| Settings.ThemeAndFontLabelsAgree | src/renderer/components/dialogs/SettingsDialog.tsx:145-175 | for an unprefixed name starting with neither a hyphen nor a line terminator, the theme and font formatters agree |
| Settings.ButtonLabel | src/renderer/components/dialogs/SettingsDialog.tsx:224 | the label upper-cases the first character and keeps the rest |
| Settings.FontAndButtonLabelsAgree | src/renderer/components/dialogs/SettingsDialog.tsx:175-224 | for a hyphen-free name, the font and button formatters agree |
| Settings.ToggleDark | src/renderer/components/dialogs/SettingsDialog.tsx:57-69 | exactly one of `dark` and `light` is set, matching the switch; the stored mode is `dark` exactly when checked; other classes are kept |
| Settings.ToggleLastWins | src/renderer/components/dialogs/SettingsDialog.tsx:57-69 | of two toggles, only the last one counts |
| Settings.SyncOnOpen | src/renderer/components/dialogs/SettingsDialog.tsx:40-45 | opening the dialog sets the switch exactly when the stored mode is `dark` |
| Settings.ReopenKeepsToggle | src/renderer/components/dialogs/SettingsDialog.tsx:40-69 | after a toggle, reopening the dialog shows the switch as it was left |
| Text.Split | src/renderer/pages/main/MainPage.tsx:81 | there is at least one piece and no piece holds the separator |
| Text.JoinSplit | src/renderer/pages/main/MainPage.tsx:81 | joining the pieces with the separator gives the text back |
| Text.SplitJoin | src/renderer/pages/main/MainPage.tsx:81 | splitting a join of separator-free pieces gives the pieces back, empty ones included |
| Text.SplitAround | src/renderer/pages/main/MainPage.tsx:81 | a separator splits the text around it into the pieces of each side, in order |
| Text.NonEmpty | src/renderer/pages/main/MainPage.tsx:82 | the kept pieces are non-empty pieces of the input, and every non-empty piece of the input is kept |
| Text.NonEmptyAppend | src/renderer/pages/main/MainPage.tsx:82 | the filter works piece by piece: filtering `xs + ys` is filtering `xs`, then `ys` |
| Text.TrimSpec | src/renderer/pages/main/MainPage.tsx:80 | the trimmed text is a slice of the text, and everything before and after the slice is whitespace |
| Text.TrimEnds | src/renderer/pages/main/MainPage.tsx:77-80 | the trimmed text is empty exactly when the text is all whitespace; otherwise it neither starts nor ends with whitespace |
| Text.TrimUnchanged | src/renderer/pages/main/MainPage.tsx:80 | trimming leaves a text unchanged exactly when it is empty or neither starts nor ends with whitespace |

## Left out

- The letter table `PYTHAGORAS_TABLE` and the `src/renderer/components/shared/constants.ts` that would hold it are not part of this model. The table is a parameter, `Alphabet(digits, upper)`. A character counts as mapped when the table has a non-zero entry for it, which mirrors the truthiness filter. Unicode upper-casing is the parameter's `upper` function, which maps each character to a string, so one character may upper-case to several ('ß' to "SS").
- date-fns `format` and the JS `Date` type are not modelled. A date is a (day, month, year) triple, rendered by zero padding. There are no time zones, and calendar validity beyond the ranges of day, month and year is not checked.
- Strings are sequences of characters. UTF-16 code units, surrogate pairs and normalisation are not modelled.
- Electron IPC, the language-model call and the window actions are left out. The model stops at the message handed to the bridge (`Message`) and at the outcome that comes back (`Outcome`).
- Asynchrony is left out: late or overlapping responses, the five-minute update interval, and listener registration and cleanup. Each handler is modelled as one atomic transition.
- React rendering, markdown, colours and toasts are left out. The manual check's "latest version" toast is the flag that `CheckForUpdates` returns.
- `Object.entries` order is modelled as the order of the entries sequence. Key uniqueness, which a JS record guarantees, is not imposed, and `Lookup` takes the first entry.
- The `default` branch of the source-label switch returns the raw source name. It cannot be reached, because a source is one of the four constructors.
- The dialog's error path when it has no data is left out. There, prompt generation throws inside the handler's `try`, so the error message is shown and loading ends. It cannot be reached, because the page sets the data before it opens the dialog. The dialog's description line is left out too. So are the input fields' change handlers, which are plain field writes.
- The `disabled` attribute on empty cells is covered by `MainPage.ClickCell`: clicking an empty cell has no effect.
- The settings dialog's configuration tab, language switch and persistence are left out. So are the other main-process files, the routes and the configuration store.
- PromptTemplate.ReplaceAll carries no contract of its own; what it replaces is stated by `PromptTemplate.ReplaceAllAbsent`, `PromptTemplate.ReplaceOccurrence` and `PromptTemplate.ReplaceJoin`.
- Interpretation.GeneralPrompt carries no contract of its own; what it holds is stated by `Interpretation.GeneralPromptEmbeds`.
- Text.Trim states only that trimming never lengthens the text; what it keeps is stated by `Text.TrimSpec` and `Text.TrimEnds`.
- Settings.ThemeLabel, Settings.FontLabel, Settings.ButtonLabel and Settings.UpperFirstMatch: upper-casing is ASCII only (`Text.AsciiUpper`), not JavaScript's full Unicode `toUpperCase`.
- Interpretation.CellPrompt: the number and the count read back only for non-negative cell numbers, which are the only ones the grid creates. The source list's place in the cell prompt is stated for the generic layout in `Interpretation.CellLayoutReadsBack`.
- Interpretation.GridSummary: the read-back is stated for non-empty grids of non-negative cell numbers; the grid always has the nine cells 1..9.
- Interpretation.Prompt: only the cell prompt's number is stated here; the general prompt's contents are stated by `Interpretation.GeneralPromptEmbeds`, and the cell prompt's by `Interpretation.CellPrompt`.
- Interpretation.Begin, Interpretation.ReinterpretKeepsText and Interpretation.RoundTrip: the dialog sends `Interpretation.Request`, the request built with literal substitution. The bridge as written expands `$` patterns in the prompt, so a `$&` in the name reaches the model as `{prompt}`; that behaviour is stated by `Interpretation.RequestAsWrittenCarriesPrompt` (see Findings).
- Interpretation.Request: it states the request built with literal substitution. The bridge as written expands `$` patterns in the prompt, which `Interpretation.RequestAsWrittenCarriesPrompt` states (see Findings).
- PromptTemplate.SendMessage: the prompt is tied to the filled template only for entries with brace-free keys and values without an opening brace. For other entries it is the fold stated by `PromptTemplate.Send`, where a value can form a placeholder that a later entry rewrites (`PromptTemplate.LaterKeyRewritesInsertedText`).
- UpdateStatus.Run: its own contract covers histories without pushed events; `UpdateStatus.RunTracksLastEvent` states the status and icon for every history.
- Numerology.BirthDateDigitsSpec: the bound of 8 digits is stated for years up to 9999. Longer years are written out in full, as zero padding does.

## Findings

| source | as written | input that shows it | evidently intended | confidence | as-written member | corrected member |
|---|---|---|---|---|---|---|
| src/preload/index.ts:85 | the value is handed to `replaceAll` as a replacement string, so `$&`, `$$`, `` $` `` and `$'` in the value are expanded as replacement patterns | template `{prompt}` (the numerology template) with values `{prompt: "$&"}` resolves to `{prompt}` instead of `$&` | every `{key}` is replaced by the value literally, whatever characters the value holds | high, not executed | PromptTemplate.ResolveAsWritten (shown by PromptTemplate.DollarValueCounterexample) | PromptTemplate.Resolve (shown by PromptTemplate.NumerologyPromptPassesThrough) |
