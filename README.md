# SuperApp Content: prompt resolution and result rendering in Dafny

This project models the two parts of the SuperApp Content single-page app that hold logic:

- **The page state (App.tsx).** The user picks a methodology and one of its prompts, then fills a form with one text field per placeholder of the prompt. On submit, every `[field]` token of the prompt's template is replaced by the field's value. The resolved prompt goes to a text-generation service. The answer, or an error message, is shown and can be exported as Markdown or JSON.
- **The result renderer (`MarkdownRenderer` in components/ResultDisplay.tsx).** This is a line-oriented Markdown renderer. It produces headings, blockquotes, bullets, spacers, paragraphs and tables, and splits lines on `**` for bold text.

## Modules

| file | module | contents |
|---|---|---|
| `option.dfy` | `Optional` | `Option`, which stands for a JavaScript value that may be `null` |
| `text.dfy` | `JsString` | the JavaScript string operations the code uses, over `seq<char>`: `split`/`join` with a non-empty separator, `trim` (the ECMAScript whitespace set), `startsWith`, `endsWith`, `includes`, and `replace` with a string pattern |
| `template.dfy` | `Template` | the form values as an insertion-ordered list of distinct keys, `ReplaceAll`, the substitution fold `Resolve` and the method `ResolvePrompt`, and a piece-level view of templates used to prove which tokens survive |
| `app.dfy` | `ContentApp` | the `Methodology` and `MethodologyPrompt` records, the class `App` with the component's state fields and handlers, the loading-message ticker, and the export choice |
| `markdown.dfy` | `Markdown` | `FormatText`, the cell filter, line classification, the per-line view `View` (trimmed-line row test, cells, `---` test and classified block), the line loop as a function over views (`Step`, `RenderLines`, `Render`), the class `Renderer` with `FlushTable` and `ProcessLine`, the method `RenderContent`, and the no-loss and ordering theorems |

## How the source maps onto the model

**Form values.** `formValues` is a JavaScript object. `Object.entries` lists its keys in insertion order. `{...prev, [k]: v}` keeps an existing key in place and appends a new key at the end. The model therefore keeps the form as a `seq<(string, string)>` with distinct keys (`Template.SetField`).

**Substitution.** The substitution `finalPrompt.replace(new RegExp('\\[' + key + '\\]', 'g'), val)` is modelled as a literal, non-overlapping, left-to-right replace-all (`Template.ReplaceAll`). This holds when the key has only letters and digits and the value holds no `$`; the precondition `LiteralEntries` states that.

**Submission.** `handleSubmit` is an `async` function. It is split at its `await`:
- `App.BeginSubmit` is the synchronous part before the call.
- `App.FinishSubmit` applies the outcome of `generateContent`.
- `App.HandleSubmit` runs both, with the service passed as a function parameter `generate`.

**Loading message.** The `useEffect` on `loading` sets the first loading message when `loading` turns true. `BeginSubmit` does this, and only when `loading` was false before. The closure counter `i` of the interval is the field `tickerIndex`. One callback is `App.LoadingTick`, and `HandleSubmit` applies the callbacks that fire while the request is awaited. `ContentApp.TickerSchedule` gives the sequence of messages the callbacks show.

**The renderer.** `renderContent` is a loop over `text.split('\n')` with an `elements` array and a `currentTable` buffer.
- It appears twice, as a function and as imperative code. The function is `Markdown.Step` for one line, taken through its `View` (the row test, cells, `---` test and block the body computes from the line), `RenderLines` for a prefix, and `Render` for the whole text. The imperative code is the class `Renderer` and the method `RenderContent`, proved equal to `Render`.
- Each block carries its React key: the index of the line that produced it. A table's key is the index of the line that flushed it, or the number of lines for the final flush.
- A block holds the text that the code passes to `formatText`; its spans are `FormatText` of that text.

**Where a description of the program and its code disagree, the model follows the code:**
- An unmatched trailing `**` makes the rest of the line bold. The last segment has an odd index (`Markdown.UnclosedBoldRunsToEnd`, `Markdown.UnclosedBoldExample`).
- For the table `| A | B |`, `| --- | --- |`, `| 1 | 2 |`:
  - every row has four cells, including the empty cells at both edges;
  - the `| --- | --- |` rule line passes the row test and is buffered as an ordinary data row (`Markdown.PipedTableExample`).
  - A bare `---` line is skipped only while a table is open (`Markdown.RuleLineSkippedExample`).
- "No value contains a `[k]` token, so no `[k]` token remains" does not hold in general, for two independent reasons:
  - the template's shape: `Resolve("[[k]k]", [("k", "")])` is `"[k]"`, because a stray `[` meets the `k]` left after the deletion (`Template.StrayBracketExample`);
  - the values' brackets: `Resolve("[k][j]", [("k", "["), ("j", "k]")])` is `"[k]"`, although the template is made of tokens only and no value holds a field token (`Template.BracketValueExample`).
  - The model proves the property when both conditions hold: a template of bracket-free characters and `[name]` tokens, and values without `[` or `]` (`Template.ResolvedTokens`). Every template of the catalog in constants.ts has the first shape. The second condition is about what the user types, so the app does not guarantee it.

## Model

| member | source | states |
|---|---|---|
| JsString.Split | components/ResultDisplay.tsx:18 | `split` on a non-empty separator yields one more piece than the number of non-overlapping occurrences |
| JsString.SplitLeftmost | components/ResultDisplay.tsx:18 | every cut of `split` is at the leftmost remaining occurrence: no piece, extended by a proper prefix of the separator, holds it, and the last piece holds none; with `JoinSplit` this fixes the pieces (`***` on `**` is `["", "*"]`) |
| JsString.JoinSplit | components/ResultDisplay.tsx:18 | joining the pieces of a split with the same separator restores the string: nothing is lost |
| JsString.SplitAtFirst | components/ResultDisplay.tsx:15 | splitting on a one-character separator cuts at its first occurrence and continues on the rest |
| JsString.SplitWithoutSeparatorStart | components/ResultDisplay.tsx:15 | a string that does not hold the separator's first character splits into itself alone |
| JsString.Contains | components/ResultDisplay.tsx:82 | `includes` only finds a pattern no longer than the string |
| JsString.ContainsOccurs | components/ResultDisplay.tsx:82 | `includes` holds exactly when the pattern occurs at some index of the string |
| JsString.TrimStartShape | components/ResultDisplay.tsx:80 | the start trim removes exactly the longest whitespace prefix |
| JsString.TrimEndShape | components/ResultDisplay.tsx:80 | the end trim removes exactly the longest whitespace suffix |
| JsString.Trim | components/ResultDisplay.tsx:80 | `trim()` is the end trim of the start trim and never lengthens the line; its exact shape is `TrimShape` |
| JsString.TrimShape | components/ResultDisplay.tsx:80 | `trim()` leaves no whitespace at either end, and is empty exactly when the line is all whitespace |
| JsString.RemoveFirst | components/ResultDisplay.tsx:99-115 | `replace(prefix, '')` with a string pattern deletes the first occurrence, if any; its shape is `RemoveFirstShape` |
| JsString.RemoveFirstShape | components/ResultDisplay.tsx:99-115 | `replace(prefix, '')` with a string pattern: with the pattern at the start the rest of the string remains; without an occurrence the string is unchanged; otherwise exactly one occurrence's length is removed |
| Template.SetField | App.tsx:70-72 | `{...prev, [field]: value}` maps `field` to `value`, leaves every other key's value unchanged, and keeps the key order, appending a new key |
| Template.BlankForm | App.tsx:64-67 | the reset form has distinct keys, exactly the prompt's fields, each mapped to `""` |
| Template.BlankFormKeys | App.tsx:65-66 | with distinct field names, the form's key order is the field order |
| Template.InitialValues | App.tsx:65-66 | the `forEach` that builds `initialValues` yields the blank form of the fields |
| Template.ReplaceAll | App.tsx:85 | a global replace leaves a string without the token unchanged |
| Template.ReplaceAllIsSplitJoin | App.tsx:85 | a global replace equals splitting on the token and joining with the value |
| Template.ReplaceAllSkip | App.tsx:85 | a prefix without the token's first character passes through a global replace unchanged |
| Template.Resolve | App.tsx:83-86 | the left fold over the entries in order, each replacing every `[key]` of the text so far by its value; what it leaves is stated by `ResolveUntouched`, `ResolvedTokens` and `UnfilledFieldsVanish` |
| Template.ResolvePrompt | App.tsx:83-86 | the `forEach` over `Object.entries(formValues)` computes the left fold `Resolve` in entry order |
| Template.ResolveUntouched | App.tsx:83-86 | a template holding no token of any form field comes back unchanged |
| Template.ResolvedTokens | App.tsx:83-86 | for a template of plain characters and tokens with bracket-free values, no token of a form field survives, and every token whose name is not a field stays |
| Template.NonFieldTokenSurvives | App.tsx:83-86 | for any template and any values, a `[x]` token whose name is no field is still in the resolved prompt (a corollary of `ResolveAroundOtherToken`) |
| Template.ReplaceAroundOtherToken | App.tsx:85 | one global replace of `[k]` leaves each occurrence of another plain token `[x]` where it stands: the text before it and the text after it are replaced independently, whatever the text and the value |
| Template.ReplaceBeforeBracket | App.tsx:85 | no occurrence of a token pattern runs on into a following `[`, so the text before a `[` is replaced on its own |
| Template.ResolveAroundOtherToken | App.tsx:83-86 | the whole fold leaves each `[x]` whose name is no field where it stands, resolving the text before it and the text after it independently |
| Template.UnfilledFieldsVanish | App.tsx:74-86 | submitting a freshly reset form deletes the tokens of the prompt's fields and keeps the rest of the template |
| Template.SubstAll | App.tsx:83-86 | on a template of pieces, a token survives substituting all entries exactly when it was in the template and its name is no field; with bracket-free values the result is again plain characters and tokens |
| Template.ResolveSingle | App.tsx:83-86 | a prefix without `[` followed by the token of the only field resolves to the prefix followed by the value |
| Template.NichoExample | App.tsx:83-86 | `Gere ideias para [nicho]` with `nicho = moda` resolves to `Gere ideias para moda` |
| Template.FoldOrderExample | App.tsx:83-86 | the fold runs in entry order: a value holding a later field's token is rewritten by that later step |
| Template.StrayBracketExample | App.tsx:83-86 | a stray `[` before a token can rebuild a field token after the deletion |
| Template.BracketValueExample | App.tsx:83-86 | values holding no field token can still rebuild one from their brackets, on a template of tokens only |
| ContentApp.ResultText | App.tsx:89 | `generated \|\| 'Sem resposta.'` is the generated text when non-empty, otherwise the fixed text; never empty |
| ContentApp.ErrorText | App.tsx:95 | the error shown is the message when non-empty, otherwise the fixed fallback; never empty |
| ContentApp.TickerNext | App.tsx:33 | the successor index is `(i + 1) % n`, always a valid index |
| ContentApp.RequestTitle | App.tsx:88 | the context sent is the methodology title, then ` - `, then the prompt label |
| ContentApp.TickerIndex | App.tsx:31-33 | the ticker's index after any number of callbacks stays within the messages |
| ContentApp.Tick | App.tsx:32-34 | one callback `i = (i + 1) % length` moves to the next message, and back to the first after the last, and shows it |
| ContentApp.TickerAfter | App.tsx:31-34 | the counter after `t` more callbacks from any start stays within the messages |
| ContentApp.TickerAfterStart | App.tsx:29-34 | a counter started at 0, as the effect does, is at `TickerIndex(t)` after `t` callbacks |
| ContentApp.TickerSchedule | App.tsx:27-35 | the loop of callbacks shows the first message at once and, after `t` callbacks, the message at `TickerIndex(t)` |
| ContentApp.TickerFirstRound | App.tsx:30-34 | in the first round the index after `t` callbacks is `t` |
| ContentApp.TickerPeriodic | App.tsx:33 | after as many callbacks as there are messages the index is back where it was |
| ContentApp.TickerShowsEveryMessage | App.tsx:30-34 | the first round shows every message, in order |
| ContentApp.TickerRepeats | App.tsx:30-34 | the shown messages repeat with the number of messages as the period |
| ContentApp.App.constructor | App.tsx:19-25 | the initial state: nothing selected, empty form, not loading, no result, no error |
| ContentApp.App.HandleMethodSelect | App.tsx:42-54 | selects the methodology and clears result and error; a methodology without sub-prompts opens its first prompt with a blank form, otherwise no prompt and an empty form |
| ContentApp.App.HandlePromptSelect | App.tsx:61-68 | selects the prompt, resets the form to its fields each mapped to `""`, and clears result and error |
| ContentApp.App.HandleInputChange | App.tsx:70-72 | sets one field, leaves the other fields unchanged, and keeps the form's keys distinct |
| ContentApp.App.BeginSubmit | App.tsx:74-82 | without a methodology and prompt nothing happens; otherwise loading starts (the effect resetting the counter to 0 and showing the first message when loading was off), result and error are cleared, and the resolved prompt and `title - label` are sent |
| ContentApp.App.FinishSubmit | App.tsx:87-98 | a success sets the result, a failure sets the error, and loading ends in both cases |
| ContentApp.App.LoadingTick | App.tsx:32-35 | one interval callback while loading: the counter moves to the next message, cyclically, and that message is shown; nothing else changes |
| ContentApp.App.HandleSubmit | App.tsx:74-99 | after a submission exactly one of result and error is set, to a non-empty text, and loading is over; the selection and the form are unchanged; after `ticks` callbacks during the `await`, a submission that started loading shows message `TickerIndex(ticks)`, and one made while already loading has moved its counter on by `ticks` |
| ContentApp.App.ClearResult | App.tsx:294 | the clear button removes the result and nothing else |
| ContentApp.App.ExportResult | App.tsx:101-108 | no download without a non-empty result; the Markdown file is exactly the result, the JSON file carries the result and the form values |
| Markdown.Lines | components/ResultDisplay.tsx:15 | `text.split('\n')` has one line more than the text has line breaks, and joining the lines with line breaks gives back the text |
| Markdown.FormatText | components/ResultDisplay.tsx:17-22 | the segment texts are exactly the pieces of `split('**')`, cut at the leftmost markers; there is one more segment than markers, segment `i` is bold iff `i` is odd, and joining the segments with `**` restores the line |
| Markdown.NoStarNoBold | components/ResultDisplay.tsx:17-22 | a line without `*` is one plain segment |
| Markdown.UnclosedBoldRunsToEnd | components/ResultDisplay.tsx:19-20 | with an odd number of markers the last segment is bold |
| Markdown.UnclosedBoldExample | components/ResultDisplay.tsx:17-22 | `**bold` renders as an empty plain segment followed by bold `bold` |
| Markdown.NonBlank | components/ResultDisplay.tsx:83 | the blank-cell filter never adds pieces; what it keeps is stated by `NonBlankShape` and `NonBlankAppend` |
| Markdown.NonBlankShape | components/ResultDisplay.tsx:83 | the blank-cell filter keeps exactly the non-blank pieces |
| Markdown.NonBlankSingle | components/ResultDisplay.tsx:83 | the filter keeps one piece exactly when its trim is not empty |
| Markdown.NonBlankAppend | components/ResultDisplay.tsx:83 | the filter distributes over concatenation, so the kept pieces keep their order and multiplicity |
| Markdown.Cells | components/ResultDisplay.tsx:83 | the split of the trimmed line on `\|`, filtered unless the raw line starts and ends with `\|`; its shape is `CellsShape` |
| Markdown.CellsShape | components/ResultDisplay.tsx:83 | a line between pipes keeps every piece, so the cells joined with `\|` restore the trimmed line; any other line keeps its pieces filtered in order by `NonBlank`, which are exactly the non-blank pieces |
| Markdown.RowCells | components/ResultDisplay.tsx:82-87 | a line is a table row when its trimmed text has a `\|`, does not start with `---`, and has at least one cell; its row-level effect is in `StepCases` |
| Markdown.PipedRow | components/ResultDisplay.tsx:82-87 | `\|a\|b\|` is a table row with cells `["", a, b, ""]` |
| Markdown.OneCellRow | components/ResultDisplay.tsx:82-87 | `\|a\|` is a table row with cells `["", a, ""]` |
| Markdown.StripBulletMarkers | components/ResultDisplay.tsx:122 | the bullet text never grows; exactly what it drops is stated by `StripBulletMarkersShape` |
| Markdown.StripBulletMarkersShape | components/ResultDisplay.tsx:122 | the bullet text drops exactly the leading run of whitespace, `-` and `*` |
| Markdown.Classify | components/ResultDisplay.tsx:96-131 | a classified line yields a non-table block carrying the line's index |
| Markdown.ClassifyCases | components/ResultDisplay.tsx:96-131 | the first matching prefix of the trimmed line decides the kind, in the order `### `, `## `, `# `, `> `, `- `/`* `; the prefix is removed from the text; a blank line is a spacer and anything else a paragraph of the untrimmed line |
| Markdown.HeadingExample | components/ResultDisplay.tsx:102-105 | `## Título` is a level-2 heading with text `Título` |
| Markdown.BulletLine | components/ResultDisplay.tsx:118-125 | a `- ` line whose text starts with no marker and ends with no whitespace is a bullet of exactly that text |
| Markdown.BulletExample | components/ResultDisplay.tsx:118-125 | `- item um` is a bullet with text `item um` |
| Markdown.View | components/ResultDisplay.tsx:80-131 | what the loop body computes from one line: the row test, the cells, the `---` test on the trimmed line, and the classified block |
| Markdown.Flush | components/ResultDisplay.tsx:28-77 | `flushTable(key)` on the state: nothing on an empty buffer, otherwise one table and an empty buffer; `TableRowsFlush` proves no row is lost |
| Markdown.Step | components/ResultDisplay.tsx:79-132 | one iteration of the line loop on the state; its cases are `StepCases` |
| Markdown.Render | components/ResultDisplay.tsx:24-136 | the loop over the lines followed by the final flush; its properties are `NoTableRowLost`, `BlocksInLineOrder`, `TablesCloseAtTheirLine` and `TableFreeText` |
| Markdown.Renderer.constructor | components/ResultDisplay.tsx:25-26 | rendering starts with no elements and an empty table buffer |
| Markdown.Renderer.FlushTable | components/ResultDisplay.tsx:28-77 | an empty buffer emits nothing; otherwise one table is emitted, with the first buffered row as header and the rest as rows; afterwards the buffer is empty |
| Markdown.Renderer.ProcessLine | components/ResultDisplay.tsx:79-132 | the loop body moves the elements and the buffer to `Step` of the line's view: the state the line-level cases of `StepCases` describe |
| Markdown.StepCases | components/ResultDisplay.tsx:79-132 | a row line is buffered and emits nothing; a pipe line without cells is classified and the buffer stays open; with a table open, a non-row line holding `---` changes nothing and any other line emits the table under its own index and then its own block; with no table open a line becomes its own block |
| Markdown.RenderContent | components/ResultDisplay.tsx:24-136 | the loop over the lines followed by the final flush computes `Render` of the text |
| Markdown.NoTableRowLost | components/ResultDisplay.tsx:28-134 | every table row of the text appears in exactly one table block, in line order, and nothing else appears in tables |
| Markdown.BlocksInLineOrder | components/ResultDisplay.tsx:79-134 | blocks come out in line order; each line yields at most one block of its own; a table comes before the block of the line that closed it |
| Markdown.TablesCloseAtTheirLine | components/ResultDisplay.tsx:88-90 | a table flushed by a line is followed immediately by that line's own block; the table of the final flush is the last block |
| Markdown.TableFreeText | components/ResultDisplay.tsx:79-131 | without table rows every line becomes exactly its own classified block, in order |
| Markdown.PlainProse | components/ResultDisplay.tsx:126-131 | plain prose renders one paragraph per non-blank line and one spacer per blank line |
| Markdown.ThreeLines | components/ResultDisplay.tsx:15 | a text of three lines joined by `\n` splits back into those three lines |
| Markdown.RenderPipedTable | components/ResultDisplay.tsx:79-134 | three lines of two piped cells each render as one table, flushed at the end under key 3, the first line its header |
| Markdown.PipedTableExample | components/ResultDisplay.tsx:79-134 | the piped three-line table yields one table with four cells per row, and its rule line is a data row |
| Markdown.RowRuleOther | components/ResultDisplay.tsx:79-134 | a row line, a non-row `---` line and any other line render as a one-row table keyed by the third line, followed by that line's block |
| Markdown.RuleLineSkippedExample | components/ResultDisplay.tsx:88-94 | `\| a \|`, `---`, `fim`: the rule line is skipped, and `fim` flushes the table under its own index and follows it as a paragraph |
| Markdown.MobileCard | components/ResultDisplay.tsx:63-72 | the mobile card has one entry per header cell, labelled by the trimmed header; a missing or blank cell shows `-`, and any other cell shows `FormatText` of its trimmed text, with nothing lost |

## Left out

- services/geminiService.ts is not part of this model. The network call, its model settings and its quota message are reduced to the `generate` parameter of `ContentApp.App.HandleSubmit`, which returns either a text or an error message.
- Template.ResolvePrompt: requires field names of letters and digits and values without `$`. Without those, the regular expression and the `$` patterns of `String.replace` would come into play.
- ContentApp.App.BeginSubmit: requires the same literal form entries.
- ContentApp.App.HandleSubmit: requires the same literal form entries.
- Template.SetField: keeps pure insertion order. JavaScript lists integer-like object keys first; the catalog's field names are words, so the two orders agree there.
- ContentApp.App.HandleSubmit: runs the request to completion before any other handler. A method or prompt switch during the `await` is not modelled.
- The browser's `required` check on the inputs can block a submission with an empty field. It is not modelled; `HandleSubmit` covers empty fields as well.
- ContentApp.App.ExportResult: returns the file content as a structure. `JSON.stringify` formatting, the Blob and object URL, the anchor click and the `Date.now()` file name are not modelled.
- ContentApp.TickerSchedule: is stated over a `messages` parameter, which the component fills with `REASSURING_MESSAGES`. It models the order of the loading messages, not the 2.5-second timing or the `clearInterval` cleanup. `loadingMessage` keeps its last value after loading ends, as in the code. Inside the class, the callbacks that fire during the `await` are given to `ContentApp.App.HandleSubmit` as a count `ticks`.
- `setTimeout` scrolling to the form and result sections is not modelled.
- The clipboard copy and the two-second `copied` flag of the result panel are not modelled.
- JSX markup, class names, MethodologyCard, the Vite configuration and the catalog data in constants.ts and types.ts are presentation or static data, and are not modelled. The record types are mirrored as datatypes.
- The desktop table grid is left out: cells flow into a CSS grid whose column count is the header length. Only the mobile card (`Markdown.MobileCard`) is modelled.
- Strings are sequences of Unicode code points, while JavaScript strings are sequences of UTF-16 code units. Every separator and prefix the code tests is ASCII, so splitting, trimming and prefix tests agree; lengths of text outside the Basic Multilingual Plane would differ.
- `useMemo` caching of the line split has no effect on the result, so it is left out.
