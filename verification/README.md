# Chat markdown renderer and sidebar list logic, in Dafny

This project models the pure logic of a chemistry assistant's web front end.

- **The chat message renderer.** `renderMarkdown` trims a message and splits it into lines. It then classifies each line, first match wins, as a heading, an unordered item, an ordered item, a block quote, a table row, a table separator (rendered as nothing), a paragraph or a blank spacer. `processInlineFormatting` rewrites the text of most blocks with five global regular-expression replacements, in this order: bold `**…**`, italic `*…*`, code `` `…` ``, strike-through `~~…~~` and links `[text](url)`.
- **The endpoint API's record building.** `getStatus` maps a probability to high, medium or low. The endpoint list numbers the model's entries from 1.
- **The endpoint table.** Rows are sorted by descending probability. Three rows show until the table is expanded, with a "+N more" count and one colour per status.
- **The module selector.** It covers the initial selection, the check-box toggle, grouping by name, and the "N Modules Selected (Default)" label.
- **The module panel.** It covers the initially active modules, the shown modules in numeric id order, the view per module name, and the open/close button.
- **The search dialog.** It covers the case-insensitive title filter and the visibility of the favorites and recents sections.

Files:

- `text.dfy` (`Text`): JavaScript's `\s` and `trim`, `split` on one character, and `includes`.
- `options.dfy` (`Options`): the optional value, for a missing result or an absent argument.
- `decimal.dfy` (`Decimal`): `String(n)`, the `/^\d+/` match and `parseInt` on decimal numerals.
- `inline.dfy` (`Inline`): the five inline passes.
- `markdown.dfy` (`Markdown`): the line classifier and the renderer.
- `sequences.dfy` (`Sequences`): `filter` and the stable `sort`.
- `modules.dfy` (`Modules`): the shared module record.
- `endpoint.dfy`, `data_table.dfy`, `modules_selector.dfy`, `module_panel.dfy` and `search.dfy`: one module per component.

How the model follows the code:

- **Rendered blocks.** A rendered line is an `Option<Block>`, with `None` for the table separator. Block contents are kept raw, and `Markdown.Formatted` applies the inline passes to exactly the fields the component formats. Headings are never formatted.
- **Lines.** Lines are cut with `split('\n')` from the trimmed text, so an empty message renders as one spacer rather than as nothing. The model follows the code here.
- **Regular-expression `.`.** It refuses the four ECMAScript line terminators (`\n`, `\r`, U+2028, U+2029), so a `\r` inside a line stops a lazy match exactly as it does in JavaScript.
- **Inline passes.** Each pass is a global replacement. At every position it tries the pattern. On a match it emits the replacement and resumes after the match; otherwise it copies one character.
- **Shortest match.** The lazy `D(.*?)D` match is the nearest closing delimiter reached over `.` characters. The link pattern's match is the lexicographically least split point, which is what a backtracking matcher finds.
- **Sorting.** `Array.prototype.sort` is stable, and is modelled as a stable insertion sort on a numeric key.

## Model

| member | source | states |
|---|---|---|
| Text.Trim | src/components/chat/MarkdownRenderer.tsx:9 | the trimmed text is the slice of the input between its leading and trailing whitespace, and neither starts nor ends with whitespace |
| Text.TrimEmptyIff | src/components/chat/MarkdownRenderer.tsx:77 | a line trims to nothing exactly when it is all whitespace |
| Text.SplitSpec | src/components/chat/MarkdownRenderer.tsx:9 | the parts of `split` hold no separator and, joined with it, give back the text |
| Text.SplitCount | src/components/chat/MarkdownRenderer.tsx:60 | `split` gives one more part than there are separators |
| Text.SplitJoin | src/components/chat/MarkdownRenderer.tsx:9 | splitting undoes joining parts that hold no separator |
| Text.IncludesSpec | src/components/chat/MarkdownRenderer.tsx:61 | `includes` is true exactly when the text occurs at some position |
| Decimal.ParseShow | src/app/api/endpoint/route.ts:26 | `parseInt(String(n))` reads back `n` |
| Decimal.ShowInjective | src/app/api/endpoint/route.ts:26 | distinct numbers get distinct numerals |
| Decimal.ShowOfCanonical | src/app/api/endpoint/route.ts:26 | every all-digit numeral without a leading zero is the one `String` writes for its value |
| Decimal.DigitRun | src/components/chat/MarkdownRenderer.tsx:38 | the `/^\d+/` match is the longest all-digit prefix |
| Inline.FindFromSpec | src/components/chat/MarkdownRenderer.tsx:88-96 | a lazy `(.*?)` stops at the first occurrence of what follows it, and finds none only when every occurrence lies past a line terminator |
| Inline.PairMatchSpec | src/components/chat/MarkdownRenderer.tsx:88-94 | `D(.*?)D` matches at the start of the text exactly when some closing delimiter is reachable, and then the shortest such match is taken |
| Inline.LinkMatchSpec | src/components/chat/MarkdownRenderer.tsx:96 | the link pattern matches exactly when some split into text and url exists, and then the lexicographically least split is taken |
| Inline.PassWithoutDelimiter | src/components/chat/MarkdownRenderer.tsx:88-94 | a pass leaves text without its delimiter unchanged |
| Inline.LinkPassWithoutBracket | src/components/chat/MarkdownRenderer.tsx:96 | the link pass leaves text without `[` unchanged |
| Inline.PlainTextUnchanged | src/components/chat/MarkdownRenderer.tsx:86-99 | text containing none of `*`, `` ` ``, `~`, `[` comes out of all five passes unchanged |
| Inline.PassWithoutMatch | src/components/chat/MarkdownRenderer.tsx:88-94 | a pass that matches at no position copies its input |
| Inline.PassSkipsPrefix | src/components/chat/MarkdownRenderer.tsx:88-94 | a pass copies every position before the first one where its pattern matches |
| Inline.PassReplacesLeftmost | src/components/chat/MarkdownRenderer.tsx:88-94 | the leftmost match `D m D` becomes `open m close`, the text before it is copied, and the global replace carries on after the closing delimiter |
| Inline.LinkSkipsPrefix | src/components/chat/MarkdownRenderer.tsx:96 | the link pass copies every position before the first one where the link pattern matches |
| Inline.LinkReplacesLeftmost | src/components/chat/MarkdownRenderer.tsx:96 | the leftmost `[text](url)` is replaced by what one link step emits there, the text before it is copied, and the global replace carries on after the `)` |
| Inline.FirstFailureIsFinal | src/components/chat/MarkdownRenderer.tsx:88-94 | on a single line, an opening delimiter that finds no closing one leaves the rest of the text unmatched too |
| Inline.TagsHoldNoDelimiter | src/components/chat/MarkdownRenderer.tsx:88-96 | no inserted tag contains the opening character of any pass (`*`, `` ` ``, `~`, `[`) |
| Inline.PassCount | src/components/chat/MarkdownRenderer.tsx:88-94 | a pass never adds a character its tags do not contain, and keeps the count of every character that is in neither the tags nor the delimiter |
| Inline.LinkPassCount | src/components/chat/MarkdownRenderer.tsx:96 | the link pass never adds delimiter characters |
| Inline.CountAnchor | src/components/chat/MarkdownRenderer.tsx:96 | the anchor holds exactly the delimiters of its text and url |
| Inline.FormatAddsNoDelimiters | src/components/chat/MarkdownRenderer.tsx:86-96 | the five passes together never add a delimiter character, so no later pass matches an inserted tag |
| Inline.PassRoundTrip | src/components/chat/MarkdownRenderer.tsx:88-94 | for input holding no literal tag, replacing every tag by the delimiter again gives back the input, so matches do not overlap and unmatched delimiters stay literal |
| Markdown.ClassifyOrder | src/components/chat/MarkdownRenderer.tsx:11-82 | each block kind is chosen exactly when its test passes and every earlier test fails |
| Markdown.NumberPrefixIff | src/components/chat/MarkdownRenderer.tsx:36-37 | `/^\d+\.\s/` matches exactly when some digit count does, and the match length is that count plus two |
| Markdown.HeadingShape | src/components/chat/MarkdownRenderer.tsx:13-16 | the level is the length of the leading `#` run; the run and one whitespace are stripped only when that whitespace follows |
| Markdown.HeadingSizeOrder | src/components/chat/MarkdownRenderer.tsx:17 | levels 1, 2 and 3 get exactly `3xl`, `2xl` and `xl`, every deeper level `lg`, and the size never grows with the level |
| Markdown.HeadingUnformatted | src/components/chat/MarkdownRenderer.tsx:18 | a heading is rendered without inline formatting |
| Markdown.BulletShape | src/components/chat/MarkdownRenderer.tsx:22-26 | an item is the trimmed line minus `[-*]\s`, indented by half the untrimmed line's leading whitespace, rounded down |
| Markdown.NumberedShape | src/components/chat/MarkdownRenderer.tsx:36-37 | an ordered item is the trimmed line minus digits, `.` and one whitespace |
| Markdown.NumberedNumber | src/components/chat/MarkdownRenderer.tsx:38-39 | the number is read from the untrimmed line: empty when the item is indented, the item's digits otherwise |
| Markdown.QuoteShape | src/components/chat/MarkdownRenderer.tsx:49-50 | a quote strips `>` and at most one following whitespace |
| Markdown.RowShape | src/components/chat/MarkdownRenderer.tsx:59-63 | a row is a line with a bar and no bar-dash; its cells hold no bar, are non-blank and trimmed, and number at most one more than the bars |
| Markdown.CellsAsFilter | src/components/chat/MarkdownRenderer.tsx:60-69 | the cells are every non-blank fragment, wherever it stands, trimmed and in order |
| Markdown.CellsOfTrimmed | src/components/chat/MarkdownRenderer.tsx:60-69 | trimmed, non-blank fragments become the cells unchanged |
| Markdown.RenderLength | src/components/chat/MarkdownRenderer.tsx:9-11 | one rendered entry per line of the trimmed text |
| Markdown.RenderJoined | src/components/chat/MarkdownRenderer.tsx:9-11 | rendering trimmed lines joined by line breaks renders each line in order |
| Markdown.RenderEmpty | src/components/chat/MarkdownRenderer.tsx:82 | an empty message renders as one spacer |
| Markdown.PlainLine | src/components/chat/MarkdownRenderer.tsx:77-78 | a line without formatting characters renders as its block with contents untouched |
| Markdown.QuoteBeforeTable | src/components/chat/MarkdownRenderer.tsx:49-59 | `> a \| b` is a quote, not a table row |
| Markdown.HeadingBeforeTable | src/components/chat/MarkdownRenderer.tsx:13-59 | `# a \| b` is a heading, not a table row |
| Sequences.FilterSubseq | src/components/header/search/Search.tsx:50 | a filter result is an order-preserving subsequence |
| Sequences.FilterCount | src/components/header/search/Search.tsx:50 | a filter keeps an element as often as it occurs when it passes, never otherwise |
| Sequences.SortBySorted | src/components/sidebar/modules/DataTable.tsx:30 | the sort orders by key |
| Sequences.SortByStable | src/components/sidebar/modules/DataTable.tsx:30 | the sort keeps equal-key elements in input order |
| Endpoint.GetStatusBands | src/app/api/endpoint/route.ts:42-46 | high from 80, medium from 50 below 80, low below 50 |
| Endpoint.GetStatusMonotone | src/app/api/endpoint/route.ts:42-46 | a larger probability never gives a lower status |
| Endpoint.EndpointsSpec | src/app/api/endpoint/route.ts:25-31 | one record per entry in order, fields copied, status derived, id the canonical decimal numeral (digits only, no leading zero) of the one-based position |
| Endpoint.EndpointIdsDistinct | src/app/api/endpoint/route.ts:26 | no two records share an id |
| DataTable.SortedDataSpec | src/components/sidebar/modules/DataTable.tsx:30 | the sorted rows are a permutation of the input with non-increasing probability |
| DataTable.SortedDataStable | src/components/sidebar/modules/DataTable.tsx:30 | rows of equal probability keep their order |
| DataTable.DisplayDataSpec | src/components/sidebar/modules/DataTable.tsx:31-32 | collapsed: the first min(3, n) sorted rows, holding the largest probabilities, with shown plus remaining equal to n; expanded: all sorted rows |
| DataTable.StatusColorInjective | src/components/sidebar/modules/DataTable.tsx:34-41 | high risk is `bg-red-500`, medium `bg-yellow-500` and low `bg-green-500`, so distinct statuses get distinct colours |
| DataTable.ExpandLabelCount | src/components/sidebar/modules/DataTable.tsx:105 | the collapsed caption is `+`, the canonical numeral of the number of hidden rows, and ` more`; `parseInt` of the text after `+` is exactly that number |
| Modules.HasIdSpec | src/components/Sidebar/Modules/ModulesSelector.tsx:30 | `some(m => m.id === id)` holds exactly when an entry has that id |
| ModulesSelector.InitialSelectionDefaults | src/components/Sidebar/Modules/ModulesSelector.tsx:18-20 | a given list is used as is; otherwise the default modules in available order, each default module as many times as it is available and no other module |
| ModulesSelector.ToggleMembership | src/components/Sidebar/Modules/ModulesSelector.tsx:28-37 | the toggled id flips membership and every other id keeps it |
| ModulesSelector.ToggleRemoves | src/components/Sidebar/Modules/ModulesSelector.tsx:30-32 | deselecting drops every entry with the id and keeps every other entry, in order and as many times as it occurred |
| ModulesSelector.ToggleAppends | src/components/Sidebar/Modules/ModulesSelector.tsx:33-34 | selecting appends the module after the unchanged selection |
| ModulesSelector.ToggleTwice | src/components/Sidebar/Modules/ModulesSelector.tsx:28-37 | selecting and then deselecting a module restores the selection |
| ModulesSelector.ToggleKeepsSelectionValid | src/components/Sidebar/Modules/ModulesSelector.tsx:28-37 | toggles keep the selection within the available modules and free of repeated ids |
| ModulesSelector.ByNameSpec | src/components/Sidebar/Modules/ModulesSelector.tsx:39-45 | one group per occurring name, holding that name's modules in order |
| ModulesSelector.ByNamePartition | src/components/Sidebar/Modules/ModulesSelector.tsx:39-45 | every module is in its own name's group and in no other |
| ModulesSelector.CountLabelPlural | src/components/Sidebar/Modules/ModulesSelector.tsx:91 | the label says "Modules" exactly when the count is not 1 |
| ModulesSelector.DefaultTagIff | src/components/Sidebar/Modules/ModulesSelector.tsx:93-94 | for a valid selection, "(Default)" shows exactly when the selected modules are the default ones |
| ModulesSelector.InitialSelectionTagged | src/components/Sidebar/Modules/ModulesSelector.tsx:93-94 | the default selection carries "(Default)" |
| ModulePanel.InitialActiveOfPanel | src/components/sidebar/modules/ModulePanel.tsx:51-59 | the panel starts with Visuals and Endpoints active |
| ModulePanel.DisplayedMembership | src/components/sidebar/modules/ModulePanel.tsx:165-166 | a module is shown exactly when it is available and its id is active |
| ModulePanel.DisplayedCount | src/components/sidebar/modules/ModulePanel.tsx:165-166 | a shown module appears as often as it is available, however often its id is active |
| ModulePanel.DisplayedDependsOnIds | src/components/sidebar/modules/ModulePanel.tsx:166 | only which ids are active matters, not their order or repetition |
| ModulePanel.DisplayedAscending | src/components/sidebar/modules/ModulePanel.tsx:167 | shown modules are in ascending numeric id order |
| ModulePanel.InitialDisplay | src/components/sidebar/modules/ModulePanel.tsx:165-167 | on first render Visuals then Endpoints are shown |
| ModulePanel.RenderModuleContentCovers | src/components/sidebar/modules/ModulePanel.tsx:95-110 | Visuals shows the molecule viewer, Information the information view and Endpoints the data table; every panel module has its own view; unknown names render nothing |
| ModulePanel.HandleToggleSpec | src/components/sidebar/modules/ModulePanel.tsx:65-69 | the button flips the panel, reports the new state when a callback is given, and a second press restores it |
| Search.FilterItemsSpec | src/components/header/search/Search.tsx:49-53 | the result is an order-preserving subsequence keeping exactly the items whose lower-cased title contains the lower-cased query, every copy of each |
| Search.FilterItemsEmptyQuery | src/components/header/search/Search.tsx:51 | an empty query keeps every item |
| Search.FilterItemsIgnoresCase | src/components/header/search/Search.tsx:51 | queries equal up to ASCII letter case give the same result |
| Search.FilterItemsUpperQuery | src/components/header/search/Search.tsx:51 | a query upper-cased in its ASCII letters finds the same items |
| Search.VisibilitySpec | src/components/header/search/Search.tsx:94-114 | favorites show unless favorites-only mode is on with a query; recents show only outside that mode; the star flips it |

## Left out

- Rendering: React elements, `dangerouslySetInnerHTML` and animation are presentation, and so are the CSS class strings, except the heading sizes, the status colours and the tags the inline passes insert. Inline output is the HTML string the passes build.
- Characters: strings are sequences of code points. JavaScript's UTF-16 code units (surrogate pairs) are not modelled; every whitespace and delimiter character involved is a single unit.
- Numbers: probabilities and confidences are mathematical reals. NaN, infinities and floating-point rounding in `getStatus` and in the sort comparator are not modelled.
- The endpoint API's JSON file read, its error response and the molecule and information fields it copies are I/O and data plumbing.
- Endpoint.EndpointsSpec: the entries are taken in the given order; `Object.entries`, which lists integer-like keys first, is not modelled.
- ModulesSelector.ByNameSpec: groups form a map, so the order in which `Object.entries` lists them is not modelled. Names that collide with `Object.prototype` members (such as `constructor`) are not modelled either.
- ModulePanel.DisplayedAscending: an id's key is the value of its leading run of decimal digits, and 0 when there is none. The rest of `parseInt` is not modelled: it skips leading whitespace (`parseInt(" 3")` is 3), reads a sign (`parseInt("-2")` is -2), reads `0x` as a hexadecimal prefix, and gives NaN for an id with no leading digit. For such ids the model's order can differ from the component's. The panel's own ids `1`, `2` and `3` are plain numerals, which the model reads exactly.
- Search.FilterItemsSpec: `toLowerCase` is modelled for ASCII letters only.
- Search.FilterItemsIgnoresCase: holds for ASCII letter case only; in JavaScript "ας" and "ασ" upper-case alike but lower-case differently, so they can find different items.
- Search.FilterItemsUpperQuery: holds for ASCII letters only; in JavaScript `"ß".toUpperCase()` is "SS", so "Straße" is found by "ß" but not by its upper-cased form.
- Inline.FirstFailureIsFinal: stated for text without line terminators, which a rendered line never holds except for `\r` and U+2028/U+2029; with those characters a later delimiter can still match.
- State hooks and effects are left out: the selector's `onModulesChange` effect, its expanded flag, the panel's tab value and badge timer, the dialog's Escape key handler and the table's loading spinner. Their values are parameters where an operation reads them.
- The panel's endpoint view: `src/components/sidebar/modules/ModulePanel.tsx:106` renders the table without `data`, and `[...data]` at `src/components/sidebar/modules/DataTable.tsx:30` would then throw. `DataTable` here always receives its rows as an argument, so the missing array is not modelled.
- The search dialog's and panel's fixed item lists are data, not logic. Only the panel's module list is modelled.
