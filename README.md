# SOLID Paw: highlighter and playground state, in Dafny

SOLID Paw is a React page that teaches the five SOLID principles. This project models two parts of it.

The first is the PHP syntax highlighter `highlightPHP`. It works in three phases:
- It HTML-escapes `&`, `<` and `>`.
- It protects every match of six token categories with a numbered placeholder `##TOKEN_n##`. The categories are comment, string, keyword, type, variable and operator, taken in that order. Each placeholder is recorded against a `<span class="code-…">` wrapper.
- It restores the placeholders in reverse order of creation.

The second part is the state of four interactive pieces:
- the mission-delegation game (single responsibility);
- the rescue-frequency game (dependency inversion);
- the lookout-slide demo (open-closed);
- the page's tab, failure-panel and mastery state.

Module by module:
- The highlighter is imperative, following the source:
  - `CodeBlock.HighlightPHP` runs the phases in order.
  - `CodeBlock.ProtectTokens` loops over the categories.
  - `CodeBlock.ReplaceCategory` is the global `String.replace` scan.
  - `Placeholders.RestorePlaceholders` is the reverse restoration loop.
  - Each is proved against pure specification functions: `Escape`, `Tokenized`/`Spans`, `ProtectFrom` and `Expand`. The properties are proved about those functions.
- Text under tokenizing is a sequence of pieces. A piece is a character, a placeholder, or a span's opening or closing tag. The placeholder table is a sequence whose index is the placeholder number.
- Each regular expression is a hand-written matcher (`Tokens.MatchAt`):
  - `\b` and `\w` work over `[A-Za-z0-9_]`.
  - Alternatives are tried left to right.
  - JavaScript's `.` excludes the four line terminators.
  - A placeholder is an opaque non-word symbol. `[^\n]`, `[^"\\]` and `.` accept it; no other pattern does.
- Each game is a class whose methods update its state cells in place. What the methods compute is stated by pure functions: `Dispatch`, `LaunchLines`, `Find`, `DynamicCode`, `TabletCode` and `CurrentPrinciple`. Lemmas about those functions state the invariants.

What the model shows about the highlighter's behaviour:
- Escaping runs first and the earlier passes add only placeholders, so the `->` and `=>` operator alternatives can never match in the operator pass.
- Alternatives are tried in source order. `==` is listed before `===` and `!=` before `!==`, so the match at `===` is `==`; the third `=` stays plain unless another `=` or a `>` follows it.

## Model

| member | source | states |
|---|---|---|
| Escaping.Escape | components/ui/CodeBlock.tsx:17-20 | the escaped text holds no raw `<` and no raw `>` |
| Escaping.EscapeIsPerCharacter | components/ui/CodeBlock.tsx:17-20 | replacing `&`, then `<`, then `>` equals escaping each character on its own, so no entity is escaped twice |
| Escaping.EscapeSafe | components/ui/CodeBlock.tsx:17-20 | escaped text holds no raw `<` or `>`, and every `&` in it begins `&amp;`, `&lt;` or `&gt;` |
| Escaping.EscapeRoundTrip | components/ui/CodeBlock.tsx:17-20 | decoding the three entities gives back the input: escaping loses nothing |
| Escaping.EscapeIdentity | components/ui/CodeBlock.tsx:17-20 | text without `&`, `<` and `>` is left unchanged by the escape chain |
| Escaping.ReplaceAll | components/ui/CodeBlock.tsx:18-20 | after a global replace of `c`, `c` is gone (when the replacement lacks it), and every other character comes from the input or the replacement |
| Tokens.FirstAlternative | components/ui/CodeBlock.tsx:25-28 | a match of an alternation ends inside the text (which alternative wins is stated by `FirstAlternativeEarliest`) |
| Tokens.FirstAlternativeEarliest | components/ui/CodeBlock.tsx:25-28 | a match is the length of the earliest listed alternative that matches there; no alternative listed before it matches, so a longer later one never wins |
| Tokens.FirstAlternativeSound | components/ui/CodeBlock.tsx:25-28 | a match of an alternation is one of its alternatives, spelled at the position (and followed by `\b` for word lists) |
| Tokens.FirstAlternativeComplete | components/ui/CodeBlock.tsx:25-28 | whenever some non-empty alternative is spelled at the position, the alternation matches |
| Tokens.FirstAlternativeMiss | components/ui/CodeBlock.tsx:25-28 | the alternation fails when every alternative starting with the character there is absent or not followed by `\b` |
| Tokens.WordMatch | components/ui/CodeBlock.tsx:25-26 | a keyword or type match ends inside the text and starts where `\b` holds: at the start or after a non-word piece |
| Tokens.WordMatchIsWholeWord | components/ui/CodeBlock.tsx:25-26 | a keyword or type match is a listed word with no word character before it or after it |
| Tokens.MatchAt | components/ui/CodeBlock.tsx:23-28 | every category's match starting at `i` stays inside the text |
| Tokens.LineRestStops | components/ui/CodeBlock.tsx:23 | `[^\n]*` consumes no newline and stops at the end or at a newline |
| Tokens.WordRunStops | components/ui/CodeBlock.tsx:27 | `\w*` consumes only word characters and stops at a non-word piece or the end |
| Tokens.StringRun | components/ui/CodeBlock.tsx:24 | the body of a string literal ends inside the text, at or after where it starts; where it stops and that it is the only body are stated by the next three lemmas |
| Tokens.StringRunBody | components/ui/CodeBlock.tsx:24 | what the run consumes is a body of `(?:[^"\\]\|\\.)*`: characters other than quote and backslash, and backslash pairs whose second piece is no line terminator |
| Tokens.StringRunStops | components/ui/CodeBlock.tsx:24 | the run stops at the end, at a quote, or at a backslash with nothing after it that `.` can match, so no step boundary is an unescaped quote |
| Tokens.StringRunOnly | components/ui/CodeBlock.tsx:24 | any body followed by a quote ends where the run ends, so backtracking finds no other closing quote |
| Tokens.StringLitMatch | components/ui/CodeBlock.tsx:24 | a string match is a quote, a body and a quote; and a quote, body and quote at the position are always the match found |
| TokenFacts.CommentTakesTheLine | components/ui/CodeBlock.tsx:23 | `// class` is one comment match of its whole length |
| TokenFacts.EscapedQuoteInString | components/ui/CodeBlock.tsx:24 | `"a\"b"` is one string match: a backslash-escaped quote does not end the literal |
| TokenFacts.ClassIsKeyword | components/ui/CodeBlock.tsx:25 | `class` standing as a whole word is a keyword match of length 5 |
| TokenFacts.ClassicIsPlain | components/ui/CodeBlock.tsx:25 | no keyword matches at the start of `classic` |
| TokenFacts.FooIsPlain | components/ui/CodeBlock.tsx:26 | a name missing from the type list, such as `Foo`, is no type match |
| TokenFacts.LoneEqualsIsPlain | components/ui/CodeBlock.tsx:28 | an `=` followed by neither `=` nor `>` starts no operator match |
| TokenFacts.TripleEqualsTakesTwo | components/ui/CodeBlock.tsx:28 | at `===` the operator match has length 2, because `==` is tried before `===`; the third `=` then starts no match unless `=` or `>` follows it |
| TokenFacts.EscapedLacksGreater | components/ui/CodeBlock.tsx:17-20 | escaped text, as pieces, holds no `>` |
| TokenFacts.NoArrowAfterEscape | components/ui/CodeBlock.tsx:28 | in any text without `>`, every operator match is an alternative without `>`, so `->` and `=>` never fire |
| Scanning.Scan | components/ui/CodeBlock.tsx:36-40 | the text one `replace` pass returns: each match replaced by the next placeholder; its properties are `ScanCounts`, `ScanKeepsText` and `ScanNoMatch` |
| Scanning.ScanSpans | components/ui/CodeBlock.tsx:36-38 | the entries the callback records, one per match in order; its property is `ScanSpansHoldInput` |
| Scanning.Matches | components/ui/CodeBlock.tsx:36 | the match lengths at every position keep each match inside the text |
| Scanning.ScanCounts | components/ui/CodeBlock.tsx:36-40 | after a pass, the new placeholders are exactly `next`, `next+1`, …, one per recorded entry, each used once, and no old one is lost or duplicated |
| Scanning.ScanSpansHoldInput | components/ui/CodeBlock.tsx:36-38 | every entry a pass records carries the pass's category and holds only placeholders of the pass's input |
| Scanning.ScanKeepsText | components/ui/CodeBlock.tsx:36-40 | a pass loses, duplicates and reorders no character of the text's meaning |
| Scanning.ScanKeepsAbsent | components/ui/CodeBlock.tsx:36-40 | a pass adds only placeholders: a character missing from its input is missing from its output |
| Scanning.ScanNoMatch | components/ui/CodeBlock.tsx:36 | where no match starts, a pass changes nothing and records nothing |
| CodeBlock.ReplaceCategory | components/ui/CodeBlock.tsx:36-40 | the scan loop produces the pass's text and entries, and advances `tokenCounter` by one per entry |
| CodeBlock.ProtectTokens | components/ui/CodeBlock.tsx:31-41 | the category loop computes the protect phase and ends with each id used once and spans ordered by priority |
| CodeBlock.ProtectStep | components/ui/CodeBlock.tsx:35-41 | one category's pass keeps the protect invariant and the text of the meaning |
| CodeBlock.PassLinear | components/ui/CodeBlock.tsx:37 | with `tokenCounter` only increasing, every placeholder id is used exactly once after a pass |
| CodeBlock.PassPriority | components/ui/CodeBlock.tsx:22-35 | a span only ever holds spans of earlier categories |
| CodeBlock.ProtectSplit | components/ui/CodeBlock.tsx:35-41 | running the first `k` category passes and then the rest is the whole protect phase |
| CodeBlock.ProtectBeforeKeepsAbsent | components/ui/CodeBlock.tsx:35-41 | a character missing from the escaped text is missing from the text every later pass reads |
| CodeBlock.NoArrowInOperatorPass | components/ui/CodeBlock.tsx:17-41 | the operator pass is the last pass and reads the escaped text after the five others; there every operator match is an alternative without `>`, so `->` and `=>` never fire |
| CodeBlock.ProtectedTable | components/ui/CodeBlock.tsx:31-41 | at the end of the protect phase, each id occurs once and a comment or string span holds no keyword, type, variable or operator span |
| CodeBlock.HighlightedKeepsText | components/ui/CodeBlock.tsx:15-49 | the characters of the highlighted text, spans aside, are exactly the escaped input |
| CodeBlock.HighlightedHasNoPlaceholder | components/ui/CodeBlock.tsx:45-47 | no placeholder survives the restoration |
| CodeBlock.HighlightedOutput | components/ui/CodeBlock.tsx:15-49 | deleting every span tag from the returned string yields the escaped input |
| CodeBlock.HighlightPHP | components/ui/CodeBlock.tsx:15-50 | the method returns the rendered highlighted text, and stripping its span tags gives the escaped input |
| CodeBlock.ProtectedPlain | components/ui/CodeBlock.tsx:35-41 | where no category matches anywhere, the protect phase leaves the text and an empty table |
| CodeBlock.HighlightPlainText | components/ui/CodeBlock.tsx:15-49 | an input with no `&<>` and no category match is returned unchanged |
| CodeBlock.HighlightEmpty | components/ui/CodeBlock.tsx:15-49 | the empty input highlights to the empty string |
| Placeholders.Expand | components/ui/CodeBlock.tsx:45-47 | the meaning of a protected text: each placeholder replaced by its span, recursively; its properties are `ExpandLeavesNoPlaceholder` and `RestorePlaceholders` |
| Placeholders.ReplaceFirst | components/ui/CodeBlock.tsx:46 | `String.replace` with a string pattern: a text without the placeholder is returned unchanged |
| Placeholders.ReplaceFirstAt | components/ui/CodeBlock.tsx:46 | only the first occurrence of the placeholder is replaced, the rest of the text is kept |
| Placeholders.ExpandLeavesNoPlaceholder | components/ui/CodeBlock.tsx:45-47 | expanding a text whose placeholders all have entries leaves none |
| Placeholders.RestoreStep | components/ui/CodeBlock.tsx:46 | replacing the first occurrence of the newest placeholder keeps each id once and keeps the meaning |
| Placeholders.RestorePlaceholders | components/ui/CodeBlock.tsx:45-47 | reverse-order literal restoration equals the full expansion, including placeholders captured inside later spans, and leaves no placeholder |
| Markup.Render | components/ui/CodeBlock.tsx:37-38 | the string form of pieces: a placeholder prints as `##TOKEN_<n>##` and a span as its `<span class=…>` tags; its property is `StripRender` |
| Markup.StripRender | components/ui/CodeBlock.tsx:38 | with no placeholder and no `<` in the characters, deleting the tags from the rendered pieces leaves exactly their characters |
| Markup.Digits | components/ui/CodeBlock.tsx:37 | a placeholder number prints as a non-empty run of decimal digits |
| SrpGame.EveryAssigned | components/interactive/SRPGame.tsx:29 | `every` holds exactly when each listed task has a truthy assignment |
| SrpGame.IsComplete | components/interactive/SRPGame.tsx:29 | the game is complete exactly when both `t1` and `t2` are assigned |
| SrpGame.ViolationMessage | components/interactive/SRPGame.tsx:22 | the violation feedback names the pup and the pup's role |
| SrpGame.Game.HandleAssign | components/interactive/SRPGame.tsx:20-27 | a role mismatch leaves the assignments unchanged and sets the violation feedback; a match sets `assignments[taskId]` to the pup and changes no other entry |
| SrpGame.Game.Click | components/interactive/SRPGame.tsx:56-64 | a click on a listed pup under a listed task keeps every assignment fitting its task; a disabled (assigned) task changes nothing; a fitting pup is assigned and the feedback kept; a mismatched pup leaves the assignments and sets the violation message for that pup and role |
| SrpGame.ValidAssignments | components/interactive/SRPGame.tsx:6-26 | with the fixed data, `t1` can only hold Chase and `t2` only Marshall |
| SrpGame.DynamicCode | components/interactive/SRPGame.tsx:31-33 | until complete, the snippet contains `Marshall->spray();` iff `t2` is assigned and `Chase->track();` iff `t1` is; once complete it is the decoupled snippet |
| SrpGame.Game.constructor | components/interactive/SRPGame.tsx:17-18 | the game starts with no assignments and no feedback |
| DipGame.Take | components/interactive/DIPGame.tsx:11-13 | `slice(0, n)` keeps a prefix of at most `n` lines, all of them when there are fewer |
| DipGame.Dispatch | components/interactive/DIPGame.tsx:9-15 | at most 3 lines; coupled mode puts the Direct Dependency line first and keeps the 2 newest old lines, decoupled mode puts Broadcast then Found Responder first and keeps the newest old line |
| DipGame.DispatchForgets | components/interactive/DIPGame.tsx:11-13 | after three dispatches, in any modes, the log no longer depends on the log before them |
| DipGame.DispatchKeepsLog | components/interactive/DIPGame.tsx:11-13 | the log holds only dispatch lines, and every Found Responder line directly follows a Broadcast line, however modes are switched |
| DipGame.TabletCode | components/interactive/DIPGame.tsx:17-19 | the snippet names `Firefighter` exactly in decoupled mode and constructs `new Marshall()` exactly in coupled mode |
| DipGame.Game.CallForHelp | components/interactive/DIPGame.tsx:9-15 | `logs` becomes the dispatch of the old log in the current mode; the mode is unchanged |
| DipGame.Game.SetDecoupled | components/interactive/DIPGame.tsx:41-47 | the mode buttons change only `isDecoupled`; `logs` is untouched |
| DipGame.Game.constructor | components/interactive/DIPGame.tsx:6-7 | the game starts coupled with an empty log |
| OcpDemo.Find | components/interactive/OCPDemo.tsx:26 | `find` returns the first pup of that name, or nothing exactly when no pup has it |
| OcpDemo.LaunchLine | components/interactive/OCPDemo.tsx:21 | a launch line carries the pup's name, whole, right after `Slide: Launching ` |
| OcpDemo.LaunchLines | components/interactive/OCPDemo.tsx:21 | one launch line per pup, in fleet order, each naming its pup |
| OcpDemo.LaunchLineNames | components/interactive/OCPDemo.tsx:21 | two equal launch lines name the same pup |
| OcpDemo.LaunchLinesDistinct | components/interactive/OCPDemo.tsx:20-23 | with distinct names, no launch line repeats |
| OcpDemo.FleetShapeBounded | components/interactive/OCPDemo.tsx:13-27 | every reachable fleet has at most 3 pups with distinct names |
| OcpDemo.SkyeFoundIffAdded | components/interactive/OCPDemo.tsx:26 | in a reachable fleet, Skye is found exactly when she has been appended, so a second `addSkye` does nothing |
| OcpDemo.Demo.constructor | components/interactive/OCPDemo.tsx:13-18 | the fleet starts as [Chase, Marshall] and the log empty |
| OcpDemo.Demo.Launch | components/interactive/OCPDemo.tsx:20-23 | `logs` becomes the launch lines of the fleet; the fleet is unchanged |
| OcpDemo.Demo.AddSkye | components/interactive/OCPDemo.tsx:25-29 | with Skye absent, she is appended once at the end and the log cleared; with Skye present nothing changes; the fleet stays reachable |
| App.FindFrom | App.tsx:80 | `PRINCIPLES.find` returns an entry with the tab's id, or nothing when no later entry has it |
| App.PrincipleListed | App.tsx:80 | every tab has its principle in the list, so the `!` never fails |
| App.CurrentPrinciple | App.tsx:80 | `currentPrinciple` is a listed principle whose id is the active tab |
| App.Page.OnMastered | App.tsx:82-86 | `id` is added to `mastered` when absent and the set is unchanged when present; nothing else changes |
| App.Page.PlayGame | App.tsx:131-135 | a game click adds that principle's id and leaves the tab and the failure panel; `mastered` only grows, stays within the five ids and has at most `PRINCIPLES.length` members |
| App.MasteredBounded | App.tsx:272 | a set of principle ids has at most `PRINCIPLES.length` members |
| App.Page.SelectTab | App.tsx:288-290 | a tab click sets `activeTab`, folds the failure panel and leaves `mastered` alone |
| App.Page.ToggleFailures | App.tsx:404 | the failures button flips `showFailures` and changes nothing else, so two clicks restore it |
| App.Page.constructor | App.tsx:75-78 | the page starts on the SRP tab with the panel folded and nothing mastered |

## Left out

- HighlightPHP: a `$` followed by `$`, `&`, `` ` ``, `'`, `<` or `>` in the input is excluded by a precondition. In the restored span such a pair is a `String.replace` replacement pattern, and the source would then insert other text. `<` and `>` count because they become `&lt;` and `&gt;`, which start with `&`.
- HighlightPHP: an input containing `TOKEN_` is excluded by a precondition. Such text can combine with a placeholder's trailing `##` to forge a placeholder. The model's placeholders are opaque pieces, so they cannot collide with input text.
- The regular expressions are hand-written matchers, not a general regular-expression engine.
  - The string pattern is matched by a greedy scan; `Tokens.StringRunOnly` proves backtracking could find no other match.
- The React `CodeBlock` component is not modelled: its JSX, Tailwind classes and icons, its `dangerouslySetInnerHTML` and the browser's HTML parsing. The model ends at the string `highlightPHP` returns.
- The `title` of the code panels is not modelled: it is a JSX prop with no behaviour behind it.
- The `titleId` slug of `CodeBlock` is not modelled. It relies on Unicode `toLowerCase`.
- The feedback of the delegation game is not cleared after 3 seconds. `setTimeout` and asynchrony are not modelled; the feedback stays until the next refused assignment.
- The fixed `slideCode` snippet of the slide demo is not modelled. It is a constant with no state behind it.
- The page's scroll-spy is not modelled: `IntersectionObserver`, `scrollToSection`, `window.scrollTo` and `getBoundingClientRect`. It is browser I/O.
- The mastery ring is not modelled: `masteryProgress`, `circumference` and stroke offsets. They are floating-point presentation. Only the bound on `mastered.size` is kept.
- The substitution and segregation games (`LSPGame.tsx`, `ISPGame.tsx`) are not modelled. Each is a single boolean toggle with nothing further to state.
- The prose of the principle list in `constants.tsx` is not modelled. Only the five ids and titles are kept.
